/** The outcome of an operation that the program can abort: a panic or a failed `assert!`
    in the program becomes `None` / `Err` here. */
module Wrappers {

  datatype Option<T> = None | Some(value: T)

  datatype Result<T, E> = Ok(value: T) | Err(error: E)
}
