# Rust-RSA core in Dafny

A model of the cryptographic core of `rsa_vis`. That is a textbook RSA implementation
over arbitrary-precision integers. It covers:

- the Euclidean gcd and extended-Euclid modular inverse (`_gcd`, `_modular_multiplicative_inverse`);
- key generation once the two primes are chosen: n = p q, lambda = lcm(p - 1, q - 1), e = 65537 and d = e^-1 mod lambda (`_gen_key`);
- the per-block cipher (`_encrypt_bytes`, `_decrypt_bytes`);
- the text codec, which packs four characters into each `u32` with shifts and exclusive or and unpacks them a byte at a time (`_pack_string`, `_unpack_string`);
- their composition (`encrypt_str`, `decrypt_str`);
- the GCC-constant linear congruential generator `Rng` (`rand.rs`);
- the sieve of Eratosthenes (`primes.rs`).

Modules, one per concern:

| module | file | contents |
|---|---|---|
| `Wrappers` | `wrappers.dfy` | `Option` and `Result` |
| `Arith` | `arith.dfy` | `Pow`, `Divides`, `IsPrime` and the modular-arithmetic lemmas the proofs need |
| `Bits` | `bits.dfy` | `u32`, bitwise `Xor`/`And` on naturals, the 8-bit shifts, mask lemmas |
| `RsaMath` | `rsa_math.dfy` | `Gcd`, Bezout's identity, the modular inverse loop |
| `RsaKeys` | `rsa_keys.dfy` | lambda, key generation, `ModPow`, the two cipher loops |
| `Codec` | `codec.dfy` | the pack and unpack loops, closed forms of their results, the round trip |
| `RsaText` | `rsa_text.dfy` | `encrypt_str` and `decrypt_str` |
| `RsaCorrectness` | `rsa_correct.dfy` | Fermat's little theorem, the Chinese remainder step, and RSA correctness for keys from `_gen_key` |
| `Rand` | `rand.dfy` | the `Rng` class, `new_seed`, `new` |
| `Primes` | `primes.dfy` | the sieve |

How the source's behaviour is represented:

- **Panics become error values.** An `assert!` in `_gen_key` that fails is an `Err` of `GenKey`. `to_u32().unwrap()` on a decrypted block of 32 bits or more is `None` from `DecryptBytes` and `DecryptStr`. The division by zero that `_modular_multiplicative_inverse` hits at `a / m` is `None` from `ModularInverse`. It happens exactly when a is non-zero and not coprime to m. Its final `to_biguint().unwrap()` is proved never to meet a negative value.
- **Loops stay loops.** The array loops (`_encrypt_bytes`, `_decrypt_bytes`, `_pack_string`, the sieve) are methods over arrays. The `while` loops of `_unpack_string` and the inverse also stay loops.
- **Specification functions.** Each loop is proved against a function: `Packed`, `Unpacked`, `ModPow`, `Orbit` or `SieveResult`. The properties are lemmas about those functions.

Behaviour of the code that the model keeps, although a reader might expect otherwise:

- **No block-overflow guard.** Nothing in `_encrypt_bytes` rejects a packed block at or above the modulus. `EncryptBytes` reduces such a block modulo n, exactly as the code does.
- **A trailing NUL.** `decrypt_str` is documented as returning the cipher decrypted and unpacked as a string (rsa.rs:189). For a text whose length is not a multiple of four it returns the text followed by one NUL (see Findings).
- **Padding side.** The zero byte of a final partial group sits at the low end of its block (rsa.rs:152), not at the high end.
- **Vector size.** `_pack_string` sizes its vector by `msg.len()`, which counts UTF-8 bytes, but fills it one character at a time (rsa.rs:140-145). Text with characters of two or more bytes gets NumBlocks(bytes) - NumBlocks(characters) extra zero blocks at the end. That can be none: "éé" is 4 bytes and gets one block, the same as its character count gives. "éééé" gets one extra block. `Codec.Utf8Len` models the byte count.
- **Clock units.** The doc comment of `rand::new` says the seed is the Unix time in seconds (rand.rs:64). The code uses milliseconds.

## Model

| member | source | states |
|---|---|---|
| RsaMath.Gcd | rsa_vis/src/rsa.rs:11-17 | the result divides both arguments (unless both are 0) |
| RsaMath.GcdGreatest | rsa_vis/src/rsa.rs:11-17 | every common divisor divides the result and is at most the result, so it is the greatest common divisor |
| RsaMath.Bezout | rsa_vis/src/rsa.rs:11-17 | the Euclidean recursion's gcd is an integer combination u a + v b of the arguments |
| RsaMath.InverseImpliesCoprime | rsa_vis/src/rsa.rs:76-81 | a number with an inverse modulo m > 1 is coprime to m, so the gcd check before the inverse is necessary |
| RsaMath.ModularInverse | rsa_vis/src/rsa.rs:20-51 | m = 1 gives 0; a coprime pair with m > 1 gives r < m with a r = 1 (mod m); it aborts (`None`) exactly when a != 0 and gcd(a, m) != 1; a <= 1 with m != 1 skips the loop and gives 1 |
| RsaMath.InverseStep | rsa_vis/src/rsa.rs:33-44 | one loop iteration preserves the invariant: remainders of the Euclidean pair, both Bezout congruences modulo m0, and the coefficient bound |
| RsaMath.RemaindersStep | rsa_vis/src/rsa.rs:34-39 | the swap m, a := a % m, m keeps the gcd of the pair equal to gcd(a0, m0) |
| RsaMath.CoefficientsStep | rsa_vis/src/rsa.rs:40-43 | the coefficient update y := x - q y keeps the alternating signs and \|y\| a + \|x\| m = m0 |
| RsaMath.StepKeepsBezout | rsa_vis/src/rsa.rs:34-43 | the new coefficient satisfies the Bezout congruence for the new remainder |
| RsaMath.StepKeepsBound | rsa_vis/src/rsa.rs:34-43 | the new coefficient pair keeps opposite signs and the weighted-sum bound |
| RsaMath.ExitCoprime | rsa_vis/src/rsa.rs:33-34 | a loop that stops without dividing by zero on a non-zero input has found gcd 1, so every non-coprime pair with a != 0 reaches `a / 0` |
| RsaMath.InverseFromCongruence | rsa_vis/src/rsa.rs:45-50 | a coefficient x with x a = 1 (mod m) and \|x\| < m, shifted into [0, m), is the inverse |
| RsaMath.InverseExit | rsa_vis/src/rsa.rs:45-50 | on exit, a non-zero input is coprime to m0; the shifted coefficient is never negative, so `to_biguint().unwrap()` cannot fail; with gcd 1 and m0 > 1 it lies in [0, m0) and is the inverse |
| RsaKeys.Lambda | rsa_vis/src/rsa.rs:68-72 | lambda is positive for p, q >= 2 |
| RsaKeys.LambdaFactors | rsa_vis/src/rsa.rs:70-72 | lambda = (p - 1)((q - 1)/g) = (q - 1)((p - 1)/g), where g = gcd(p - 1, q - 1) divides both |
| RsaKeys.LambdaIsLcm | rsa_vis/src/rsa.rs:68-72 | lambda is a common multiple of p - 1 and q - 1 and divides every common multiple: it is their lcm |
| RsaKeys.QuotientsCombineToOne | rsa_vis/src/rsa.rs:68-72 | (p - 1)/g and (q - 1)/g are coprime: some integer combination of them is 1 |
| RsaKeys.GenKey | rsa_vis/src/rsa.rs:53-85 | succeeds exactly when 65537 < lambda and gcd(65537, lambda) = 1; out of range gives ExponentOutOfRange, in range but not coprime gives ExponentNotCoprime; on success the key is (p q, 65537), with d < lambda and 65537 d = 1 (mod lambda) |
| RsaKeys.EncryptBytes | rsa_vis/src/rsa.rs:98-111 | same length; block i becomes blocks[i]^e mod n, which is below n |
| RsaKeys.DecryptBytes | rsa_vis/src/rsa.rs:120-132 | succeeds exactly when every block's c^d mod n fits in 32 bits; then block i is cipher[i]^d mod n |
| Codec.Utf8Len | rsa_vis/src/rsa.rs:140-142 | the byte count `msg.len()` that sizes the vector: at least the number of characters, and equal to it exactly for ASCII text |
| Codec.PackString | rsa_vis/src/rsa.rs:139-157 | for every text, the vector has ceil(bytes / 4) blocks and is the result of the character-by-character xor-and-shift loop; for ASCII text it is Packed: full groups big-endian, a partial final group big-endian times 256 |
| Codec.ByteLengthSizesVector | rsa_vis/src/rsa.rs:140-145 | "éééé" is 8 bytes long, so its vector has 2 blocks for 4 characters, and the second block stays 0; "éé" (4 bytes) gets the single block its characters need |
| Codec.PackRunIsState | rsa_vis/src/rsa.rs:145-154 | after i characters every block of the loop's vector has its closed form: finished group, group in progress shifted one byte, or zero |
| Codec.BlockStateStep | rsa_vis/src/rsa.rs:146-153 | one character changes only block i / 4: it is xor-ed in, then shifted unless the group is now full; the value stays within a u32 |
| Codec.PackRunFinal | rsa_vis/src/rsa.rs:139-157 | after the last character the vector is Packed(msg) |
| Codec.PackStep | rsa_vis/src/rsa.rs:146-152 | xor-ing a code into a shifted partial group appends the code as the low byte of its big-endian value; a short group still has a free top byte |
| Codec.PackedLength | rsa_vis/src/rsa.rs:140-142 | the vector has ceil(len / 4) blocks |
| Codec.PackedFullBlock | rsa_vis/src/rsa.rs:145-154 | a full group of four characters is c0 2^24 + c1 2^16 + c2 2^8 + c3 |
| Codec.PackedFinalBlock | rsa_vis/src/rsa.rs:148-153 | a final partial group is the big-endian value of its characters followed by a zero byte, so its low byte is 0 |
| Codec.PackedFits | rsa_vis/src/rsa.rs:142 | every packed block of ASCII text fits in a u32 |
| Codec.PackedIsCorrectedOfPadded | rsa_vis/src/rsa.rs:145-154 | the packing of s is the shift-first packing of s followed by one NUL when \|s\| is not a multiple of 4 |
| Codec.UnpackString | rsa_vis/src/rsa.rs:163-177 | the result is Unpacked(blocks): the non-zero bytes of each block, most significant first, block after block |
| Codec.ByteCharsBigEndian | rsa_vis/src/rsa.rs:165-173 | unpacking a block recovers a group whose first character is not NUL |
| Codec.UnpackPack | rsa_vis/src/rsa.rs:139-177 | unpack after pack gives the text followed by one NUL when its length is not a multiple of 4, and is the identity exactly when the length is a multiple of 4 |
| Codec.HiGainsNul | rsa_vis/src/rsa.rs:139-177 | "Hi" packs to the single block 0x486900 and unpacks to "Hi" followed by NUL |
| Codec.PackStringCorrected | rsa_vis/src/rsa.rs:145-154 | with the shift before the xor, the vector of ASCII text is the big-endian value of every group |
| Codec.BlockStateCorrectedStep | rsa_vis/src/rsa.rs:146-153 | with the shift first, one character turns block i / 4 into the big-endian value of the longer group and leaves the others unchanged |
| Codec.PackRunCorrectedIsState | rsa_vis/src/rsa.rs:145-154 | the shift-first loop's vector has the closed form block by block |
| Codec.PackRunCorrectedFinal | rsa_vis/src/rsa.rs:139-157 | the shift-first loop ends at PackedCorrected(msg) |
| Codec.UnpackPackCorrected | rsa_vis/src/rsa.rs:139-177 | with the shift first, unpack after pack is the identity on ASCII text with no NUL at a group start |
| RsaText.EncryptedBlocks | rsa_vis/src/rsa.rs:98-111 | one cipher block per plain block, each below the modulus |
| RsaText.Encrypted | rsa_vis/src/rsa.rs:184-187 | the cipher text has ceil(len / 4) blocks |
| RsaText.EncryptStr | rsa_vis/src/rsa.rs:184-187 | the cipher is the encryption of the pack loop's vector, and for ASCII text it is Encrypted(msg) |
| RsaText.DecryptStr | rsa_vis/src/rsa.rs:195-198 | the result is Decrypted: the unpacked decrypted blocks, or None when a block does not fit in 32 bits |
| RsaText.TextRoundTrip | rsa_vis/src/rsa.rs:184-198 | if the key pair inverts every 32-bit block, decrypting the cipher text gives the text padded with a NUL, and the text itself exactly when its length is a multiple of 4 |
| RsaCorrectness.FermatLittle | rsa_vis/src/rsa.rs:98-132 | x^p = x (mod p) for a prime p: the number theory the cipher relies on |
| RsaCorrectness.ChineseRemainder | rsa_vis/src/rsa.rs:84 | numbers congruent modulo two distinct primes are congruent modulo their product, the modulus n |
| RsaCorrectness.RsaRoundTrip | rsa_vis/src/rsa.rs:65-84 | for distinct primes p, q, e d = 1 (mod lambda) and b < p q, (b^e mod n)^d mod n = b |
| RsaCorrectness.KeyPairInverts | rsa_vis/src/rsa.rs:53-85 | a key pair with modulus p q and e d = 1 (mod lambda) decrypts every block below n to itself |
| RsaCorrectness.StrRoundTrip | rsa_vis/src/rsa.rs:184-198 | with such keys and n >= 2^32, decrypt_str of encrypt_str returns the NUL-padded text |
| RsaCorrectness.TestThingMessage | rsa_vis/src/rsa.rs:200-205 | the demonstration message comes back with one NUL appended |
| Rand.Step | rsa_vis/src/rand.rs:47 | the new state is below the modulus |
| Rand.WrappingStep | rsa_vis/src/rand.rs:47 | the step computed with wrapping u64 arithmetic stays below the modulus |
| Rand.Orbit | rsa_vis/src/rand.rs:46-49 | k successive states, each below the modulus |
| Rand.Rng.constructor | rsa_vis/src/rand.rs:33-43 | stores multiplier, increment and modulus, and takes one warm-up step from the seed |
| Rand.Rng.Wrapping | rsa_vis/src/rand.rs:33-43 | the same with the warm-up step in wrapping u64 arithmetic |
| Rand.Rng.Next | rsa_vis/src/rand.rs:46-49 | only x changes, to (a x + c) mod m, which stays below m |
| Rand.NewSeed | rsa_vis/src/rand.rs:60-62 | a fresh generator with the GCC constants, whose state is one step past the seed |
| Rand.New | rsa_vis/src/rand.rs:65-71 | from any millisecond clock reading, a GCC generator whose state is one exact step past it |
| Rand.Steps | rsa_vis/src/rand.rs:46-49 | k calls to next give exactly the orbit of the starting state and keep the GCC constants; the generator is left at the last state of the orbit, or unchanged for k = 0 |
| Rand.SameSeedSameStates | rsa_vis/src/rand.rs:59-62 | two generators from the same seed produce the same states |
| Rand.GccStepFits | rsa_vis/src/rand.rs:5-9 | once the state is below 2^31, a GCC step never overflows u64 |
| Rand.SeedOverflowThreshold | rsa_vis/src/rand.rs:60-62 | the warm-up step of new_seed overflows u64 exactly for seeds from 16716347289 on |
| Rand.MillisecondSeedOverflows | rsa_vis/src/rand.rs:65-70 | a clock reading of 1700000000000 ms overflows the warm-up step |
| Rand.WrappingStepExact | rsa_vis/src/rand.rs:5 | since 2^31 divides 2^64, the wrapping step equals the exact step |
| Primes.ISqrt | rsa_vis/src/primes.rs:9 | r^2 <= n < (r + 1)^2: the truncated square root |
| Primes.ClearMultiples | rsa_vis/src/primes.rs:10-16 | after crossing off i*i, i*i + i, ..., an entry is unmarked exactly when no d < i + 1 crosses it |
| Primes.Collect | rsa_vis/src/primes.rs:20-25 | the result is the unmarked numbers from 2 up, strictly increasing |
| Primes.SieveWithBound | rsa_vis/src/primes.rs:6-27 | the result is exactly the numbers in [2, n] that no d < bound, d^2 <= k crosses, in increasing order |
| Primes.Sieve | rsa_vis/src/primes.rs:6-27 | the sieve with the code's loop bound: no d with 2 <= d < isqrt(n) crosses a member |
| Primes.SieveCorrected | rsa_vis/src/primes.rs:9 | with the bound isqrt(n) + 1, the result is exactly the primes in [2, n] |
| Primes.CrossedNext | rsa_vis/src/primes.rs:9-17 | a number is crossed after pass i exactly when it was crossed before or i crosses it |
| Primes.MultipleStep | rsa_vis/src/primes.rs:11-15 | stepping j by i visits exactly the multiples of i from i*i on |
| Primes.ResultExtend | rsa_vis/src/primes.rs:21-25 | one iteration of the collect loop keeps the result ordered and exact |
| Primes.SieveComplete | rsa_vis/src/primes.rs:1-27 | every prime up to n is in the result, whatever the bound |
| Primes.CompositeCrossed | rsa_vis/src/primes.rs:9-17 | every composite k <= n is crossed by some d <= isqrt(n) (a divisor with d^2 <= k), so the bound isqrt(n) + 1 sieves it |
| Primes.CorrectedSieveIsPrimes | rsa_vis/src/primes.rs:1-27 | the bound isqrt(n) + 1 leaves exactly the primes |
| Primes.SieveSoundUpToRoot | rsa_vis/src/primes.rs:9 | a composite member of the code's result is a multiple of r = isqrt(n), with r^2 <= k, and has no divisor in [2, r) |
| Primes.SieveExcludesSmallFactors | rsa_vis/src/primes.rs:9-17 | no proper multiple of a d in [2, isqrt(n)) is in the code's result |
| Primes.ResultAtLeast | rsa_vis/src/primes.rs:20-25 | element i of the result is at least i + 2 |
| Primes.SieveLength | rsa_vis/src/primes.rs:20-26 | empty for n < 2, otherwise at most n - 1 elements |
| Primes.ISqrtIs | rsa_vis/src/primes.rs:9 | the truncated square root is unique |
| Primes.SieveOfFour | rsa_vis/src/primes.rs:9 | the code's sieve of 4 returns [2, 3, 4], and 4 is not prime |
| Primes.SieveOfTenKeepsNine | rsa_vis/src/primes.rs:9 | the code's sieve of 10 keeps 9, which is not prime |

## Left out

- `io.rs`, `cli.rs`, `main.rs`, `vis.rs` and `test.rs` are not part of this model. They are I/O, the command loop, visualisation and tests.
- Printing (`print!` of the blocks in `_encrypt_bytes`/`_decrypt_bytes`, `println!` in `test_thing`) is output only and is left out.
- `gen_key`/`_gen_key`'s calls to `primes::gen_large_prime` and the retry loop for equal primes are left out: prime search and the Miller–Rabin tester are outside this core. `RsaKeys.GenKey` takes the two primes as parameters.
- `RsaKeys.GenKey` models a release build. `_gen_key` first calls `rand::new()` (rsa.rs:55) and never uses the generator. In a debug build that call panics: the warm-up step overflows for every millisecond clock reading of today (see Findings). So every `_gen_key`, and `test_thing`, aborts before any key arithmetic. In a release build the step wraps and the generator is discarded, which is why `GenKey` leaves it out.
- `primes.rs` defines only `sieve_of_eratosthenes`. `gen_large_prime` and `sieve_of_atkin` are called at rsa.rs:59-62 and main.rs:32, 53 but are not defined in that file. They are not part of this model.
- `RsaKeys.ModPow`: `BigUint::modpow` is a specification function b^e mod n. The library's square-and-multiply algorithm is not modelled, and its panic on a zero modulus is a `requires n > 0` on the callers.
- `Rand.Rng.Next`: the `f64` value returned by `next` and all of `next_int` (floating-point division, multiplication and truncation) are left out; only the integer state update is modelled.
- `Rand.Rng.Next` requires that a x + c fits in a `u64`. That is the behaviour of a debug build, which panics on overflow. `Rand.Rng.Wrapping` and `Rand.New` give the release-build (wrapping) behaviour.
- `Rand.New`: the system clock becomes its parameter `nowMillis`, and `SystemTime`'s error path (`expect`) is left out.
- `Primes.SieveWithBound`, `Primes.Sieve`, `Primes.SieveCorrected` require n < 2^32. Within that range `(n as f64).sqrt() as usize` is exactly the truncated square root, and `i as u32` does not truncate. Larger n, where the float square root can round, is not modelled.
- `Codec.PackString`'s closed form, `Codec.UnpackPack` and the text round trips are stated for ASCII text (code points below 128). The loop itself is modelled for every string, with the vector sized by its UTF-8 byte count. For non-ASCII text, the result is not described beyond that loop. Code points of 256 and more overlap neighbouring bytes in the xor, and no round trip holds.
- The byte-by-byte `String` building in `_unpack_string` (`char::from(u8)`) is modelled as a sequence of characters with code below 256.

## Findings

| source | as written | input that shows it | evidently intended | confidence | as-written member | corrected member |
|---|---|---|---|---|---|---|
| rsa_vis/src/rsa.rs:152 | the block is shifted after every character that does not fill the group, so a partial final group keeps a trailing zero byte | "Hi" packs to 0x486900 and unpacks to "Hi\0" | unpacking a packed text gives the text back | not executed | Codec.UnpackPack | Codec.UnpackPackCorrected |
| rsa_vis/src/primes.rs:9 | `2..sqrt(n)` excludes isqrt(n) itself, so squares of primes near the root survive | n = 4 returns [2, 3, 4]; n = 10 keeps 9 | the primes in [2, n] | not executed | Primes.SieveOfFour | Primes.SieveCorrected |
| rsa_vis/src/rand.rs:66-70 | the seed is the clock in milliseconds; the warm-up step 1103515245 x + 12345 overflows `u64` (a panic in a debug build) for every seed from 16716347289 on; `_gen_key` calls `rand::new()` at rsa.rs:55, so it aborts the same way | 1700000000000 | a warm-up step that works for any clock reading; wrapping arithmetic gives the exact result modulo 2^31 | not executed | Rand.MillisecondSeedOverflows | Rand.New |
