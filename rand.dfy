/** The linear congruential generator of rand.rs: a state x in [0, m) stepped to
    (a * x + c) mod m, with the constants of the GCC `rand`. Only the integer state is
    modelled; the floating-point value a step returns is not. */
module Rand {
  import opened Arith

  const U64Modulus: nat := 0x1_0000_0000_0000_0000

  /** A Rust `u64`. */
  type U64 = x: nat | x < 0x1_0000_0000_0000_0000

  /** `GCC_MOD`, 2^31. */
  const GccMod: U64 := 2147483648
  /** `GCC_MULT`. */
  const GccMult: U64 := 1103515245
  /** `GCC_INC`. */
  const GccInc: U64 := 12345

  /** One step of the generator over the integers. */
  function Step(a: nat, x: nat, c: nat, m: nat): (r: nat)
    requires m > 0
    ensures r < m
  {
    (a * x + c) % m
  }

  /** The step a `u64` computes without overflowing: in a debug build the multiplication or
      the addition aborts the program once a * x + c reaches 2^64. */
  predicate StepFits(a: nat, x: nat, c: nat)
  {
    a * x + c < U64Modulus
  }

  /** The step computed with wrapping `u64` multiplication and addition (what a release
      build does, and what `wrapping_mul`/`wrapping_add` do). */
  function WrappingStep(a: nat, x: nat, c: nat, m: nat): (r: nat)
    requires m > 0
    ensures r < m
  {
    ((a * x % U64Modulus + c) % U64Modulus) % m
  }

  /** The next k states of a generator whose state is x. */
  function Orbit(a: nat, x: nat, c: nat, m: nat, k: nat): (xs: seq<nat>)
    requires m > 0
    ensures |xs| == k && forall i :: 0 <= i < k ==> xs[i] < m
    decreases k
  {
    if k == 0 then [] else [Step(a, x, c, m)] + Orbit(a, Step(a, x, c, m), c, m, k - 1)
  }

  /** `Rng`: multiplier, current value, increment and modulus. */
  class Rng {
    var a: U64
    var x: U64
    var c: U64
    var m: U64

    /** The generator state is inside [0, m). */
    predicate Valid()
      reads this
    {
      0 < m && x < m
    }

    /** The generator carries the GCC constants. */
    predicate IsGcc()
      reads this
    {
      Valid() && a == GccMult && c == GccInc && m == GccMod
    }

    /** `Rng::new`: store the parameters, then take one warm-up step so that the seed itself
        is never the first value. The warm-up step is checked `u64` arithmetic. */
    constructor (modulus: U64, multiplier: U64, increment: U64, seed: U64)
      requires modulus > 0 && StepFits(multiplier, seed, increment)
      ensures a == multiplier && c == increment && m == modulus
      ensures x == Step(multiplier, seed, increment, modulus)
      ensures Valid()
    {
      a, x, c, m := multiplier, seed, increment, modulus;
      new;
      Next();
    }

    /** `Rng::new` with the warm-up step in wrapping `u64` arithmetic. */
    constructor Wrapping(modulus: U64, multiplier: U64, increment: U64, seed: U64)
      requires modulus > 0
      ensures a == multiplier && c == increment && m == modulus
      ensures x == WrappingStep(multiplier, seed, increment, modulus)
      ensures Valid()
    {
      a, c, m := multiplier, increment, modulus;
      x := WrappingStep(multiplier, seed, increment, modulus);
    }

    /** The state update of `next`: only x changes, to the next value of the sequence,
        which stays below m. */
    method Next()
      requires m > 0 && StepFits(a, x, c)
      modifies this`x
      ensures x == Step(a, old(x), c, m)
      ensures Valid()
      ensures a == old(a) && c == old(c) && m == old(m)
    {
      x := (a * x + c) % m;
    }
  }

  /** `new_seed`: a generator with the GCC constants, warmed up once from the seed. */
  method NewSeed(seed: U64) returns (r: Rng)
    requires StepFits(GccMult, seed, GccInc)
    ensures fresh(r) && r.IsGcc()
    ensures r.x == Step(GccMult, seed, GccInc, GccMod)
  {
    r := new Rng(GccMod, GccMult, GccInc, seed);
  }

  /** `new`, with the clock reading passed in (milliseconds since the Unix epoch, as `u64`)
      and the warm-up step wrapping instead of overflowing. Because 2^31 divides 2^64 the
      state is exactly the one the unbounded step gives. */
  method New(nowMillis: U64) returns (r: Rng)
    ensures fresh(r) && r.IsGcc()
    ensures r.x == Step(GccMult, nowMillis, GccInc, GccMod)
  {
    r := new Rng.Wrapping(GccMod, GccMult, GccInc, nowMillis);
    WrappingStepExact(GccMult, nowMillis, GccInc, GccMod);
  }

  /** Once the state of a GCC generator is below 2^31, a step cannot overflow. */
  lemma GccStepFits(x: nat)
    requires x < GccMod
    ensures StepFits(GccMult, x, GccInc)
  {
    MulMonotone(x, GccMod, GccMult);
    assert GccMult * GccMod + GccInc < U64Modulus;
  }

  /** The warm-up step of `new_seed` overflows exactly for the seeds from 16716347289 on;
      a millisecond clock has been past that value since July 1970. */
  lemma SeedOverflowThreshold(seed: nat)
    ensures StepFits(GccMult, seed, GccInc) <==> seed < 16716347289
  {
    if seed < 16716347289 {
      MulMonotone(seed, 16716347288, GccMult);
    } else {
      MulMonotone(16716347289, seed, GccMult);
    }
  }

  /** A clock reading of November 2023 (1700000000000 ms) makes the warm-up step of
      `new` overflow. */
  lemma MillisecondSeedOverflows()
    ensures !StepFits(GccMult, 1700000000000, GccInc)
  {
    SeedOverflowThreshold(1700000000000);
  }

  /** y mod N mod m is y mod m when m divides N. */
  lemma ModOfModMultiple(y: nat, n: nat, m: nat)
    requires m > 0 && n > 0 && n % m == 0
    ensures (y % n) % m == y % m
  {
    var k := n / m;
    assert n == k * m;
    assert y == (y / n) * n + y % n;
    assert y == y % n + ((y / n) * k) * m by {
      MulAssoc(y / n, k, m);
    }
    ModAddMultiple(y % n, (y / n) * k, m);
  }

  /** When the modulus divides 2^64, wrapping `u64` arithmetic gives the step exactly. */
  lemma WrappingStepExact(a: nat, x: nat, c: nat, m: nat)
    requires m > 0 && U64Modulus % m == 0
    ensures WrappingStep(a, x, c, m) == Step(a, x, c, m)
  {
    var p := a * x % U64Modulus;
    ModOfModMultiple(p + c, U64Modulus, m);
    ModOfModMultiple(a * x, U64Modulus, m);
    assert a * x == (a * x / U64Modulus) * U64Modulus + p;
    var k := (a * x / U64Modulus) * (U64Modulus / m);
    assert a * x + c == (p + c) + k * m by {
      MulAssoc(a * x / U64Modulus, U64Modulus / m, m);
    }
    ModAddMultiple(p + c, k, m);
  }

  /** The states of a GCC generator after each of k calls to `next`. */
  method Steps(r: Rng, k: nat) returns (xs: seq<nat>)
    requires r.IsGcc()
    modifies r`x
    ensures r.IsGcc()
    ensures xs == Orbit(GccMult, old(r.x), GccInc, GccMod, k)
    ensures r.x == if k == 0 then old(r.x) else xs[k - 1]
  {
    xs := [];
    ghost var x0 := r.x;
    for i := 0 to k
      invariant r.IsGcc()
      invariant xs + Orbit(GccMult, r.x, GccInc, GccMod, k - i) == Orbit(GccMult, x0, GccInc, GccMod, k)
      invariant |xs| == i
      invariant r.x == if i == 0 then x0 else xs[i - 1]
    {
      GccStepFits(r.x);
      ghost var before := r.x;
      r.Next();
      xs := xs + [r.x];
      assert Orbit(GccMult, before, GccInc, GccMod, k - i)
        == [r.x] + Orbit(GccMult, r.x, GccInc, GccMod, k - i - 1);
    }
  }

  /** Two generators built with the same seed go through the same states. */
  method SameSeedSameStates(seed: U64, k: nat) returns (xs1: seq<nat>, xs2: seq<nat>)
    requires StepFits(GccMult, seed, GccInc)
    ensures xs1 == xs2 == Orbit(GccMult, Step(GccMult, seed, GccInc, GccMod), GccInc, GccMod, k)
  {
    var r1 := NewSeed(seed);
    var r2 := NewSeed(seed);
    xs1 := Steps(r1, k);
    xs2 := Steps(r2, k);
  }
}
