/** `sieve_of_eratosthenes` of primes.rs: a boolean vector of n + 1 entries, multiples of
    every still-unmarked i cleared from i * i on, for i from 2 up to (but excluding)
    floor(sqrt n); the unmarked indices from 2 to n are returned in order. */
module Primes {
  import opened Arith
  import opened Bits

  /** floor(sqrt n). */
  function ISqrt(n: nat): (r: nat)
    ensures r * r <= n < (r + 1) * (r + 1)
  {
    if n == 0 then 0
    else
      var r := ISqrt(n - 1);
      if (r + 1) * (r + 1) <= n then r + 1 else r
  }

  /** d is one of the indices the sieve clears from d: at least 2, with d * d <= k. */
  predicate CrossedBy(d: nat, k: nat)
  {
    2 <= d && d * d <= k && k % d == 0
  }

  /** k is cleared by some d below b. */
  ghost predicate Crossed(k: nat, b: nat)
  {
    exists d: nat :: d < b && CrossedBy(d, k)
  }

  /** What the sieve returns when the outer loop runs over 2..b: the numbers from 2 to n
      not cleared by any d < b, in strictly increasing order. */
  ghost predicate SieveResult(n: nat, b: nat, res: seq<nat>)
  {
    ResultBelow(n + 1, b, res)
  }

  /** The part of the result below hi. */
  ghost predicate ResultBelow(hi: nat, b: nat, res: seq<nat>)
  {
    && (forall i :: 0 <= i < |res| ==> 2 <= res[i] < hi)
    && (forall i, j :: 0 <= i < j < |res| ==> res[i] < res[j])
    && (forall k: nat :: 2 <= k < hi ==> (k in res <==> !Crossed(k, b)))
  }

  /** The sieve with the outer loop bound as a parameter: the code as written runs it with
      floor(sqrt n). `n < 2^32` keeps `i as u32` exact (and the floating-point square root
      exact). */
  method SieveWithBound(n: nat, bound: nat) returns (res: seq<U32>)
    requires n < WordModulus && bound <= ISqrt(n) + 1
    ensures SieveResult(n, bound, res)
  {
    var vals := new bool[n + 1](_ => true);
    var i := 2;
    while i < bound
      invariant 2 <= i && (i <= bound || i == 2)
      invariant forall k: nat :: k <= n ==> vals[k] == !Crossed(k, i)
    {
      ISqrtAtMost(n);
      if vals[i] {
        ClearMultiples(vals, i);
      } else {
        forall k: nat | k <= n
          ensures vals[k] == !Crossed(k, i + 1)
        {
          CrossedNext(k, i);
          if CrossedBy(i, k) {
            CrossedByCrossed(i, k);
          }
        }
      }
      i := i + 1;
    }
    forall k: nat | k <= n
      ensures vals[k] == !Crossed(k, bound)
    {
      if i != bound {
        NoneCrossedBelowTwo(k, i);
        NoneCrossedBelowTwo(k, bound);
      }
    }
    res := Collect(vals, bound);
  }

  /** The inner loop: clear i * i, i * i + i, ... up to the end of the vector. Once the
      indices cleared by every d < i are clear, so are those cleared by every d <= i. */
  method ClearMultiples(vals: array<bool>, i: nat)
    requires 2 <= i < vals.Length
    requires forall k: nat :: k < vals.Length ==> vals[k] == !Crossed(k, i)
    modifies vals
    ensures forall k: nat :: k < vals.Length ==> vals[k] == !Crossed(k, i + 1)
  {
    var j := i * i;
    ghost var t := i;
    while j < vals.Length
      invariant j == i * t && i <= t
      invariant forall k: nat :: k < vals.Length ==> vals[k] == !(Crossed(k, i) || (k < j && CrossedBy(i, k)))
    {
      MultipleStep(i, t);
      vals[j] := false;
      j := j + i;
      t := t + 1;
    }
    forall k: nat | k < vals.Length
      ensures vals[k] == !Crossed(k, i + 1)
    {
      CrossedNext(k, i);
    }
  }

  /** The result loop: push every index from 2 on whose entry is still set. */
  method Collect(vals: array<bool>, bound: nat) returns (res: seq<U32>)
    requires 0 < vals.Length <= WordModulus
    requires forall k: nat :: k < vals.Length ==> vals[k] == !Crossed(k, bound)
    ensures ResultBelow(vals.Length, bound, res)
  {
    res := [];
    var k := 2;
    while k < vals.Length
      invariant 2 <= k && (k <= vals.Length || (k == 2 && res == []))
      invariant forall i :: 0 <= i < |res| ==> res[i] < WordModulus
      invariant ResultBelow(k, bound, res)
    {
      ghost var before := res;
      if vals[k] {
        res := res + [k];
      }
      ResultExtend(k, bound, before, res);
      k := k + 1;
    }
  }

  /** `sieve_of_eratosthenes`, as written: the outer loop stops before floor(sqrt n). */
  method Sieve(n: nat) returns (res: seq<U32>)
    requires n < WordModulus
    ensures SieveResult(n, ISqrt(n), res)
  {
    res := SieveWithBound(n, ISqrt(n));
  }

  /** The sieve with the outer loop bound the comment promises: up to and including
      floor(sqrt n). Its result is exactly the primes in [2, n]. */
  method SieveCorrected(n: nat) returns (res: seq<U32>)
    requires n < WordModulus
    ensures SieveResult(n, ISqrt(n) + 1, res)
    ensures forall k: nat :: k in res <==> 2 <= k <= n && IsPrime(k)
  {
    res := SieveWithBound(n, ISqrt(n) + 1);
    CorrectedSieveIsPrimes(n, res);
  }

  // ---------------------------------------------------------------- loop steps

  lemma ISqrtAtMost(n: nat)
    ensures ISqrt(n) <= n
  {
    var r := ISqrt(n);
    if r > n {
      MulAtLeast(r, r);
    }
  }

  /** i * t is cleared from i, and no index strictly between i * t and i * (t + 1) is. */
  lemma MultipleStep(i: nat, t: nat)
    requires 2 <= i <= t
    ensures CrossedBy(i, i * t)
    ensures forall k: nat :: i * t < k < i * t + i ==> !CrossedBy(i, k)
  {
    MulMonotone(i, t, i);
    MulModZero(t, i);
    forall k: nat | i * t < k < i * t + i && k % i == 0
      ensures false
    {
      var s := k / i;
      MulModZero(s, i);
      assert k == s * i;
      if s <= t {
        MulMonotone(s, t, i);
      } else {
        MulMonotone(t + 1, s, i);
      }
    }
  }

  /** Allowing the divisor i as well extends the bound by one. */
  lemma CrossedNext(k: nat, i: nat)
    ensures Crossed(k, i + 1) <==> Crossed(k, i) || CrossedBy(i, k)
  {
    if Crossed(k, i + 1) {
      var d: nat :| d < i + 1 && CrossedBy(d, k);
      if d < i {
        assert Crossed(k, i);
      }
    }
    if CrossedBy(i, k) {
      assert Crossed(k, i + 1);
    }
    if Crossed(k, i) {
      var d: nat :| d < i && CrossedBy(d, k);
      assert Crossed(k, i + 1);
    }
  }

  /** If i is itself cleared, every index i clears has already been cleared. */
  lemma CrossedByCrossed(i: nat, k: nat)
    requires Crossed(i, i) && CrossedBy(i, k)
    ensures Crossed(k, i)
  {
    var d: nat :| d < i && CrossedBy(d, i);
    assert Divides(d, i) && Divides(i, k);
    DividesTrans(d, i, k);
    MulAtLeast(i, i);
    assert CrossedBy(d, k);
  }

  lemma NoneCrossedBelowTwo(k: nat, b: nat)
    requires b <= 2
    ensures !Crossed(k, b)
  {
  }

  /** Appending k to the result when it is not cleared keeps the result ordered and exact. */
  lemma ResultExtend(k: nat, b: nat, before: seq<nat>, after: seq<nat>)
    requires 2 <= k && ResultBelow(k, b, before)
    requires after == if !Crossed(k, b) then before + [k] else before
    ensures ResultBelow(k + 1, b, after)
  {
    if Crossed(k, b) {
      assert k !in before;
    }
  }

  // ---------------------------------------------------------------- properties

  /** A prime is never cleared, whatever the bound. */
  lemma PrimeNotCrossed(k: nat, b: nat)
    requires IsPrime(k)
    ensures !Crossed(k, b)
  {
    if Crossed(k, b) {
      var d: nat :| d < b && CrossedBy(d, k);
      MulAtLeast(d, d);
      assert d < d * d by {
        MulMonotone(2, d, d);
      }
      assert Divides(d, k);
    }
  }

  /** Completeness: every prime from 2 to n is in the result, for every loop bound. */
  lemma SieveComplete(n: nat, b: nat, res: seq<nat>, k: nat)
    requires SieveResult(n, b, res) && IsPrime(k) && k <= n
    ensures k in res
  {
    PrimeNotCrossed(k, b);
  }

  /** The cofactor of a proper divisor is a proper divisor too. */
  lemma Cofactor(d: nat, k: nat)
    requires 1 < d < k && Divides(d, k)
    ensures k / d >= 2 && k == d * (k / d) && k % (k / d) == 0
  {
    DividesQuotient(d, k);
    var e := k / d;
    assert e != 0 && e != 1;
    MulModZero(d, e);
  }

  /** A composite k has a divisor d >= 2 with d * d <= k. */
  lemma CompositeHasSmallDivisor(k: nat) returns (d: nat)
    requires 2 <= k && !IsPrime(k)
    ensures CrossedBy(d, k)
  {
    var d0: nat :| 1 < d0 < k && Divides(d0, k);
    Cofactor(d0, k);
    var e := k / d0;
    if d0 <= e {
      MulMonotone(d0, e, d0);
      d := d0;
    } else {
      MulMonotone(e, d0, e);
      d := e;
    }
  }

  /** A divisor d with d * d <= k <= n is at most floor(sqrt n). */
  lemma SmallDivisorBelowRoot(d: nat, k: nat, n: nat)
    requires d * d <= k <= n
    ensures d <= ISqrt(n)
  {
    var r := ISqrt(n);
    if d > r {
      MulMonotone(r + 1, d, d);
      MulMonotone(r + 1, d, r + 1);
    }
  }

  /** A composite from 2 to n is cleared once the outer loop includes floor(sqrt n). */
  lemma CompositeCrossed(k: nat, n: nat)
    requires 2 <= k <= n && !IsPrime(k)
    ensures Crossed(k, ISqrt(n) + 1)
  {
    var d := CompositeHasSmallDivisor(k);
    SmallDivisorBelowRoot(d, k, n);
  }

  /** With the loop including floor(sqrt n) the result is exactly the primes in [2, n]. */
  lemma CorrectedSieveIsPrimes(n: nat, res: seq<nat>)
    requires SieveResult(n, ISqrt(n) + 1, res)
    ensures forall k: nat :: k in res <==> 2 <= k <= n && IsPrime(k)
  {
    forall k: nat
      ensures k in res <==> 2 <= k <= n && IsPrime(k)
    {
      if 2 <= k <= n {
        if IsPrime(k) {
          PrimeNotCrossed(k, ISqrt(n) + 1);
        } else {
          CompositeCrossed(k, n);
        }
      }
    }
  }

  /** The soundness the code as written does have: a composite k that survives is a
      multiple of r = floor(sqrt n), at least r * r, and has no divisor from 2 to r - 1. */
  lemma SieveSoundUpToRoot(n: nat, res: seq<nat>, k: nat)
    requires SieveResult(n, ISqrt(n), res) && k in res && !IsPrime(k)
    ensures var r := ISqrt(n);
      && k % r == 0 && r * r <= k
      && forall d: nat :: 2 <= d < r ==> k % d != 0
  {
    var r := ISqrt(n);
    var d := CompositeHasSmallDivisor(k);
    SmallDivisorBelowRoot(d, k, n);
    if d < r {
      assert Crossed(k, r);
    }
    assert d == r;
    forall d': nat | 2 <= d' < r && k % d' == 0
      ensures false
    {
      MulMonotone(d', r, d');
      MulMonotone(d', r, r);
      assert CrossedBy(d', k);
    }
  }

  /** Every multiple k of some d from 2 to floor(sqrt n) - 1, other than d itself, is
      excluded by the code as written. */
  lemma SieveExcludesSmallFactors(n: nat, res: seq<nat>, k: nat, d: nat)
    requires SieveResult(n, ISqrt(n), res)
    requires 2 <= d < ISqrt(n) && d < k <= n && k % d == 0
    ensures k !in res
  {
    assert Divides(d, k);
    assert !IsPrime(k);
    if k in res {
      SieveSoundUpToRoot(n, res, k);
    }
  }

  /** Every element of the result is at least 2 + its position. */
  lemma {:induction false} ResultAtLeast(n: nat, b: nat, res: seq<nat>, i: nat)
    requires SieveResult(n, b, res) && i < |res|
    ensures res[i] >= 2 + i
    decreases i
  {
    if i > 0 {
      ResultAtLeast(n, b, res, i - 1);
    }
  }

  /** The result is empty for n < 2 and has at most n - 1 elements otherwise. */
  lemma SieveLength(n: nat, b: nat, res: seq<nat>)
    requires SieveResult(n, b, res)
    ensures n < 2 ==> res == []
    ensures n >= 2 ==> |res| <= n - 1
  {
    if |res| > 0 {
      ResultAtLeast(n, b, res, |res| - 1);
    }
  }

  lemma ISqrtIs(n: nat, r: nat)
    requires r * r <= n < (r + 1) * (r + 1)
    ensures ISqrt(n) == r
  {
    var s := ISqrt(n);
    if s < r {
      MulMonotone(s + 1, r, s + 1);
      MulMonotone(s + 1, r, r);
    } else if s > r {
      MulMonotone(r + 1, s, r + 1);
      MulMonotone(r + 1, s, s);
    }
  }

  /** The code as written returns [2, 3, 4] for n = 4: the outer loop is empty. */
  lemma SieveOfFour(res: seq<nat>)
    requires SieveResult(4, ISqrt(4), res)
    ensures res == [2, 3, 4] && !IsPrime(4)
  {
    ISqrtIs(4, 2);
    assert Divides(2, 4);
    assert 2 in res && 3 in res && 4 in res;
    SieveLength(4, 2, res);
    assert |res| == 3;
    ResultAtLeast(4, 2, res, 0);
    ResultAtLeast(4, 2, res, 1);
    ResultAtLeast(4, 2, res, 2);
  }

  /** The code as written keeps 9 for n = 10: only 2 is sieved. */
  lemma SieveOfTenKeepsNine(res: seq<nat>)
    requires SieveResult(10, ISqrt(10), res)
    ensures 9 in res && !IsPrime(9)
  {
    ISqrtIs(10, 3);
    assert Divides(3, 9);
    assert !CrossedBy(2, 9);
  }
}
