/** Natural-number facts shared by the RSA arithmetic, the cipher and the sieve:
    powers, divisibility, primality, and the modular identities the proofs use. */
module Arith {

  /** b^e over the naturals. */
  function Pow(b: nat, e: nat): nat
    decreases e
  {
    if e == 0 then 1 else b * Pow(b, e - 1)
  }

  /** d divides n (d is never zero). */
  predicate Divides(d: nat, n: nat)
  {
    d != 0 && n % d == 0
  }

  /** n is at least 2 and has no divisor strictly between 1 and n. */
  ghost predicate IsPrime(n: nat)
  {
    2 <= n && forall d: nat :: 1 < d < n ==> !Divides(d, n)
  }

  // ---------------------------------------------------------------- division

  /** The quotient and remainder of a division are determined by the equation they satisfy. */
  lemma DivModUnique(a: int, d: int, q: int, r: int)
    requires d > 0 && 0 <= r < d && a == q * d + r
    ensures a / d == q && a % d == r
  {
    var q', r' := a / d, a % d;
    assert a == q' * d + r';
    assert (q - q') * d == r' - r;
    if q > q' {
      MulAtLeast(q - q', d);
    } else if q < q' {
      MulAtLeast(q' - q, d);
    }
  }

  lemma MulAtLeast(k: int, d: int)
    requires k >= 1 && d >= 0
    ensures k * d >= d
  {
    assert k * d == (k - 1) * d + d;
  }

  lemma MulMonotone(k1: int, k2: int, d: int)
    requires k1 <= k2 && d >= 0
    ensures k1 * d <= k2 * d
  {
    assert k2 * d == k1 * d + (k2 - k1) * d;
    if k2 > k1 {
      MulAtLeast(k2 - k1, d);
    }
  }

  lemma MulModZero(k: int, d: int)
    requires d > 0
    ensures (k * d) % d == 0 && (k * d) / d == k
  {
    DivModUnique(k * d, d, k, 0);
  }

  /** A remainder taken twice, or after adding a multiple of the divisor, is unchanged. */
  lemma ModAddMultiple(a: int, k: int, d: int)
    requires d > 0
    ensures (a + k * d) % d == a % d
  {
    assert a == (a / d) * d + a % d;
    assert a + k * d == (a / d + k) * d + a % d;
    DivModUnique(a + k * d, d, a / d + k, a % d);
  }

  lemma ModMulLeft(a: int, b: int, d: int)
    requires d > 0
    ensures (a * b) % d == ((a % d) * b) % d
  {
    assert a == (a / d) * d + a % d;
    assert a * b == (a % d) * b + ((a / d) * b) * d;
    ModAddMultiple((a % d) * b, (a / d) * b, d);
  }

  /** Multiplication commutes with taking remainders. */
  lemma ModMul(a: int, b: int, d: int)
    requires d > 0
    ensures (a * b) % d == ((a % d) * (b % d)) % d
  {
    ModMulLeft(a, b, d);
    ModMulLeft(b, a % d, d);
  }

  // ---------------------------------------------------------------- divisibility

  lemma MulAssoc(x: int, y: int, z: int)
    ensures x * (y * z) == (x * y) * z
  {
  }

  lemma MulDistrib(a: int, b: int, c: int)
    ensures (a + b) * c == a * c + b * c && c * (a + b) == c * a + c * b
  {
  }

  /** u * (l * x) + v * (l * y) == (u * x + v * y) * l. */
  lemma MulFactor(l: int, u: int, x: int, v: int, y: int)
    ensures u * (l * x) + v * (l * y) == (u * x + v * y) * l
  {
  }

  lemma DividesProduct(d: nat, k: nat)
    requires d != 0
    ensures Divides(d, d * k) && Divides(d, k * d)
  {
    MulModZero(k, d);
  }

  /** Read a divisibility fact as a product. */
  lemma DividesQuotient(d: nat, n: nat)
    requires Divides(d, n)
    ensures n == d * (n / d) && n / d <= n
  {
    assert n == (n / d) * d + n % d;
    if n / d > n {
      MulAtLeast(d, n / d);
    }
  }

  lemma DividesMultiple(d: nat, n: nat, k: nat)
    requires Divides(d, n)
    ensures Divides(d, n * k)
  {
    DividesQuotient(d, n);
    assert n * k == (n / d * k) * d;
    DividesProduct(d, n / d * k);
  }

  lemma DividesTrans(a: nat, b: nat, c: nat)
    requires Divides(a, b) && Divides(b, c)
    ensures Divides(a, c)
  {
    DividesQuotient(b, c);
    DividesMultiple(a, b, c / b);
  }

  lemma DividesSum(d: nat, a: nat, b: nat)
    requires Divides(d, a) && Divides(d, b)
    ensures Divides(d, a + b)
  {
    DividesQuotient(d, a);
    DividesQuotient(d, b);
    assert a + b == (a / d + b / d) * d;
    DividesProduct(d, a / d + b / d);
  }

  lemma DividesDiff(d: nat, a: nat, b: nat)
    requires Divides(d, a) && Divides(d, b) && b <= a
    ensures Divides(d, a - b)
  {
    DividesQuotient(d, a);
    DividesQuotient(d, b);
    assert a - b == (a / d - b / d) * d;
    if a / d < b / d {
      MulAtLeast(b / d - a / d, d);
      assert false;
    }
    DividesProduct(d, a / d - b / d);
  }

  /** A divisor of a positive number is no larger than it. */
  lemma DividesBound(d: nat, n: nat)
    requires Divides(d, n) && n > 0
    ensures d <= n
  {
    DividesQuotient(d, n);
    MulAtLeast(n / d, d);
  }

  /** A common divisor of b and of a % b divides a, and conversely. */
  lemma DividesRemainder(d: nat, a: nat, b: nat)
    requires b != 0 && Divides(d, b)
    ensures Divides(d, a) <==> Divides(d, a % b)
  {
    assert a == (a / b) * b + a % b;
    DividesMultiple(d, b, a / b);
    assert Divides(d, (a / b) * b);
    if Divides(d, a % b) {
      DividesSum(d, (a / b) * b, a % b);
    }
    if Divides(d, a) {
      DividesDiff(d, a, (a / b) * b);
    }
  }

  // ---------------------------------------------------------------- powers

  lemma {:induction false} PowAdd(b: nat, e1: nat, e2: nat)
    ensures Pow(b, e1 + e2) == Pow(b, e1) * Pow(b, e2)
    decreases e1
  {
    if e1 > 0 {
      PowAdd(b, e1 - 1, e2);
      assert Pow(b, e1 + e2) == b * Pow(b, e1 - 1 + e2);
    }
  }

  lemma {:induction false} PowMul(b: nat, e1: nat, e2: nat)
    ensures Pow(Pow(b, e1), e2) == Pow(b, e1 * e2)
    decreases e2
  {
    if e2 > 0 {
      PowMul(b, e1, e2 - 1);
      assert e1 * e2 == e1 * (e2 - 1) + e1;
      PowAdd(b, e1 * (e2 - 1), e1);
    }
  }

  lemma {:induction false} PowPositive(b: nat, e: nat)
    requires b > 0
    ensures Pow(b, e) > 0
    decreases e
  {
    if e > 0 {
      PowPositive(b, e - 1);
    }
  }

  lemma {:induction false} PowModBase(b: nat, e: nat, n: nat)
    requires n > 0
    ensures Pow(b % n, e) % n == Pow(b, e) % n
    decreases e
  {
    if e > 0 {
      var x, y := Pow(b % n, e - 1), Pow(b, e - 1);
      PowModBase(b, e - 1, n);
      assert x % n == y % n;
      ModMulLeft(b, y, n);
      ModMulLeft(x, b % n, n);
      ModMulLeft(y, b % n, n);
      calc {
        Pow(b % n, e) % n;
        ((b % n) * x) % n;
        { assert (b % n) * x == x * (b % n); }
        (x * (b % n)) % n;
        ((x % n) * (b % n)) % n;
        ((y % n) * (b % n)) % n;
        (y * (b % n)) % n;
        { assert y * (b % n) == (b % n) * y; }
        ((b % n) * y) % n;
        (b * y) % n;
        Pow(b, e) % n;
      }
    }
  }
}
