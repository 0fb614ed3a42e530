/** Why the key pair of `_gen_key` inverts the per-block cipher when p and q are distinct
    primes: Fermat's little theorem (through the binomial theorem), Euclid's lemma, and the
    Chinese remainder argument for the modulus p * q. */
module RsaCorrectness {
  import opened Arith
  import opened Bits
  import opened Wrappers
  import opened RsaMath
  import opened RsaKeys
  import opened Codec
  import opened RsaText

  // ---------------------------------------------------------------- binomial theorem

  /** The binomial coefficient, by Pascal's rule. */
  function Binomial(n: nat, k: nat): nat
  {
    if k == 0 then 1 else if n == 0 then 0 else Binomial(n - 1, k - 1) + Binomial(n - 1, k)
  }

  /** The sum of Binomial(n, k) * x^k for k < j. */
  function BinomialSum(n: nat, x: nat, j: nat): nat
  {
    if j == 0 then 0 else BinomialSum(n, x, j - 1) + Binomial(n, j - 1) * Pow(x, j - 1)
  }

  lemma {:induction false} BinomialAbove(n: nat, k: nat)
    requires k > n
    ensures Binomial(n, k) == 0
    decreases n
  {
    if n > 0 {
      BinomialAbove(n - 1, k - 1);
      BinomialAbove(n - 1, k);
    }
  }

  lemma {:induction false} BinomialDiagonal(n: nat)
    ensures Binomial(n, n) == 1
    decreases n
  {
    if n > 0 {
      BinomialDiagonal(n - 1);
      BinomialAbove(n - 1, n);
    }
  }

  /** Pascal's rule summed: the row n + 1 is x times the row n plus the row n. */
  lemma {:induction false} PascalSum(n: nat, x: nat, j: nat)
    ensures BinomialSum(n + 1, x, j + 1) == x * BinomialSum(n, x, j) + BinomialSum(n, x, j + 1)
    decreases j
  {
    if j > 0 {
      PascalSum(n, x, j - 1);
      var a := BinomialSum(n, x, j - 1);
      var s := BinomialSum(n, x, j);
      var b1, b2 := Binomial(n, j - 1), Binomial(n, j);
      var p := Pow(x, j - 1);
      var w := Pow(x, j);
      assert w == x * p;
      assert s == a + b1 * p;
      assert Binomial(n + 1, j) == b1 + b2;
      assert BinomialSum(n + 1, x, j) == x * a + s;
      assert BinomialSum(n + 1, x, j + 1) == x * a + s + (b1 + b2) * w;
      assert BinomialSum(n, x, j + 1) == s + b2 * w;
      PascalAlgebra(x, a, b1, b2, p, w);
    }
  }

  /** The ring identity behind one step of PascalSum. */
  lemma PascalAlgebra(x: int, a: int, b1: int, b2: int, p: int, w: int)
    requires w == x * p
    ensures x * a + (a + b1 * p) + (b1 + b2) * w == x * (a + b1 * p) + ((a + b1 * p) + b2 * w)
  {
    MulDistrib(b1, b2, w);
    assert b1 * w == x * (b1 * p) by {
      MulAssoc(b1, x, p);
      MulAssoc(x, b1, p);
    }
    MulDistrib(a, b1 * p, x);
  }

  /** (x + 1)^n is the sum of Binomial(n, k) * x^k for k <= n. */
  lemma {:induction false} BinomialTheorem(n: nat, x: nat)
    ensures Pow(x + 1, n) == BinomialSum(n, x, n + 1)
    decreases n
  {
    if n > 0 {
      BinomialTheorem(n - 1, x);
      PascalSum(n - 1, x, n);
      BinomialAbove(n - 1, n);
      var s := BinomialSum(n - 1, x, n);
      assert BinomialSum(n - 1, x, n + 1) == s;
      assert (x + 1) * s == x * s + s;
    }
  }

  /** k * Binomial(n, k) == n * Binomial(n - 1, k - 1). */
  lemma {:induction false} Absorption(n: nat, k: nat)
    requires n >= 1 && k >= 1
    ensures k * Binomial(n, k) == n * Binomial(n - 1, k - 1)
    decreases n
  {
    if n == 1 {
      if k > 1 {
        BinomialAbove(0, k - 1);
        BinomialAbove(0, k);
      }
    } else {
      Absorption(n - 1, k);
      var b := Binomial(n - 1, k - 1);
      if k == 1 {
        assert Binomial(n - 1, 1) == n - 1 by {
          assert 1 * Binomial(n - 1, 1) == (n - 1) * Binomial(n - 2, 0);
        }
      } else {
        Absorption(n - 1, k - 1);
        var c1, c2 := Binomial(n - 2, k - 2), Binomial(n - 2, k - 1);
        assert b == c1 + c2;
        assert k * Binomial(n - 1, k) == (n - 1) * c2;
        assert (k - 1) * b == (n - 1) * c1;
        assert Binomial(n, k) == b + Binomial(n - 1, k);
        AbsorptionAlgebra(n, k, b, c1, c2, Binomial(n - 1, k));
      }
    }
  }

  /** The ring identity behind the inductive step of Absorption. */
  lemma AbsorptionAlgebra(n: int, k: int, b: int, c1: int, c2: int, t: int)
    requires b == c1 + c2 && k * t == (n - 1) * c2 && (k - 1) * b == (n - 1) * c1
    ensures k * (b + t) == n * b
  {
    MulDistrib(b, t, k);
    MulDistrib(k - 1, 1, b);
    MulDistrib(c1, c2, n - 1);
    MulDistrib(n - 1, 1, b);
  }

  // ---------------------------------------------------------------- Euclid and Fermat

  /** Euclid's lemma: a prime that divides a product divides one of its factors. */
  lemma EuclidLemma(p: nat, a: nat, b: nat)
    requires IsPrime(p) && (a * b) % p == 0 && a % p != 0
    ensures b % p == 0
  {
    var r := a % p;
    var g := Gcd(p, r);
    assert Divides(g, p) && Divides(g, r);
    DividesBound(g, r);
    assert g == 1;
    var u, v := Bezout(p, r);
    ModMulLeft(a, b, p);
    var m := (r * b) / p;
    assert r * b == m * p;
    calc {
      b;
      b * (u * p + v * r);
      { MulFactor(b, u, p, v, r); }
      u * (b * p) + v * (b * r);
      { assert b * r == m * p; }
      u * (b * p) + v * (m * p);
      { MulFactor(p, u, b, v, m); }
      (u * b + v * m) * p;
    }
    DivModUnique(b, p, u * b + v * m, 0);
  }

  /** p divides Binomial(p, k) for a prime p and 0 < k < p. */
  lemma PrimeDividesBinomial(p: nat, k: nat)
    requires IsPrime(p) && 0 < k < p
    ensures Binomial(p, k) % p == 0
  {
    Absorption(p, k);
    MulModZero(Binomial(p - 1, k - 1), p);
    assert k * Binomial(p, k) == Binomial(p - 1, k - 1) * p;
    DivModUnique(k, p, 0, k);
    EuclidLemma(p, k, Binomial(p, k));
  }

  /** Below the last term, the expansion of (x + 1)^p is 1 modulo p. */
  lemma {:induction false} BinomialSumModPrime(p: nat, x: nat, j: nat)
    requires IsPrime(p) && 1 <= j <= p
    ensures BinomialSum(p, x, j) % p == 1
    decreases j
  {
    if j == 1 {
      DivModUnique(1, p, 0, 1);
    } else {
      BinomialSumModPrime(p, x, j - 1);
      PrimeDividesBinomial(p, j - 1);
      AddMultipleTerm(BinomialSum(p, x, j - 1), Binomial(p, j - 1), Pow(x, j - 1), p);
    }
  }

  /** Adding c * w with c a multiple of m leaves the remainder modulo m unchanged. */
  lemma AddMultipleTerm(s: nat, c: nat, w: nat, m: nat)
    requires m > 0 && c % m == 0
    ensures (s + c * w) % m == s % m
  {
    assert c == (c / m) * m;
    assert c * w == ((c / m) * w) * m by {
      MulAssoc(c / m, m, w);
      MulAssoc(c / m, w, m);
    }
    ModAddMultiple(s, (c / m) * w, m);
  }

  /** (x + 1)^p == x^p + 1 modulo a prime p. */
  lemma FreshmanMod(p: nat, x: nat)
    requires IsPrime(p)
    ensures Pow(x + 1, p) % p == (Pow(x, p) + 1) % p
  {
    BinomialTheorem(p, x);
    BinomialDiagonal(p);
    BinomialSumModPrime(p, x, p);
    var s := BinomialSum(p, x, p);
    assert Pow(x + 1, p) == s + Pow(x, p);
    assert s == (s / p) * p + 1;
    ModAddMultiple(Pow(x, p) + 1, s / p, p);
  }

  lemma ModSuccessor(a: nat, b: nat, m: nat)
    requires m > 0 && a % m == b % m
    ensures (a + 1) % m == (b + 1) % m
  {
    assert a == (a / m) * m + a % m;
    assert b == (b / m) * m + b % m;
    ModAddMultiple(a % m + 1, a / m, m);
    ModAddMultiple(b % m + 1, b / m, m);
  }

  /** Fermat's little theorem: x^p == x modulo a prime p. */
  lemma {:induction false} FermatLittle(p: nat, x: nat)
    requires IsPrime(p)
    ensures Pow(x, p) % p == x % p
    decreases x
  {
    if x == 0 {
      assert Pow(0, p) == 0 * Pow(0, p - 1);
    } else {
      FermatLittle(p, x - 1);
      FreshmanMod(p, x - 1);
      ModSuccessor(Pow(x - 1, p), x - 1, p);
    }
  }

  /** x^(1 + j (p - 1)) == x modulo a prime p. */
  lemma {:induction false} FermatPower(p: nat, x: nat, j: nat)
    requires IsPrime(p)
    ensures Pow(x, 1 + j * (p - 1)) % p == x % p
    decreases j
  {
    if j == 0 {
      assert Pow(x, 1) == x * Pow(x, 0);
    } else {
      var k := (j - 1) * (p - 1);
      FermatPower(p, x, j - 1);
      FermatLittle(p, x);
      MulDistrib(j - 1, 1, p - 1);
      assert 1 + j * (p - 1) == k + p;
      PowAdd(x, k, p);
      PowAdd(x, k, 1);
      assert Pow(x, 1) == x * Pow(x, 0);
      ModMulCongruent(Pow(x, k), Pow(x, p), x, p);
    }
  }

  /** Multiplying congruent numbers by the same factor keeps them congruent. */
  lemma ModMulCongruent(a: int, b: int, c: int, m: int)
    requires m > 0 && b % m == c % m
    ensures (a * b) % m == (a * c) % m
  {
    ModMul(a, b, m);
    ModMul(a, c, m);
  }

  // ---------------------------------------------------------------- the modulus p * q

  /** A number divisible by two distinct primes is divisible by their product. */
  lemma DistinctPrimesDivide(p: nat, q: nat, z: nat)
    requires IsPrime(p) && IsPrime(q) && p != q && z % p == 0 && z % q == 0
    ensures z % (p * q) == 0
  {
    var s := z / p;
    assert z == s * p;
    assert (p * s) % q == 0;
    if p % q == 0 {
      assert Divides(q, p);
      DividesBound(q, p);
      assert false;
    }
    EuclidLemma(q, p, s);
    var r := s / q;
    assert s == r * q;
    assert z == r * (p * q) by {
      MulAssoc(r, q, p);
      MulAssoc(r, p, q);
    }
    MulModZero(r, p * q);
  }

  /** Congruence modulo two distinct primes is congruence modulo their product. */
  lemma ChineseRemainder(p: nat, q: nat, a: nat, b: nat)
    requires IsPrime(p) && IsPrime(q) && p != q && a >= b
    requires a % p == b % p && a % q == b % q
    ensures a % (p * q) == b % (p * q)
  {
    CongruentDifference(a, b, p);
    CongruentDifference(a, b, q);
    DistinctPrimesDivide(p, q, a - b);
    var n := p * q;
    var k := (a - b) / n;
    assert a == b + k * n;
    ModAddMultiple(b, k, n);
  }

  lemma CongruentDifference(a: nat, b: nat, m: nat)
    requires m > 0 && a >= b && a % m == b % m
    ensures (a - b) % m == 0
  {
    assert a == (a / m) * m + a % m;
    assert b == (b / m) * m + b % m;
    assert a - b == (a / m - b / m) * m;
    MulModZero(a / m - b / m, m);
  }

  /** (e * d) % lambda == 1 makes e * d one more than a multiple of p - 1 (and of q - 1). */
  lemma ExponentForm(ed: nat, l: nat, a: nat) returns (t: nat)
    requires l > 0 && ed % l == 1 && Divides(a, l)
    ensures ed == 1 + t * a
  {
    DividesQuotient(a, l);
    t := (ed / l) * (l / a);
    assert ed == (ed / l) * l + 1;
    assert (ed / l) * l == t * a by {
      MulAssoc(ed / l, l / a, a);
    }
  }

  /** b^k >= b for k >= 1. */
  lemma PowAtLeastBase(b: nat, k: nat)
    requires k >= 1
    ensures Pow(b, k) >= b
  {
    if b > 0 {
      PowPositive(b, k - 1);
      MulAtLeast(Pow(b, k - 1), b);
    }
  }

  /** RSA decryption inverts encryption: for distinct primes p and q, an exponent pair with
      (e * d) % lambda(p * q) == 1, and a block b < p * q, (b^e mod n)^d mod n == b. */
  lemma RsaRoundTrip(p: nat, q: nat, e: nat, d: nat, b: nat)
    requires IsPrime(p) && IsPrime(q) && p != q
    requires (e * d) % Lambda(p, q) == 1 && b < p * q
    ensures ModPow(ModPow(b, e, p * q), d, p * q) == b
  {
    var n := p * q;
    var l := Lambda(p, q);
    LambdaIsLcm(p, q, 0);
    var t1 := ExponentForm(e * d, l, p - 1);
    var t2 := ExponentForm(e * d, l, q - 1);
    FermatPower(p, b, t1);
    FermatPower(q, b, t2);
    PowAtLeastBase(b, e * d);
    ChineseRemainder(p, q, Pow(b, e * d), b);
    PowModBase(Pow(b, e), d, n);
    PowMul(b, e, d);
    DivModUnique(b, n, 0, b);
  }

  /** A key pair with the properties `_gen_key` guarantees inverts every block below the
      modulus. */
  lemma KeyPairInverts(p: nat, q: nat, keys: KeyPair, b: nat)
    requires IsPrime(p) && IsPrime(q) && p != q
    requires keys.public.modulus == p * q
    requires (keys.public.exponent * keys.private) % Lambda(p, q) == 1
    requires b < p * q
    ensures ModPow(ModPow(b, keys.public.exponent, p * q), keys.private, p * q) == b
  {
    RsaRoundTrip(p, q, keys.public.exponent, keys.private, b);
  }

  /** `decrypt_str(encrypt_str(msg))` with such a key pair and a modulus of at least 2^32
      gives back the message, with a NUL appended when its length is not a multiple of
      four. */
  lemma StrRoundTrip(p: nat, q: nat, keys: KeyPair, msg: string)
    requires IsPrime(p) && IsPrime(q) && p != q && p * q >= WordModulus
    requires keys.public.modulus == p * q
    requires (keys.public.exponent * keys.private) % Lambda(p, q) == 1
    requires IsAscii(msg) && NoGroupStartsWithNul(msg)
    ensures Decrypted(Encrypted(msg, keys.public), keys.private, p * q) == Some(Padded(msg))
  {
    forall b: nat | b < WordModulus
      ensures ModPow(ModPow(b, keys.public.exponent, p * q), keys.private, p * q) == b
    {
      KeyPairInverts(p, q, keys, b);
    }
    TextRoundTrip(msg, keys.public, keys.private);
  }

  /** The message of `test_thing` (31 characters) comes back with a trailing NUL. */
  lemma TestThingMessage(p: nat, q: nat, keys: KeyPair)
    requires IsPrime(p) && IsPrime(q) && p != q && p * q >= WordModulus
    requires keys.public.modulus == p * q
    requires (keys.public.exponent * keys.private) % Lambda(p, q) == 1
    ensures var msg := "Hello world, how are you today?";
      Decrypted(Encrypted(msg, keys.public), keys.private, p * q) == Some(msg + "\0")
  {
    var msg := "Hello world, how are you today?";
    assert |msg| == 31;
    assert IsAscii(msg);
    assert NoGroupStartsWithNul(msg);
    StrRoundTrip(p, q, keys, msg);
  }
}
