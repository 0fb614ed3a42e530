/** Key generation and the per-block cipher of rsa.rs, once the two primes are given. */
module RsaKeys {
  import opened Arith
  import opened Bits
  import opened Wrappers
  import opened RsaMath

  /** The fixed public exponent (rsa.rs, `BigUint::from_i32(65_537)`). */
  const PublicExponent: nat := 65537

  /** `(modulus, exponent)`. */
  datatype PublicKey = PublicKey(modulus: nat, exponent: nat)

  /** `((modulus, exponent), d)`: the key pair returned by `_gen_key`. */
  datatype KeyPair = KeyPair(public: PublicKey, private: nat)

  /** The two `assert!`s of `_gen_key` that can fail. */
  datatype KeyError =
    | ExponentOutOfRange   // not 1 < e < lambda
    | ExponentNotCoprime   // gcd(e, lambda) != 1

  /** lambda(p * q) = (p - 1)(q - 1) / gcd(p - 1, q - 1). */
  function Lambda(p: nat, q: nat): (l: nat)
    requires 2 <= p && 2 <= q
    ensures l > 0
  {
    var a: nat, b: nat := p - 1, q - 1;
    var g := Gcd(a, b);
    QuotientOfProductPositive(a, b, g);
    a * b / g
  }

  /** a * b / g is positive for positive a and b and a divisor g of a. */
  lemma QuotientOfProductPositive(a: nat, b: nat, g: nat)
    requires a > 0 && b > 0 && Divides(g, a)
    ensures a * b / g > 0
  {
    DividesQuotient(g, a);
    var a' := a / g;
    assert a' != 0;
    assert a * b == (a' * b) * g by {
      MulAssoc(g, a', b);
    }
    MulModZero(a' * b, g);
    MulAtLeast(a', b);
  }

  /** Lambda is a common multiple of p - 1 and q - 1: with g their gcd, it is
      (p - 1) * ((q - 1) / g) and (q - 1) * ((p - 1) / g). */
  lemma LambdaFactors(p: nat, q: nat)
    requires 2 <= p && 2 <= q
    ensures var g := Gcd(p - 1, q - 1);
      && g > 0 && Divides(g, p - 1) && Divides(g, q - 1)
      && Lambda(p, q) == (p - 1) * ((q - 1) / g) == (q - 1) * ((p - 1) / g)
  {
    var a: nat, b: nat := p - 1, q - 1;
    var g := Gcd(a, b);
    DividesQuotient(g, a);
    DividesQuotient(g, b);
    var a', b' := a / g, b / g;
    assert a * b == (a * b') * g by {
      assert b == g * b';
    }
    MulModZero(a * b', g);
    assert a * b' == b * a' by {
      assert a * b' == (g * a') * b';
      assert b * a' == (g * b') * a';
    }
  }

  /** Lambda is the least common multiple of p - 1 and q - 1 (Carmichael's function of
      p * q for primes p and q): positive, a multiple of both, and a divisor of every common
      multiple. */
  lemma LambdaIsLcm(p: nat, q: nat, c: nat)
    requires 2 <= p && 2 <= q
    ensures Divides(p - 1, Lambda(p, q)) && Divides(q - 1, Lambda(p, q))
    ensures Divides(p - 1, c) && Divides(q - 1, c) ==> Divides(Lambda(p, q), c)
  {
    var a: nat, b: nat := p - 1, q - 1;
    var g := Gcd(a, b);
    LambdaFactors(p, q);
    var a', b' := a / g, b / g;
    var l := Lambda(p, q);
    DividesProduct(a, b');
    DividesProduct(b, a');
    assert b' != 0 by {
      DividesQuotient(g, b);
    }
    MulAtLeast(b', a);
    if Divides(a, c) && Divides(b, c) {
      LcmDividesCommonMultiple(a, b, g, c, l);
    }
  }

  /** Dividing a and b by their gcd leaves a coprime pair: some combination of the
      quotients is 1. */
  lemma QuotientsCombineToOne(a: nat, b: nat, g: nat) returns (u: int, v: int)
    requires a > 0 && g == Gcd(a, b)
    ensures g > 0 && u * (a / g) + v * (b / g) == 1
  {
    DividesQuotient(g, a);
    DividesQuotient(g, b);
    var a', b' := a / g, b / g;
    u, v := Bezout(a, b);
    var w := u * a' + v * b';
    assert w * g == g by {
      assert a == g * a' && b == g * b';
      MulFactor(g, u, a', v, b');
    }
    if w >= 2 {
      MulMonotone(2, w, g);
    } else if w <= 0 {
      MulMonotone(w, 0, g);
    }
  }

  /** When c is a common multiple of a and b and l = a * b' = b * a' with
      u * a' + v * b' == 1, c is a multiple of l. */
  lemma CommonMultipleFactor(a: int, b: int, a': int, b': int, u: int, v: int, s: int, t: int, l: int)
    requires l == a * b' == b * a' && u * a' + v * b' == 1
    ensures a * s == b * t ==> a * s == (u * t + v * s) * l
  {
    if a * s == b * t {
      var c := a * s;
      assert a' * c == l * t by {
        MulAssoc(a', b, t);
      }
      assert b' * c == l * s by {
        MulAssoc(b', a, s);
      }
      assert c == u * (a' * c) + v * (b' * c) by {
        MulFactor(c, u, a', v, b');
      }
      MulFactor(l, u, t, v, s);
    }
  }

  /** A common multiple of a and b is a multiple of l = a * (b / g) = b * (a / g), g their
      gcd. */
  lemma LcmDividesCommonMultiple(a: nat, b: nat, g: nat, c: nat, l: nat)
    requires a > 0 && b > 0 && g == Gcd(a, b) && Divides(a, c) && Divides(b, c)
    requires l > 0 && l == a * (b / g) == b * (a / g)
    ensures Divides(l, c)
  {
    var u, v := QuotientsCombineToOne(a, b, g);
    DividesQuotient(a, c);
    DividesQuotient(b, c);
    var s, t := c / a, c / b;
    CommonMultipleFactor(a, b, a / g, b / g, u, v, s, t, l);
    DivModUnique(c, l, u * t + v * s, 0);
  }

  /** `_gen_key` after the two primes are chosen: n = p * q, lambda as above, e = 65537
      checked against 1 < e < lambda and gcd(e, lambda) == 1, and d is the inverse of e
      modulo lambda. A failed check aborts the program; here it is an error value. */
  method GenKey(p: nat, q: nat) returns (r: Result<KeyPair, KeyError>)
    requires 2 <= p && 2 <= q
    ensures r.Ok? <==> PublicExponent < Lambda(p, q) && Gcd(PublicExponent, Lambda(p, q)) == 1
    ensures !(PublicExponent < Lambda(p, q)) ==> r == Err(ExponentOutOfRange)
    ensures PublicExponent < Lambda(p, q) && Gcd(PublicExponent, Lambda(p, q)) != 1 ==>
      r == Err(ExponentNotCoprime)
    ensures r.Ok? ==>
      && r.value.public == PublicKey(p * q, PublicExponent)
      && r.value.private < Lambda(p, q)
      && (PublicExponent * r.value.private) % Lambda(p, q) == 1
  {
    var prod := (p - 1) * (q - 1);
    var lambda := prod / Gcd(p - 1, q - 1);
    var exponent := PublicExponent;
    if !(1 < exponent && exponent < lambda) {
      return Err(ExponentOutOfRange);
    }
    if Gcd(exponent, lambda) != 1 {
      return Err(ExponentNotCoprime);
    }
    var d := ModularInverse(exponent, lambda);
    return Ok(KeyPair(PublicKey(p * q, exponent), d.value));
  }

  /** `BigUint::modpow`: b^e mod n (the library refuses a zero modulus). */
  function ModPow(b: nat, e: nat, n: nat): nat
    requires n > 0
  {
    Pow(b, e) % n
  }

  /** `_encrypt_bytes`: every block raised to the public exponent modulo n, in place in a
      vector of the same length. The code never checks that a block is below n. */
  method EncryptBytes(blocks: seq<U32>, key: PublicKey) returns (output: seq<nat>)
    requires key.modulus > 0
    ensures |output| == |blocks|
    ensures forall i :: 0 <= i < |blocks| ==>
      output[i] == ModPow(blocks[i], key.exponent, key.modulus) && output[i] < key.modulus
  {
    var out := new nat[|blocks|](_ => 0);
    for i := 0 to |blocks|
      invariant forall j :: 0 <= j < i ==> out[j] == ModPow(blocks[j], key.exponent, key.modulus)
    {
      out[i] := ModPow(blocks[i], key.exponent, key.modulus);
    }
    output := out[..];
  }

  /** `_decrypt_bytes`: every block raised to the private exponent modulo n. Converting a
      result to `u32` aborts when it does not fit in 32 bits; that path is `None`. */
  method DecryptBytes(cipher: seq<nat>, privkey: nat, modulus: nat) returns (r: Option<seq<U32>>)
    requires modulus > 0
    ensures r.Some? <==> forall i :: 0 <= i < |cipher| ==> ModPow(cipher[i], privkey, modulus) < WordModulus
    ensures r.Some? ==>
      && |r.value| == |cipher|
      && forall i :: 0 <= i < |cipher| ==> r.value[i] == ModPow(cipher[i], privkey, modulus)
  {
    var decBlocks := new U32[|cipher|](_ => 0);
    for i := 0 to |cipher|
      invariant forall j :: 0 <= j < i ==>
        ModPow(cipher[j], privkey, modulus) < WordModulus && decBlocks[j] == ModPow(cipher[j], privkey, modulus)
    {
      var v := ModPow(cipher[i], privkey, modulus);
      if v >= WordModulus {
        return None;
      }
      decBlocks[i] := v;
    }
    return Some(decBlocks[..]);
  }
}
