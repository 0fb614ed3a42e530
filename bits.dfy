/** Unsigned 32-bit words and the bitwise operators the text codec applies to them,
    defined on naturals bit by bit. */
module Bits {
  import opened Arith

  const WordModulus: nat := 0x1_0000_0000

  /** A Rust `u32`. */
  type U32 = x: nat | x < 0x1_0000_0000

  /** Bitwise exclusive or, least significant bit first. */
  function Xor(a: nat, b: nat): nat
    decreases a + b
  {
    if a == 0 then b
    else if b == 0 then a
    else 2 * Xor(a / 2, b / 2) + (a % 2 + b % 2) % 2
  }

  /** Bitwise and, least significant bit first. */
  function And(a: nat, b: nat): nat
    decreases a + b
  {
    if a == 0 || b == 0 then 0
    else 2 * And(a / 2, b / 2) + (a % 2) * (b % 2)
  }

  /** `x << 8` on a `u32`: the bits shifted past bit 31 are lost. */
  function ShiftLeft8(x: U32): U32
  {
    (x * 256) % WordModulus
  }

  /** `x.overflowing_shr(8).0` on a `u32` (the shift amount is below 32, so it is a plain shift). */
  function ShiftRight8(x: U32): U32
  {
    x / 256
  }

  /** 2^k. */
  function Pow2(k: nat): (r: nat)
    ensures r >= 1
  {
    if k == 0 then 1 else 2 * Pow2(k - 1)
  }

  lemma {:induction false} Pow2Monotone(k: nat, w: nat)
    requires k <= w
    ensures Pow2(k) <= Pow2(w) && (k < w ==> Pow2(k) < Pow2(w))
    decreases w
  {
    if k < w {
      Pow2Monotone(k, w - 1);
    }
  }

  lemma Pow2Values()
    ensures Pow2(8) == 256 && Pow2(32) == WordModulus
  {
    assert Pow2(4) == 16;
    assert Pow2(8) == 256;
    assert Pow2(12) == 4096;
    assert Pow2(16) == 65536;
    assert Pow2(20) == 1048576;
    assert Pow2(24) == 16777216;
    assert Pow2(28) == 268435456;
  }

  /** c % 2p is the low bit of c plus twice (c / 2) % p. */
  lemma ModHalf(c: nat, p: nat)
    requires p > 0
    ensures c % (2 * p) == 2 * ((c / 2) % p) + c % 2
  {
    var h := c / 2;
    assert c == 2 * h + c % 2;
    assert h == (h / p) * p + h % p;
    assert c == (h / p) * (2 * p) + (2 * (h % p) + c % 2);
    DivModUnique(c, 2 * p, h / p, 2 * (h % p) + c % 2);
  }

  /** Exclusive or with a value that fits in the k low bits, all zero in a, is addition. */
  lemma {:induction false} XorIntoZeroBits(a: nat, c: nat, k: nat)
    requires a % Pow2(k) == 0 && c < Pow2(k)
    ensures Xor(a, c) == a + c
    decreases k
  {
    if a != 0 && c != 0 {
      var p := Pow2(k - 1);
      assert Pow2(k) == 2 * p;
      ModHalf(a, p);
      assert a % 2 == 0 && (a / 2) % p == 0;
      assert c / 2 < p;
      XorIntoZeroBits(a / 2, c / 2, k - 1);
      var low := a % 2 + c % 2;
      DivModUnique(low, 2, 0, low);
      assert Xor(a, c) == 2 * Xor(a / 2, c / 2) + low % 2;
    }
  }

  /** And with a mask of the k low bits keeps the remainder modulo 2^k. */
  lemma {:induction false} AndLowMask(c: nat, k: nat)
    ensures And(c, Pow2(k) - 1) == c % Pow2(k)
    decreases k
  {
    if k == 0 {
      assert Pow2(k) == 1;
    } else if c == 0 {
      DivModUnique(0, Pow2(k), 0, 0);
    } else {
      var p := Pow2(k - 1);
      assert Pow2(k) == 2 * p;
      MaskHalf(k);
      AndOddMask(c, Pow2(k) - 1);
      AndLowMask(c / 2, k - 1);
      ModHalf(c, p);
    }
  }

  /** And with an odd mask keeps the low bit. */
  lemma AndOddMask(c: nat, mask: nat)
    requires mask % 2 == 1
    ensures And(c, mask) == 2 * And(c / 2, mask / 2) + c % 2
  {
  }

  /** The mask of the k low bits is an odd number whose upper bits are the mask of k - 1. */
  lemma MaskHalf(k: nat)
    requires k > 0
    ensures (Pow2(k) - 1) / 2 == Pow2(k - 1) - 1 && (Pow2(k) - 1) % 2 == 1
  {
    DivModUnique(Pow2(k) - 1, 2, Pow2(k - 1) - 1, 1);
  }

  /** And with the mask of bits k..w-1 clears the k low bits of a w-bit value. */
  lemma {:induction false} AndHighMask(c: nat, k: nat, w: nat)
    requires k <= w && Pow2(k) <= Pow2(w) && c < Pow2(w)
    ensures And(c, Pow2(w) - Pow2(k)) == c - c % Pow2(k)
    decreases k
  {
    if k == w {
      DivModUnique(c, Pow2(w), 0, c);
    } else if k == 0 {
      AndLowMask(c, w);
      DivModUnique(c, Pow2(w), 0, c);
      assert c % Pow2(k) == 0;
    } else if c == 0 {
      assert And(c, Pow2(w) - Pow2(k)) == 0;
    } else {
      var p := Pow2(k - 1);
      var q := Pow2(w - 1);
      Pow2Monotone(k - 1, w - 1);
      assert Pow2(w) == 2 * q && Pow2(k) == 2 * p;
      assert Pow2(w) - Pow2(k) == 2 * (q - p);
      AndEvenMask(c, q - p);
      AndHighMask(c / 2, k - 1, w - 1);
      ClearLowBits(c, p);

    }
  }

  lemma AndEvenMask(c: nat, h: nat)
    requires h > 0
    ensures And(c, 2 * h) == 2 * And(c / 2, h)
  {
  }

  lemma ClearLowBits(c: nat, p: nat)
    requires p > 0
    ensures 2 * (c / 2 - (c / 2) % p) == c - c % (2 * p)
  {
    ModHalf(c, p);
  }

  /** `c & 0xFF` is the low byte. */
  lemma AndLowByte(c: nat)
    ensures And(c, 0xFF) == c % 256
  {
    Pow2Values();
    AndLowMask(c, 8);
  }

  /** `c & 0xFFFFFF00` on a `u32` clears the low byte. */
  lemma AndClearLowByte(c: U32)
    ensures And(c, 0xFFFF_FF00) == c - c % 256
  {
    Pow2Values();
    AndHighMask(c, 8, 32);
  }

  /** Exclusive or of two k-bit values is a k-bit value. */
  lemma {:induction false} XorBound(a: nat, b: nat, k: nat)
    requires a < Pow2(k) && b < Pow2(k)
    ensures Xor(a, b) < Pow2(k)
    decreases k
  {
    if a != 0 && b != 0 {
      var p := Pow2(k - 1);
      assert Pow2(k) == 2 * p;
      XorBound(a / 2, b / 2, k - 1);
      assert Xor(a, b) == 2 * Xor(a / 2, b / 2) + (a % 2 + b % 2) % 2;
    }
  }

  /** `u32 ^ u32` never leaves the word. */
  lemma XorWord(a: U32, b: U32)
    ensures Xor(a, b) < WordModulus
  {
    Pow2Values();
    XorBound(a, b, 32);
  }

  /** Exclusive or of a byte into a word whose low byte is zero. */
  lemma XorIntoLowByte(a: nat, c: nat)
    requires a % 256 == 0 && c < 256
    ensures Xor(a, c) == a + c
  {
    Pow2Values();
    XorIntoZeroBits(a, c, 8);
  }
}
