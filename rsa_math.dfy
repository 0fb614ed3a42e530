/** The number theory of the key generator in rsa.rs: the recursive Euclidean gcd and the
    iterative extended-Euclid modular inverse. */
module RsaMath {
  import opened Arith
  import opened Wrappers

  /** `_gcd`: Euclid's algorithm by recursion on the remainder; gcd(a, 0) = a. */
  function Gcd(a: nat, b: nat): (g: nat)
    ensures a != 0 || b != 0 ==> Divides(g, a) && Divides(g, b)
    decreases b
  {
    if b == 0 then a
    else
      var g := Gcd(b, a % b);
      DividesRemainder(g, a, b);
      g
  }

  /** Every common divisor of a and b divides Gcd(a, b), so Gcd is the greatest one. */
  lemma {:induction false} GcdGreatest(a: nat, b: nat, d: nat)
    requires Divides(d, a) && Divides(d, b)
    ensures Divides(d, Gcd(a, b)) && (a != 0 || b != 0 ==> d <= Gcd(a, b))
    decreases b
  {
    if b != 0 {
      DividesRemainder(d, a, b);
      GcdGreatest(b, a % b, d);
      DividesBound(d, Gcd(a, b));
    }
  }

  lemma GcdOneLeft(b: nat)
    ensures Gcd(1, b) == 1
  {
    if b > 1 {
      assert Gcd(1, b) == Gcd(b, 1) == Gcd(1, 0);
    }
  }

  lemma GcdZeroLeft(b: nat)
    ensures Gcd(0, b) == b
  {
    if b != 0 {
      assert Gcd(0, b) == Gcd(b, 0);
    }
  }

  /** Bezout's identity: Gcd(a, b) is an integer combination of a and b. */
  lemma {:induction false} Bezout(a: nat, b: nat) returns (u: int, v: int)
    ensures u * a + v * b == Gcd(a, b)
    decreases b
  {
    if b == 0 {
      u, v := 1, 0;
    } else {
      var u', v' := Bezout(b, a % b);
      u, v := v', u' - v' * (a / b);
      BezoutStep(a, b, u', v', a / b, a % b, Gcd(a, b));
    }
  }

  /** One Euclidean step carries a combination for (b, r) back to one for (a, b). */
  lemma BezoutStep(a: int, b: int, u': int, v': int, q: int, r: int, g: int)
    requires a == q * b + r && u' * b + v' * r == g
    ensures v' * a + (u' - v' * q) * b == g
  {
    MulAssoc(v', q, b);
    assert v' * a == v' * (q * b) + v' * r;
  }

  /** If a has an inverse modulo m then a and m are coprime. */
  lemma InverseImpliesCoprime(a: nat, m: nat, r: nat)
    requires m > 1 && (a * r) % m == 1
    ensures Gcd(a, m) == 1
  {
    var g := Gcd(a, m);
    DividesMultiple(g, a, r);
    var k := (a * r) / m;
    assert a * r == k * m + 1;
    DividesMultiple(g, m, k);
    assert k * m == m * k;
    DividesDiff(g, a * r, m * k);
    DividesBound(g, 1);
  }

  function Abs(x: int): nat
  {
    if x < 0 then -x else x
  }

  /** `_modular_multiplicative_inverse`: the extended Euclidean algorithm over signed
      integers, shifted into [0, m) at the end. The division `a / m` in the loop aborts when
      m has reached 0, which happens exactly when a is non-zero and not coprime to m; that abort
      is `None`. The final conversion to an unsigned value never meets a negative coefficient. */
  method ModularInverse(a0: nat, m0: nat) returns (r: Option<nat>)
    ensures m0 == 1 ==> r == Some(0)
    ensures Gcd(a0, m0) == 1 && m0 > 1 ==> r.Some? && r.value < m0 && (a0 * r.value) % m0 == 1
    ensures r.None? <==> Gcd(a0, m0) != 1 && a0 != 0
    ensures a0 <= 1 && m0 != 1 ==> r == Some(1)
  {
    var a: int := a0;
    var m: int := m0;
    var y: int := 0;
    var x: int := 1;
    if m == x {
      return Some(0);
    }
    // x * a0 and y * a0 stay congruent to a and m modulo m0, with quotients k1 and k2
    ghost var k1: int, k2: int := 0, -1;
    while a > 1
      invariant InverseInvariant(a0, m0, a, m, x, y, k1, k2)
      decreases m
    {
      if m == 0 {
        // a > 1 and Gcd(a, 0) == a: not coprime, and `a / m` divides by zero
        return None;
      }
      var q := a / m;
      InverseStep(a0, m0, a, m, x, y, k1, k2);
      var t := m;
      m := a % m;
      a := t;
      t := y;
      y := x - q * y;
      x := t;
      k1, k2 := k2, k1 - q * k2;
    }
    InverseExit(a0, m0, a, m, x, y, k1, k2);
    if x < 0 {
      x := x + m0;
    }
    return Some(x as nat);
  }

  /** The loop invariant of ModularInverse: facts about the remainder pair, the two Bezout
      congruences, and the bound on the coefficients. */
  ghost predicate InverseInvariant(a0: nat, m0: nat, a: int, m: int, x: int, y: int, k1: int, k2: int)
  {
    && RemaindersInvariant(a0, m0, a, m, x)
    && CongruencesInvariant(a0, m0, a, m, x, y, k1, k2)
    && CoefficientsInvariant(a0, m0, a, m, x, y)
  }

  /** Both remainders stay non-negative and keep the gcd of the inputs. */
  ghost predicate RemaindersInvariant(a0: nat, m0: nat, a: int, m: int, x: int)
  {
    && 0 <= a && 0 <= m
    && Gcd(a as nat, m as nat) == Gcd(a0, m0)
    && (a0 > 0 ==> a > 0)
    && (a == 1 && m > 0 ==> x == 1)
    && (m0 == 0 ==> m == 0 && x == 1)
    && (a0 <= 1 ==> a == a0 && x == 1)
  }

  /** x * a0 == a and y * a0 == m (mod m0), with the quotients k1 and k2. */
  ghost predicate CongruencesInvariant(a0: nat, m0: nat, a: int, m: int, x: int, y: int, k1: int, k2: int)
  {
    x * a0 - a == k1 * m0 && y * a0 - m == k2 * m0
  }

  /** The coefficients have opposite signs and |y| * a + |x| * m == m0, which bounds the
      final coefficient by m0 / 2 once m has reached 0. */
  ghost predicate CoefficientsInvariant(a0: nat, m0: nat, a: int, m: int, x: int, y: int)
  {
    && ((x >= 0 && y <= 0) || (x <= 0 && y >= 0))
    && Abs(y) * a + Abs(x) * m == m0
    && (Gcd(a0, m0) == 1 && m0 > 1 && m == 0 ==> 2 * Abs(x) <= m0)
  }

  lemma InverseStep(a0: nat, m0: nat, a: int, m: int, x: int, y: int, k1: int, k2: int)
    requires InverseInvariant(a0, m0, a, m, x, y, k1, k2) && a > 1 && m > 0
    ensures InverseInvariant(a0, m0, m, a % m, y, x - (a / m) * y, k2, k1 - (a / m) * k2)
  {
    RemaindersStep(a0, m0, a, m, x, y);
    StepKeepsBezout(a0, m0, a, m, x, y, a / m, k1, k2);
    CoefficientsStep(a0, m0, a, m, x, y);
  }

  lemma RemaindersStep(a0: nat, m0: nat, a: int, m: int, x: int, y: int)
    requires RemaindersInvariant(a0, m0, a, m, x) && a > 1 && m > 0
    ensures RemaindersInvariant(a0, m0, m, a % m, y)
  {
    assert Gcd(a as nat, m as nat) == Gcd(m as nat, (a % m) as nat);
  }

  lemma CoefficientsStep(a0: nat, m0: nat, a: int, m: int, x: int, y: int)
    requires RemaindersInvariant(a0, m0, a, m, x) && CoefficientsInvariant(a0, m0, a, m, x, y)
    requires a > 1 && m > 0
    ensures CoefficientsInvariant(a0, m0, m, a % m, y, x - (a / m) * y)
  {
    StepKeepsBound(m0, a, m, x, y, a / m);
    if Gcd(a0, m0) == 1 && m0 > 1 && a % m == 0 {
      assert Gcd(a as nat, m as nat) == Gcd(m as nat, 0) == m == 1;
      MulMonotone(2, a, Abs(y));
      assert Abs(y) * a == a * Abs(y);
    }
  }

  /** When the loop stops on coprime inputs with m0 > 1, a is 1, so x * a0 == 1 (mod m0), and
      the coefficient lies strictly between -m0 and m0. */
  lemma InverseExit(a0: nat, m0: nat, a: int, m: int, x: int, y: int, k1: int, k2: int)
    requires InverseInvariant(a0, m0, a, m, x, y, k1, k2) && a <= 1
    ensures a0 != 0 ==> Gcd(a0, m0) == 1
    ensures m0 != 1 ==> 0 <= (if x < 0 then x + m0 else x)
    ensures m0 == 0 && Gcd(a0, m0) == 1 ==> x == 1
    ensures Gcd(a0, m0) == 1 && m0 > 1 ==>
      var r := if x < 0 then x + m0 else x;
      0 <= r < m0 && (a0 * r) % m0 == 1
  {
    ExitCoprime(a0, m0, a, m, x);
    GcdZeroLeft(m0);
    if a0 == 0 || m0 == 0 {
      assert x == 1;
    } else if m0 > 1 {
      assert a == 1;
      if m == 0 {
        assert 2 * Abs(x) <= m0;
      } else {
        assert x == 1;
      }
      InverseFromCongruence(a0, m0, x, k1);
    }
  }

  /** x * a0 == 1 (mod m0) with |x| < m0: x, shifted into [0, m0), is the inverse. */
  lemma InverseFromCongruence(a0: nat, m0: nat, x: int, k: int)
    requires m0 > 1 && x * a0 - 1 == k * m0 && 0 < x + m0 && x < m0
    ensures var r := if x < 0 then x + m0 else x;
      0 <= r < m0 && (a0 * r) % m0 == 1
  {
    var r := if x < 0 then x + m0 else x;
    var k' := if x < 0 then k + a0 else k;
    assert a0 * r == k' * m0 + 1;
    DivModUnique(a0 * r, m0, k', 1);
  }

  /** When the loop stops with a non-zero input, a has reached 1, so the inputs are coprime. */
  lemma ExitCoprime(a0: nat, m0: nat, a: int, m: int, x: int)
    requires RemaindersInvariant(a0, m0, a, m, x) && a <= 1
    ensures a0 != 0 ==> Gcd(a0, m0) == 1
  {
    if a0 != 0 {
      GcdOneLeft(m as nat);
    }
  }

  /** One loop step keeps both congruences: the new x is the old y, and the new y is
      x - q * y, congruent to a - q * m = a % m. */
  lemma StepKeepsBezout(a0: nat, m0: nat, a: int, m: int, x: int, y: int, q: int, k1: int, k2: int)
    requires m > 0 && q == a / m
    requires x * a0 - a == k1 * m0 && y * a0 - m == k2 * m0
    ensures (x - q * y) * a0 - a % m == (k1 - q * k2) * m0
  {
    assert a % m == a - q * m;
    calc {
      (x - q * y) * a0 - (a - q * m);
      (x * a0 - a) - q * (y * a0 - m);
      k1 * m0 - q * (k2 * m0);
      (k1 - q * k2) * m0;
    }
  }

  /** One loop step keeps the coefficients of opposite sign and keeps
      |y| * a + |x| * m equal to the original modulus. */
  lemma StepKeepsBound(m0: nat, a: int, m: int, x: int, y: int, q: int)
    requires a >= 0 && m > 0 && q == a / m
    requires (x >= 0 && y <= 0) || (x <= 0 && y >= 0)
    requires Abs(y) * a + Abs(x) * m == m0
    ensures (y >= 0 && x - q * y <= 0) || (y <= 0 && x - q * y >= 0)
    ensures Abs(x - q * y) * m + Abs(y) * (a % m) == m0
  {
    assert q >= 0;
    assert a % m == a - q * m;
    assert Abs(x - q * y) == Abs(x) + q * Abs(y) by {
      if x >= 0 && y <= 0 {
        assert q * y <= 0;
      } else {
        assert q * y >= 0;
      }
    }
    BoundAlgebra(Abs(x), Abs(y), q, m, a);
  }

  lemma BoundAlgebra(x: int, y: int, q: int, m: int, a: int)
    ensures (x + q * y) * m + y * (a - q * m) == x * m + y * a
  {
    assert (x + q * y) * m == x * m + (q * y) * m;
    assert y * (a - q * m) == y * a - y * (q * m);
    MulAssoc(q, y, m);
    MulAssoc(y, q, m);
  }
}
