/** The bitwise operators of C on unsigned values, as functions on naturals. */
module Bits {

  function Pow2(k: nat): (p: nat)
    ensures p > 0
  {
    if k == 0 then 1 else 2 * Pow2(k - 1)
  }

  /** C's `a & b`. */
  function And(a: nat, b: nat): nat {
    if a == 0 || b == 0 then 0
    else (if a % 2 == 1 && b % 2 == 1 then 1 else 0) + 2 * And(a / 2, b / 2)
  }

  /** C's `a | b`. */
  function Or(a: nat, b: nat): nat
    decreases a + b
  {
    if a == 0 && b == 0 then 0
    else (if a % 2 == 1 || b % 2 == 1 then 1 else 0) + 2 * Or(a / 2, b / 2)
  }

  /** C's `a & ~b`. */
  function AndNot(a: nat, b: nat): nat {
    if a == 0 then 0
    else (if a % 2 == 1 && b % 2 == 0 then 1 else 0) + 2 * AndNot(a / 2, b / 2)
  }

  /** Bit k of n. */
  predicate Bit(n: nat, k: nat) {
    if k == 0 then n % 2 == 1 else Bit(n / 2, k - 1)
  }

  lemma {:induction false} BitOr(a: nat, b: nat, k: nat)
    ensures Bit(Or(a, b), k) <==> Bit(a, k) || Bit(b, k)
  {
    if a == 0 && b == 0 {
      NoBits(k);
    } else if k > 0 {
      BitOr(a / 2, b / 2, k - 1);
    }
  }

  lemma {:induction false} BitAnd(a: nat, b: nat, k: nat)
    ensures Bit(And(a, b), k) <==> Bit(a, k) && Bit(b, k)
  {
    if a == 0 || b == 0 {
      NoBits(k);
    } else if k > 0 {
      BitAnd(a / 2, b / 2, k - 1);
    }
  }

  lemma {:induction false} BitAndNot(a: nat, b: nat, k: nat)
    ensures Bit(AndNot(a, b), k) <==> Bit(a, k) && !Bit(b, k)
  {
    if a == 0 {
      NoBits(k);
    } else if k > 0 {
      BitAndNot(a / 2, b / 2, k - 1);
    }
  }

  lemma {:induction false} NoBits(k: nat)
    ensures !Bit(0, k)
  {
    if k > 0 {
      NoBits(k - 1);
    }
  }

  lemma {:induction false} SmallHasNoHighBit(n: nat, k: nat, m: nat)
    requires n < Pow2(m) && m <= k
    ensures !Bit(n, k)
  {
    if m == 0 {
      NoBits(k);
    } else {
      SmallHasNoHighBit(n / 2, k - 1, m - 1);
    }
  }

  /** A power of two has one bit. */
  lemma {:induction false} BitPow2(m: nat, k: nat)
    ensures Bit(Pow2(m), k) <==> k == m
  {
    if m == 0 {
      if k > 0 {
        NoBits(k - 1);
      }
    } else if k > 0 {
      BitPow2(m - 1, k - 1);
    }
  }

  /** A number with no bit set is zero. */
  lemma {:induction false} NonZeroHasBit(n: nat) returns (k: nat)
    requires n > 0
    ensures Bit(n, k)
  {
    if n % 2 == 1 {
      k := 0;
    } else {
      var j := NonZeroHasBit(n / 2);
      k := j + 1;
    }
  }

  /** Masking with enough ones changes nothing. */
  lemma {:induction false} AndOnes(n: nat, k: nat)
    requires n < Pow2(k)
    ensures And(n, Pow2(k) - 1) == n
  {
    if n != 0 {
      var p := Pow2(k - 1);
      AndOnes(n / 2, k - 1);
      assert (2 * p - 1) / 2 == p - 1 && (2 * p - 1) % 2 == 1;
    }
  }

  /** The powers of two that the sources spell out. */
  lemma Pow2Values()
    ensures Pow2(8) == 0x100 && Pow2(16) == 0x1_0000 && Pow2(30) == 0x4000_0000 && Pow2(32) == 0x1_0000_0000
  {
    assert Pow2(2) == 4;
    assert Pow2(4) == 16;
    assert Pow2(6) == 64;
    assert Pow2(8) == 0x100;
    assert Pow2(10) == 0x400;
    assert Pow2(12) == 0x1000;
    assert Pow2(14) == 0x4000;
    assert Pow2(16) == 0x1_0000;
    assert Pow2(18) == 0x4_0000;
    assert Pow2(20) == 0x10_0000;
    assert Pow2(22) == 0x40_0000;
    assert Pow2(24) == 0x100_0000;
    assert Pow2(26) == 0x400_0000;
    assert Pow2(28) == 0x1000_0000;
    assert Pow2(30) == 0x4000_0000;
    assert Pow2(32) == 0x1_0000_0000;
  }

  /** An or reaches 2^k exactly when one of its operands does. */
  lemma {:induction false} OrAtLeast(a: nat, b: nat, k: nat)
    ensures Or(a, b) >= Pow2(k) <==> a >= Pow2(k) || b >= Pow2(k)
  {
    if a == 0 && b == 0 {
    } else if k == 0 {
      if a % 2 == 0 && b % 2 == 0 {
        OrAtLeast(a / 2, b / 2, 0);
      }
    } else {
      OrAtLeast(a / 2, b / 2, k - 1);
    }
  }

  /** An or of a low field with a field shifted past it is their sum. */
  lemma {:induction false} OrDisjoint(lo: nat, hi: nat, k: nat)
    requires lo < Pow2(k)
    ensures Or(lo, Pow2(k) * hi) == lo + Pow2(k) * hi
  {
    if k == 0 {
      OrZero(hi);
    } else {
      var p := Pow2(k - 1);
      OrDisjoint(lo / 2, hi, k - 1);
      assert Pow2(k) * hi == 2 * (p * hi);
      assert (2 * (p * hi)) / 2 == p * hi && (2 * (p * hi)) % 2 == 0;
    }
  }

  lemma {:induction false} OrZero(b: nat)
    ensures Or(0, b) == b
  {
    if b != 0 {
      OrZero(b / 2);
    }
  }
}
