/**
 * 32-bit words as natural numbers, with the C bitwise operators defined
 * bit by bit. Every property of a bitwise expression is reduced to its
 * bits with the lemmas below and closed by `BitsEqual`.
 */
module Bits {

  const WORD_BITS: nat := 32

  function Pow2(k: nat): (p: nat)
    ensures p >= 1
  {
    if k == 0 then 1 else 2 * Pow2(k - 1)
  }

  /** Bit `k` of `a` is set. */
  predicate Bit(a: nat, k: nat)
    decreases k
  {
    if k == 0 then a % 2 == 1 else Bit(a / 2, k - 1)
  }

  /** The lowest bit of `a` as a number. */
  function LowBit(a: nat): nat
  {
    a % 2
  }

  /** `a & b`. */
  function And(a: nat, b: nat): nat
    decreases a
  {
    if a == 0 then 0 else 2 * And(a / 2, b / 2) + LowBit(a) * LowBit(b)
  }

  /** `a | b`. */
  function Or(a: nat, b: nat): nat
    decreases a + b
  {
    if a == 0 && b == 0 then 0
    else 2 * Or(a / 2, b / 2) + (if LowBit(a) == 1 || LowBit(b) == 1 then 1 else 0)
  }

  /** `a ^ b`. */
  function Xor(a: nat, b: nat): nat
    decreases a + b
  {
    if a == 0 && b == 0 then 0
    else 2 * Xor(a / 2, b / 2) + (if LowBit(a) != LowBit(b) then 1 else 0)
  }

  /** `~a` on a 32-bit word. */
  function Not32(a: nat): nat
    requires a < 0x1_0000_0000
  {
    0xFFFF_FFFF - a
  }

  lemma BitLow(x: nat, r: nat)
    requires r < 2
    ensures Bit(2 * x + r, 0) == (r == 1)
    ensures forall k: nat {:trigger Bit(2 * x + r, k + 1)} :: Bit(2 * x + r, k + 1) == Bit(x, k)
  {
    forall k: nat
      ensures Bit(2 * x + r, k + 1) == Bit(x, k)
    {
      assert (2 * x + r) / 2 == x;
    }
  }

  lemma {:induction false} AndBit(a: nat, b: nat, k: nat)
    ensures Bit(And(a, b), k) == (Bit(a, k) && Bit(b, k))
    decreases a
  {
    if a == 0 {
      ZeroBit(k);
    } else {
      BitLow(And(a / 2, b / 2), LowBit(a) * LowBit(b));
      if k > 0 {
        AndBit(a / 2, b / 2, k - 1);
      }
    }
  }

  lemma {:induction false} OrBit(a: nat, b: nat, k: nat)
    ensures Bit(Or(a, b), k) == (Bit(a, k) || Bit(b, k))
    decreases a + b
  {
    if a == 0 && b == 0 {
      ZeroBit(k);
    } else {
      BitLow(Or(a / 2, b / 2), if LowBit(a) == 1 || LowBit(b) == 1 then 1 else 0);
      if k > 0 {
        OrBit(a / 2, b / 2, k - 1);
      }
    }
  }

  lemma {:induction false} XorBit(a: nat, b: nat, k: nat)
    ensures Bit(Xor(a, b), k) == (Bit(a, k) != Bit(b, k))
    decreases a + b
  {
    if a == 0 && b == 0 {
      ZeroBit(k);
    } else {
      BitLow(Xor(a / 2, b / 2), if LowBit(a) != LowBit(b) then 1 else 0);
      if k > 0 {
        XorBit(a / 2, b / 2, k - 1);
      }
    }
  }

  lemma {:induction false} ZeroBit(k: nat)
    ensures !Bit(0, k)
  {
    if k > 0 {
      ZeroBit(k - 1);
    }
  }

  lemma {:induction false} Pow2Bit(j: nat, k: nat)
    ensures Bit(Pow2(j), k) == (j == k)
  {
    if j == 0 {
      BitLow(0, 1);
      if k > 0 {
        ZeroBit(k - 1);
      }
    } else {
      BitLow(Pow2(j - 1), 0);
      if k > 0 {
        Pow2Bit(j - 1, k - 1);
      }
    }
  }

  /** Two numbers with the same bits are equal. */
  lemma {:induction false} BitsEqual(a: nat, b: nat)
    requires forall k: nat :: Bit(a, k) == Bit(b, k)
    ensures a == b
    decreases a + b
  {
    if a != 0 || b != 0 {
      assert Bit(a, 0) == Bit(b, 0);
      forall k: nat
        ensures Bit(a / 2, k) == Bit(b / 2, k)
      {
        assert Bit(a, k + 1) == Bit(b, k + 1);
      }
      BitsEqual(a / 2, b / 2);
    }
  }

  /** A number below 2^n has no bit at or above `n`. */
  lemma {:induction false} HighBitClear(a: nat, n: nat, k: nat)
    requires a < Pow2(n) && n <= k
    ensures !Bit(a, k)
    decreases n
  {
    if n == 0 {
      ZeroBit(k);
    } else {
      HighBitClear(a / 2, n - 1, k - 1);
    }
  }

  /** `a & 0` is 0. */
  lemma {:induction false} AndZero(a: nat)
    ensures And(a, 0) == 0
    decreases a
  {
    if a > 0 {
      AndZero(a / 2);
    }
  }

  /** `a & b` keeps only bits of `b`, so it is no larger than `b`. */
  lemma {:induction false} AndAtMost(a: nat, b: nat)
    ensures And(a, b) <= a && And(a, b) <= b
    decreases a
  {
    if a > 0 {
      AndAtMost(a / 2, b / 2);
    }
  }

  /** `a & a == a`. */
  lemma AndSelf(a: nat)
    ensures And(a, a) == a
  {
    forall k: nat
      ensures Bit(And(a, a), k) == Bit(a, k)
    {
      AndBit(a, a, k);
    }
    BitsEqual(And(a, a), a);
  }

  /** `a & b` keeps no bit that `a` lacks: `(a & b) & a == a & b`. */
  lemma AndWithin(a: nat, b: nat)
    ensures And(And(a, b), a) == And(a, b)
  {
    forall k: nat
      ensures Bit(And(And(a, b), a), k) == Bit(And(a, b), k)
    {
      AndBit(And(a, b), a, k);
      AndBit(a, b, k);
    }
    BitsEqual(And(And(a, b), a), And(a, b));
  }

  /** Containment of 1-bits, written `x & y == x`, is transitive. */
  lemma AndWithinTrans(x: nat, y: nat, z: nat)
    requires And(x, y) == x && And(y, z) == y
    ensures And(x, z) == x
  {
    forall k: nat
      ensures Bit(And(x, z), k) == Bit(x, k)
    {
      AndBit(x, z, k);
      AndBit(x, y, k);
      AndBit(y, z, k);
    }
    BitsEqual(And(x, z), x);
  }

  lemma {:induction false} XorBound(a: nat, b: nat, n: nat)
    requires a < Pow2(n) && b < Pow2(n)
    ensures Xor(a, b) < Pow2(n)
    decreases n
  {
    if n > 0 && (a != 0 || b != 0) {
      XorBound(a / 2, b / 2, n - 1);
    }
  }

  lemma {:induction false} Pow2Less(j: nat, n: nat)
    requires j < n
    ensures Pow2(j) < Pow2(n)
    decreases n
  {
    if j < n - 1 {
      Pow2Less(j, n - 1);
    }
  }

  lemma {:induction false} OrBound(a: nat, b: nat, n: nat)
    requires a < Pow2(n) && b < Pow2(n)
    ensures Or(a, b) < Pow2(n)
    decreases n
  {
    if n > 0 && (a != 0 || b != 0) {
      OrBound(a / 2, b / 2, n - 1);
    }
  }

  /** The number whose bits `0 .. n-1` are set. */
  function Ones(n: nat): nat
  {
    if n == 0 then 0 else 2 * Ones(n - 1) + 1
  }

  lemma {:induction false} OnesBit(n: nat, k: nat)
    ensures Bit(Ones(n), k) == (k < n)
  {
    if n == 0 {
      ZeroBit(k);
    } else {
      BitLow(Ones(n - 1), 1);
      if k > 0 {
        OnesBit(n - 1, k - 1);
      }
    }
  }

  lemma {:induction false} OnesIsPow2Less1(n: nat)
    ensures Ones(n) + 1 == Pow2(n)
  {
    if n > 0 {
      OnesIsPow2Less1(n - 1);
    }
  }

  /** Multiplying by 2^m shifts the bits up by `m`. */
  lemma {:induction false} ShiftBit(m: nat, a: nat, k: nat)
    ensures Bit(Pow2(m) * a, k) == (m <= k && Bit(a, k - m))
  {
    if m > 0 {
      var x := Pow2(m - 1) * a;
      assert Pow2(m) * a == 2 * x + 0;
      BitLow(x, 0);
      if k > 0 {
        ShiftBit(m - 1, a, k - 1);
      }
    }
  }

  /** Subtracting from the all-ones word complements every bit below `n`. */
  lemma {:induction false} ComplementBit(a: nat, n: nat, k: nat)
    requires a <= Ones(n)
    ensures Bit(Ones(n) - a, k) == (k < n && !Bit(a, k))
    decreases n
  {
    if n == 0 {
      ZeroBit(k);
    } else {
      var r := Ones(n - 1) - a / 2;
      assert Ones(n) - a == 2 * r + (1 - LowBit(a));
      BitLow(r, 1 - LowBit(a));
      if k > 0 {
        ComplementBit(a / 2, n - 1, k - 1);
      }
    }
  }

  lemma Not32Bit(a: nat, k: nat)
    requires a < 0x1_0000_0000
    ensures Bit(Not32(a), k) == (k < WORD_BITS && !Bit(a, k))
  {
    Pow2Values();
    OnesIsPow2Less1(32);
    ComplementBit(a, WORD_BITS, k);
  }

  lemma Pow2Values()
    ensures Pow2(11) == 0x800
    ensures Pow2(29) == 0x2000_0000
    ensures Pow2(32) == 0x1_0000_0000
    ensures Ones(11) == 0x7FF
    ensures Ones(29) == 0x1FFF_FFFF
  {
    assert Pow2(4) == 16;
    assert Pow2(8) == 256;
    assert Pow2(11) == 0x800;
    assert Pow2(16) == 0x1_0000;
    assert Pow2(24) == 0x100_0000;
    assert Pow2(29) == 0x2000_0000;
    OnesIsPow2Less1(11);
    OnesIsPow2Less1(29);
  }

  /** `a ^ b` of two 32-bit words is a 32-bit word. */
  lemma Xor32(a: nat, b: nat)
    requires a < 0x1_0000_0000 && b < 0x1_0000_0000
    ensures Xor(a, b) < 0x1_0000_0000
  {
    Pow2Values();
    XorBound(a, b, WORD_BITS);
  }

  /** `a | b` of two 32-bit words is a 32-bit word. */
  lemma Or32(a: nat, b: nat)
    requires a < 0x1_0000_0000 && b < 0x1_0000_0000
    ensures Or(a, b) < 0x1_0000_0000
  {
    Pow2Values();
    OrBound(a, b, WORD_BITS);
  }

  /** `1 << k` is a 32-bit word for every `k` below 32. */
  lemma Pow2Below32(k: nat)
    requires k < WORD_BITS
    ensures Pow2(k) < 0x1_0000_0000
  {
    Pow2Values();
    Pow2Less(k, WORD_BITS);
  }

  /** A 32-bit word has no bit at 32 or above. */
  lemma HighBitClear32(a: nat, k: nat)
    requires a < 0x1_0000_0000 && WORD_BITS <= k
    ensures !Bit(a, k)
  {
    Pow2Values();
    HighBitClear(a, WORD_BITS, k);
  }
}
