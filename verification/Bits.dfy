/** Bit operations on machine words modelled as natural numbers. */
module Bits {

  /** The bitwise and of two numbers. */
  function And(x: nat, y: nat): nat
    decreases x
  {
    if x == 0 || y == 0 then 0 else (x % 2) * (y % 2) + 2 * And(x / 2, y / 2)
  }

  function Pow2(k: nat): (r: nat)
    ensures r > 0
  {
    if k == 0 then 1 else 2 * Pow2(k - 1)
  }

  function Shr(x: nat, s: nat): nat {
    if s == 0 then x else Shr(x / 2, s - 1)
  }

  /** x << s in 32-bit arithmetic. */
  function Shl32(x: nat, s: nat): nat {
    if s == 0 then x else (2 * Shl32(x, s - 1)) % 0x1_0000_0000
  }

  /** Bit `j` of the number, the least significant one first. */
  predicate Bit(x: nat, j: nat) {
    Shr(x, j) % 2 == 1
  }

  /** The number whose bits s..w-1 are set. */
  function TopMask(w: nat, s: nat): nat
    requires s <= w
  {
    if w == 0 then 0 else if s > 0 then 2 * TopMask(w - 1, s - 1) else 1 + 2 * TopMask(w - 1, 0)
  }

  lemma {:induction false} TopMaskValue(w: nat, s: nat)
    requires s <= w
    ensures TopMask(w, s) + Pow2(s) == Pow2(w)
    decreases w
  {
    if w > 0 {
      TopMaskValue(w - 1, if s > 0 then s - 1 else 0);
    }
  }

  lemma Pow2Word()
    ensures Pow2(32) == 0x1_0000_0000
  {
    assert Pow2(8) == 256;
    assert Pow2(16) == 0x1_0000 by { assert Pow2(12) == 4096; }
    assert Pow2(24) == 0x100_0000 by { assert Pow2(20) == 0x10_0000; }
    assert Pow2(28) == 0x1000_0000;
  }

  lemma {:induction false} Pow2Grows(s: nat, w: nat)
    requires s <= w
    ensures Pow2(s) <= Pow2(w)
    decreases w
  {
    if s < w {
      Pow2Grows(s, w - 1);
    }
  }

  /** The code's 0xffffffff << s. */
  lemma {:induction false} ShiftedOnes(s: nat)
    requires s <= 32
    ensures Shl32(0xFFFF_FFFF, s) == TopMask(32, s)
    decreases s
  {
    Pow2Word();
    TopMaskValue(32, s);
    if s > 0 {
      ShiftedOnes(s - 1);
      TopMaskValue(32, s - 1);
      Pow2Grows(s, 32);
      DoubleMask(TopMask(32, s - 1), Pow2(s - 1));
    }
  }

  lemma DoubleMask(m: nat, p: nat)
    requires m + p == 0x1_0000_0000 && 0 < 2 * p <= 0x1_0000_0000
    ensures (2 * m) % 0x1_0000_0000 == 0x1_0000_0000 - 2 * p
  {
    assert 2 * m == 0x1_0000_0000 + (0x1_0000_0000 - 2 * p);
  }

  lemma {:induction false} AndAll(x: nat, w: nat)
    requires Shr(x, w) == 0
    ensures And(x, TopMask(w, 0)) == x
    decreases w
  {
    if w > 0 {
      AndAll(x / 2, w - 1);
      assert TopMask(w, 0) / 2 == TopMask(w - 1, 0) && TopMask(w, 0) % 2 == 1;
    }
  }

  lemma AndDouble(x: nat, m: nat)
    ensures And(x, 2 * m) == 2 * And(x / 2, m)
  {
    if x != 0 && m != 0 {
      assert (2 * m) / 2 == m && (2 * m) % 2 == 0;
    }
  }

  /** Masking the low `s` bits away compares what is left after shifting them out. */
  lemma {:induction false} MaskIsShift(x: nat, y: nat, w: nat, s: nat)
    requires s <= w && Shr(x, w) == 0 && Shr(y, w) == 0
    ensures And(x, TopMask(w, s)) == And(y, TopMask(w, s)) <==> Shr(x, s) == Shr(y, s)
    decreases w
  {
    if s == 0 {
      AndAll(x, w);
      AndAll(y, w);
    } else {
      AndDouble(x, TopMask(w - 1, s - 1));
      AndDouble(y, TopMask(w - 1, s - 1));
      MaskIsShift(x / 2, y / 2, w - 1, s - 1);
    }
  }

  lemma {:induction false} ShrStep(x: nat, s: nat)
    ensures Shr(x, s + 1) == Shr(x, s) / 2
    decreases s
  {
    if s > 0 {
      ShrStep(x / 2, s - 1);
    }
  }

  lemma {:induction false} ShiftIsBits(x: nat, y: nat, w: nat, s: nat)
    requires s <= w && Shr(x, w) == 0 && Shr(y, w) == 0
    ensures Shr(x, s) == Shr(y, s) <==> forall j: nat | s <= j < w :: Bit(x, j) == Bit(y, j)
    decreases w - s
  {
    if s < w {
      ShrStep(x, s);
      ShrStep(y, s);
      ShiftIsBits(x, y, w, s + 1);
      assert Bit(x, s) == (Shr(x, s) % 2 == 1) && Bit(y, s) == (Shr(y, s) % 2 == 1);
    }
  }

  lemma {:induction false} WordFits(x: nat, w: nat)
    requires x < Pow2(w)
    ensures Shr(x, w) == 0
    decreases w
  {
    if w > 0 {
      WordFits(x / 2, w - 1);
    }
  }

  /** Two 32-bit words agree under the mask of their top 32 - s bits exactly when those bits agree. */
  lemma MaskIsBits(x: nat, y: nat, s: nat)
    requires s <= 32 && x < 0x1_0000_0000 && y < 0x1_0000_0000
    ensures And(x, TopMask(32, s)) == And(y, TopMask(32, s)) <==> forall j: nat | s <= j < 32 :: Bit(x, j) == Bit(y, j)
  {
    Pow2Word();
    WordFits(x, 32);
    WordFits(y, 32);
    MaskIsShift(x, y, 32, s);
    ShiftIsBits(x, y, 32, s);
  }

  lemma {:induction false} ZeroHasNoBits(j: nat)
    ensures !Bit(0, j)
    decreases j
  {
    if j > 0 {
      ZeroHasNoBits(j - 1);
      assert Bit(0, j) == Bit(0, j - 1);
    }
  }

  lemma {:induction false} AndBit(x: nat, m: nat, j: nat)
    ensures Bit(And(x, m), j) <==> Bit(x, j) && Bit(m, j)
    decreases j
  {
    if x == 0 || m == 0 {
      ZeroHasNoBits(j);
    } else if j > 0 {
      AndBit(x / 2, m / 2, j - 1);
      assert And(x, m) / 2 == And(x / 2, m / 2);
    } else {
      assert And(x, m) % 2 == (x % 2) * (m % 2);
    }
  }

  lemma {:induction false} BelowPow2(x: nat)
    ensures x < Pow2(x)
  {
    if x > 0 {
      BelowPow2(x - 1);
    }
  }

  /** A number is its bits. */
  lemma SameBitsSameNumber(x: nat, y: nat)
    requires forall j: nat :: Bit(x, j) == Bit(y, j)
    ensures x == y
  {
    var w := x + y;
    BelowPow2(x);
    BelowPow2(y);
    Pow2Grows(x, w);
    Pow2Grows(y, w);
    WordFits(x, w);
    WordFits(y, w);
    ShiftIsBits(x, y, w, 0);
  }

  /** Two numbers agree under a mask exactly when they agree on its bits. */
  lemma AgreeUnderMask(x: nat, y: nat, m: nat)
    ensures And(x, m) == And(y, m) <==> forall j: nat :: Bit(m, j) ==> Bit(x, j) == Bit(y, j)
  {
    forall j: nat
      ensures Bit(And(x, m), j) == (Bit(x, j) && Bit(m, j)) && Bit(And(y, m), j) == (Bit(y, j) && Bit(m, j))
    {
      AndBit(x, m, j);
      AndBit(y, m, j);
    }
    if forall j: nat :: Bit(m, j) ==> Bit(x, j) == Bit(y, j) {
      SameBitsSameNumber(And(x, m), And(y, m));
    }
  }

  lemma {:induction false} SetBit(x: nat, k: nat, j: nat)
    requires !Bit(x, k)
    ensures Bit(x + Pow2(k), j) <==> Bit(x, j) || j == k
    decreases k
  {
    if k == 0 {
      assert (x + 1) / 2 == x / 2;
    } else {
      assert (x + Pow2(k)) / 2 == x / 2 + Pow2(k - 1) && (x + Pow2(k)) % 2 == x % 2;
      if j > 0 {
        SetBit(x / 2, k - 1, j - 1);
      }
    }
  }
}
