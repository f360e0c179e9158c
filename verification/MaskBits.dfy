/** Refresh masks bit by bit, as the kernel and the slot model read them. */
module MaskBits {
  import opened OrderHint
  import opened V4l2Kernel

  lemma {:induction false} NoBits(s: nat)
    ensures !Bit(0, s)
  {
    if s > 0 { NoBits(s - 1); }
  }

  /** A one-slot mask selects that slot and no other. */
  lemma {:induction false} OneBit(s: nat, t: nat)
    ensures Bit(Pow2(s), t) <==> t == s
  {
    if s > 0 && t > 0 {
      OneBit(s - 1, t - 1);
      assert Pow2(s) / 2 == Pow2(s - 1);
    } else if s == 0 && t > 0 {
      NoBits(t - 1);
    }
  }

  /** A mask of ones selects every slot. */
  lemma {:induction false} AllBits(n: nat, t: nat)
    requires t < n
    ensures Bit(Pow2(n) - 1, t)
  {
    assert (Pow2(n) - 1) / 2 == Pow2(n - 1) - 1 && (Pow2(n) - 1) % 2 == 1;
    if t > 0 { AllBits(n - 1, t - 1); }
  }

  /** A nonzero mask has one of its eight bits set. */
  lemma SomeBit(mask: Mask)
    requires mask != 0
    ensures exists t :: 0 <= t < REFS && Bit(mask, t)
  {
    SomeBitBelow(mask, REFS);
  }

  lemma {:induction false} SomeBitBelow(mask: nat, n: nat)
    requires 0 < mask < Pow2(n)
    ensures exists t :: 0 <= t < n && Bit(mask, t)
  {
    if mask % 2 == 1 {
      assert Bit(mask, 0);
    } else {
      SomeBitBelow(mask / 2, n - 1);
      var t :| 0 <= t < n - 1 && Bit(mask / 2, t);
      assert Bit(mask, t + 1);
    }
  }
}
