/** Single bits of the packed 32-bit words of the frame bitmap (src/mm/pmm.c:28-38). */
module Bits {
  /** A bit number as a shift amount. */
  function Shift(k: nat): (i: bv32)
    requires k < 32
    ensures i < 32
  {
    ShiftIsExact(k);
    k as bv32
  }

  lemma ShiftIsExact(k: nat)
    requires k < 32
    ensures (k as bv32) as int == k && k as bv32 < 32
  {
  }

  lemma ShiftInjective(j: nat, k: nat)
    requires j < 32 && k < 32
    ensures Shift(j) == Shift(k) <==> j == k
  {
    ShiftIsExact(j);
    ShiftIsExact(k);
  }

  predicate TestAt(w: bv32, i: bv32)
    requires i < 32
  {
    (w >> i) & 1 == 1
  }

  function SetAt(w: bv32, i: bv32): bv32
    requires i < 32
  {
    w | (1 << i)
  }

  function ClearAt(w: bv32, i: bv32): bv32
    requires i < 32
  {
    w & !(1 << i)
  }

  predicate TestBit(w: bv32, k: nat)
    requires k < 32
  {
    TestAt(w, Shift(k))
  }

  function SetBit(w: bv32, k: nat): bv32
    requires k < 32
  {
    SetAt(w, Shift(k))
  }

  function ClearBit(w: bv32, k: nat): bv32
    requires k < 32
  {
    ClearAt(w, Shift(k))
  }

  lemma OneBitSet(w: bv32, i: bv32, j: bv32)
    requires i < 32 && j < 32
    ensures TestAt(SetAt(w, i), j) == (j == i || TestAt(w, j))
  {
  }

  lemma OneBitCleared(w: bv32, i: bv32, j: bv32)
    requires i < 32 && j < 32
    ensures TestAt(ClearAt(w, i), j) == (j != i && TestAt(w, j))
  {
  }

  /** Setting or clearing a bit changes that bit of the word and no other. */
  lemma OneBitChanges(w: bv32, k: nat, j: nat)
    requires k < 32 && j < 32
    ensures TestBit(SetBit(w, k), j) == (j == k || TestBit(w, j))
    ensures TestBit(ClearBit(w, k), j) == (j != k && TestBit(w, j))
  {
    hide Shift, TestAt, SetAt, ClearAt;
    ShiftInjective(j, k);
    OneBitSet(w, Shift(k), Shift(j));
    OneBitCleared(w, Shift(k), Shift(j));
  }

  lemma ZeroHasNoBits(k: nat)
    requires k < 32
    ensures !TestBit(0, k)
  {
    hide Shift, TestAt;
    ZeroAt(Shift(k));
  }

  lemma ZeroAt(i: bv32)
    requires i < 32
    ensures !TestAt(0, i)
  {
  }


  lemma ShiftOnto(i: bv32)
    requires i < 32
    ensures 0 <= i as int < 32 && Shift(i as int) == i
  {
    ShiftIsExact(i as int);
  }

  function Difference(a: bv32, b: bv32, i: bv32): bv32
    requires i <= 32
  {
    (a ^ b) << (32 - i)
  }

  lemma DifferenceStep(a: bv32, b: bv32, i: bv32)
    requires i < 32 && TestAt(a, i) == TestAt(b, i) && Difference(a, b, i) == 0
    ensures Difference(a, b, i + 1) == 0
  {
  }

  lemma DifferenceEnds(a: bv32, b: bv32)
    ensures Difference(a, b, 0) == 0
    ensures Difference(a, b, 32) == 0 ==> a == b
  {
  }

  lemma EqualAt(a: bv32, b: bv32)
    requires forall i: bv32 :: i < 32 ==> TestAt(a, i) == TestAt(b, i)
    ensures a == b
  {
    hide TestAt, Difference;
    DifferenceEnds(a, b);
    var i: bv32 := 0;
    while i < 32
      invariant i <= 32 && Difference(a, b, i) == 0
    {
      DifferenceStep(a, b, i);
      i := i + 1;
    }
  }

  lemma EqualFromBits(a: bv32, b: bv32)
    requires forall k :: 0 <= k < 32 ==> TestBit(a, k) == TestBit(b, k)
    ensures a == b
  {
    hide Shift, TestAt;
    forall i: bv32 | i < 32
      ensures TestAt(a, i) == TestAt(b, i)
    {
      ShiftOnto(i);
      assert TestBit(a, i as int) == TestBit(b, i as int);
    }
    EqualAt(a, b);
  }

  /** Rounding up to a multiple of 8. */
  function AlignUp8(n: nat): (r: nat)
    ensures r % 8 == 0 && n <= r < n + 8
  {
    (n + 7) / 8 * 8
  }

  lemma AlignedAlready(n: nat)
    ensures AlignUp8(AlignUp8(n)) == AlignUp8(n)
  {
    hide AlignUp8;
  }
}
