/** The physical frame allocator (src/mm/pmm.c): one bit per 4 KiB frame, packed in 32-bit
    words, with a running count of the frames in use. */
module Pmm {
  import opened Wrappers
  import opened Bits
  import opened Multiboot

  const FRAME_SIZE := 4096
  const MAX_FRAMES := 1024 * 1024
  const U64_LIMIT := 0x1_0000_0000_0000_0000
  const MIB := 0x100000

  function Max(a: nat, b: nat): nat { if a < b then b else a }
  function Min(a: nat, b: nat): nat { if a < b then a else b }

  predicate AtLeast(f: nat, lo: nat) { lo <= f }

  /** The frames lo, lo + 1, ..., hi - 1. */
  function FrameRange(lo: nat, hi: nat): (r: set<nat>)
    ensures forall f :: f in r <==> lo <= f < hi
  {
    set f: nat | f < hi && AtLeast(f, lo)
  }

  lemma FrameRangeGrows(lo: nat, hi: nat)
    requires lo <= hi
    ensures FrameRange(lo, hi + 1) == FrameRange(lo, hi) + {hi}
  {
  }

  lemma FrameRangeSize(lo: nat, hi: nat)
    requires lo <= hi
    ensures |FrameRange(lo, hi)| == hi - lo
    decreases hi - lo
  {
    if lo < hi {
      FrameRangeSize(lo, hi - 1);
      FrameRangeGrows(lo, hi - 1);
    }
  }

  /** The first frame at or above `from` that is not in use, or `total`. */
  ghost function FirstFree(used: set<nat>, total: nat, from: nat): (f: nat)
    requires from <= total
    ensures from <= f <= total
    ensures f < total ==> f !in used
    ensures forall g :: from <= g < f ==> g in used
    decreases total - from
  {
    if from == total || from !in used then from else FirstFree(used, total, from + 1)
  }

  ghost function NextFrame(used: set<nat>, total: nat): (f: nat)
    ensures f <= total && (f < total ==> f !in used)
  {
    FirstFree(used, total, 0)
  }

  /** No frame is free. */
  ghost predicate Exhausted(used: set<nat>, total: nat) { NextFrame(used, total) == total }

  /** At most one frame is free. */
  ghost predicate AlmostExhausted(used: set<nat>, total: nat) {
    Exhausted(used + {NextFrame(used, total)}, total)
  }

  lemma ExhaustedMeans(used: set<nat>, total: nat)
    ensures Exhausted(used, total) <==> forall g: nat :: g < total ==> g in used
  {
  }

  lemma LastFrameBack(used: set<nat>, total: nat, f: nat)
    requires Exhausted(used, total)
    ensures AlmostExhausted(used, total) && AlmostExhausted(used - {f}, total)
  {
    hide NextFrame;
    ExhaustedMeans(used, total);
    var less := used - {f};
    forall g: nat | g < total ensures g in less + {NextFrame(less, total)} {
      if g == f && g !in less + {NextFrame(less, total)} { NextIsOnly(less, total, f); }
    }
    ExhaustedMeans(less + {NextFrame(less, total)}, total);
    ExhaustedMeans(used + {NextFrame(used, total)}, total);
  }

  lemma NextIsOnly(used: set<nat>, total: nat, f: nat)
    requires f < total && f !in used && forall g: nat :: g < total && g != f ==> g in used
    ensures NextFrame(used, total) == f
  {
  }

  /** How many frames below 511 are free. */
  ghost function Spare(used: set<nat>): int {
    511 - |used * FrameRange(0, 511)|
  }

  /** From used0 to used1 at most n frames were taken, always the lowest free one; as long as
      the low frames sufficed, only low frames were taken. */
  ghost predicate TookLow(used0: set<nat>, used1: set<nat>, n: nat) {
    && used0 <= used1 && |used1 - used0| <= n
    && (Spare(used0) >= n ==>
          Spare(used1) >= Spare(used0) - n && forall f :: f in used1 && f !in used0 ==> f < 511)
  }

  lemma TookNone(used: set<nat>, n: nat)
    ensures TookLow(used, used, n)
  {
    assert used - used == {};
  }

  lemma TookNext(used: set<nat>, total: nat)
    requires NextFrame(used, total) < total
    ensures TookLow(used, used + {NextFrame(used, total)}, 1)
  {
    var f := NextFrame(used, total);
    var low := FrameRange(0, 511);
    assert used + {f} - used == {f};
    if f >= 511 {
      assert used * low == low by {
        forall g | g in low ensures g in used { }
      }
      FrameRangeSize(0, 511);
    } else {
      assert (used + {f}) * low == used * low + {f};
    }
  }

  lemma TookLeaves(a: set<nat>, b: set<nat>, n: nat)
    requires TookLow(a, b, n)
    ensures Spare(a) >= n ==> Spare(b) >= Spare(a) - n
  {
    hide Spare;
  }

  lemma TookFewer(a: set<nat>, b: set<nat>, m: nat, n: nat)
    requires TookLow(a, b, m) && m <= n
    ensures TookLow(a, b, n)
  {
    hide Spare;
  }

  lemma TookTwice(a: set<nat>, b: set<nat>, c: set<nat>, m: nat, n: nat)
    requires TookLow(a, b, m) && TookLow(b, c, n)
    ensures TookLow(a, c, m + n)
  {
    hide Spare;
    assert c - a == (b - a) + (c - b);
  }

  /** None of the next n frames handed out is frame 511, whose own page of the window shows
      something else (src/mm/paging.c:36-56). */
  ghost predicate Avoids511(used: set<nat>, total: nat, n: int) {
    n <= 0 || 511 in used || total <= 511 || Spare(used) >= n
  }

  /** The next n frames that pmm_alloc_frame hands out. */
  ghost function NextFrames(used: set<nat>, total: nat, n: nat): set<nat>
    decreases n
  {
    var f := NextFrame(used, total);
    if n == 0 || f == total then {} else {f} + NextFrames(used + {f}, total, n - 1)
  }

  /** Avoids511 says no more than it has to. */
  lemma {:induction false} Avoids511Exactly(used: set<nat>, total: nat, n: nat)
    ensures Avoids511(used, total, n) <==> 511 !in NextFrames(used, total, n)
    decreases n
  {
    var f := NextFrame(used, total);
    if n > 0 && f < total {
      Avoids511Exactly(used + {f}, total, n - 1);
      NextAgainst511(used, total);
    } else if n > 0 {
      SpareOfExhausted(used, total);
    }
  }

  /** How taking the next frame moves the count of low frames. */
  lemma NextAgainst511(used: set<nat>, total: nat)
    requires NextFrame(used, total) < total
    ensures var f := NextFrame(used, total);
            && Spare(used + {f}) == (if f < 511 then Spare(used) - 1 else Spare(used))
            && (f < 511 <==> Spare(used) > 0 && (exists g :: 0 <= g < 511 && g < total && g !in used))
            && (f >= 511 ==> Spare(used) == 0) && (f > 511 ==> 511 in used)
            && Spare(used) >= 0
  {
    var f := NextFrame(used, total);
    var low := FrameRange(0, 511);
    FrameRangeSize(0, 511);
    LowPart(used);
    if f >= 511 {
      assert used * low == low by { forall g | g in low ensures g in used { } }
      assert (used + {f}) * low == used * low;
    } else {
      assert (used + {f}) * low == used * low + {f};
      LowPart(used + {f});
    }
  }

  lemma LowPart(used: set<nat>)
    ensures Spare(used) >= 0
  {
    FrameRangeSize(0, 511);
    SubsetCount(used * FrameRange(0, 511), FrameRange(0, 511));
  }

  lemma SubsetCount(a: set<nat>, b: set<nat>)
    requires a <= b
    ensures |a| <= |b|
  {
    assert b == a + (b - a);
  }

  lemma SpareOfExhausted(used: set<nat>, total: nat)
    requires NextFrame(used, total) == total
    ensures total > 511 ==> 511 in used
  {
  }

  /** Having taken m frames, n more are still clear of frame 511 if m + n were. */
  lemma StillAvoids511(used0: set<nat>, used1: set<nat>, total: nat, m: nat, n: int)
    requires Avoids511(used0, total, m + n) && TookLow(used0, used1, m)
    ensures Avoids511(used1, total, n)
  {
    hide Spare;
  }

  lemma FewerAvoid511(used: set<nat>, total: nat, m: int, n: int)
    requires Avoids511(used, total, n) && m <= n
    ensures Avoids511(used, total, m)
  {
    hide Spare;
  }

  lemma NextIsNot511(used: set<nat>, total: nat)
    requires Avoids511(used, total, 1) && NextFrame(used, total) < total
    ensures NextFrame(used, total) != 511
  {
    NextAgainst511(used, total);
  }

  /** Freeing frames other than 511 keeps the next n frames clear of it. */
  lemma FreeingAvoids511(used0: set<nat>, used1: set<nat>, total: nat, n: int)
    requires Avoids511(used0, total, n) && used1 <= used0 && (511 in used0 ==> 511 in used1)
    ensures Avoids511(used1, total, n)
  {
    var low := FrameRange(0, 511);
    SubsetCount(used1 * low, used0 * low);
  }

  ghost predicate FreeRun(used: set<nat>, total: nat, start: nat, count: nat) {
    start + count <= total && forall f :: start <= f < start + count ==> f !in used
  }

  lemma IsRun(used: set<nat>, total: nat, start: nat, count: nat)
    requires start + count <= total
    requires forall f :: start <= f < start + count ==> f !in used
    ensures FreeRun(used, total, start, count)
  {
  }

  /** For a single frame the lowest run is the lowest free frame. */
  lemma SingleRun(used: set<nat>, total: nat)
    ensures var f := NextFrame(used, total);
            && (f < total ==> FreeRun(used, total, f, 1) && FrameRange(f, f + 1) == {f})
            && (f >= total ==> forall s: nat :: !FreeRun(used, total, s, 1))
            && (forall t :: 0 <= t < f ==> !FreeRun(used, total, t, 1))
  {
    var f := NextFrame(used, total);
    forall t: nat | t < f ensures !FreeRun(used, total, t, 1) {
      assert t in used;
    }
  }

  lemma RunOutside(used: set<nat>, total: nat, start: nat, count: nat)
    requires FreeRun(used, total, start, count)
    ensures used + FrameRange(start, start + count) - FrameRange(start, start + count) == used
  {
  }

  lemma NotRun(used: set<nat>, total: nat, start: nat, count: nat, f: nat)
    requires start <= f < start + count && f in used
    ensures !FreeRun(used, total, start, count)
  {
  }

  lemma RunEnds(used: set<nat>, total: nat, start: nat, count: nat)
    requires start + count > total
    ensures !FreeRun(used, total, start, count)
  {
  }

  /** The frames a memory-map entry decides: whole-frame rounding down for available memory
      (src/mm/pmm.c:131-132), rounding the end up for everything else (src/mm/pmm.c:44-45). */
  predicate Covers(e: MmapEntry, f: nat) {
    if e.kind == MEMORY_AVAILABLE
    then e.base / FRAME_SIZE <= f < (e.base + e.length) / FRAME_SIZE
    else e.base / FRAME_SIZE <= f < (e.base + e.length + FRAME_SIZE - 1) / FRAME_SIZE
  }

  /** The last entry covering f is not available memory. */
  ghost predicate Reserved(es: seq<MmapEntry>, f: nat) {
    exists i :: && 0 <= i < |es| && Covers(es[i], f) && es[i].kind != MEMORY_AVAILABLE
                && forall j :: i < j < |es| ==> !Covers(es[j], f)
  }

  ghost predicate Covered(es: seq<MmapEntry>, f: nat) {
    exists i :: 0 <= i < |es| && Covers(es[i], f)
  }

  /** What the second pass has decided about f after the entries `es`, starting from `initial`. */
  ghost predicate Decided(es: seq<MmapEntry>, initial: set<nat>, f: nat) {
    Reserved(es, f) || (f in initial && !Covered(es, f))
  }

  lemma DecidedNext(es: seq<MmapEntry>, e: MmapEntry, initial: set<nat>, f: nat)
    ensures Decided(es + [e], initial, f) <==>
            if Covers(e, f) then e.kind != MEMORY_AVAILABLE else Decided(es, initial, f)
  {
    var all := es + [e];
    assert all[|es|] == e;
    if Covers(e, f) {
      assert Covered(all, f);
    } else {
      if Reserved(es, f) {
        var i :| && 0 <= i < |es| && Covers(es[i], f) && es[i].kind != MEMORY_AVAILABLE
                 && forall j :: i < j < |es| ==> !Covers(es[j], f);
        assert all[i] == es[i];
        assert Reserved(all, f);
      }
      if Reserved(all, f) {
        var i :| && 0 <= i < |all| && Covers(all[i], f) && all[i].kind != MEMORY_AVAILABLE
                 && forall j :: i < j < |all| ==> !Covers(all[j], f);
        assert all[i] == es[i];
        assert forall j :: i < j < |es| ==> all[j] == es[j];
        assert Reserved(es, f);
      }
      if Covered(es, f) {
        var i :| 0 <= i < |es| && Covers(es[i], f);
        assert all[i] == es[i];
      }
      if Covered(all, f) {
        var i :| 0 <= i < |all| && Covers(all[i], f);
        assert all[i] == es[i];
      }
    }
  }

  lemma BitmapIsKernelOwned(kernelEnd: nat, total: nat, f: nat)
    requires kernelEnd / FRAME_SIZE <= f < CeilFrame(kernelEnd + BitmapBytes(total))
    ensures KernelOwned(kernelEnd, total, f)
  {
  }

  lemma BitmapBytesBound(total: nat)
    requires total <= MAX_FRAMES
    ensures BitmapBytes(total) <= MAX_FRAMES / 4
  {
  }

  /** The four final marks add exactly the kernel's frames: the VGA text buffer, marked last, is
      inside the low megabyte. */
  lemma KernelMarks(before: set<nat>, total: nat, kernelEnd: nat, after: set<nat>)
    requires MIB <= kernelEnd
    requires after == before + FrameRange(0, Min(CeilFrame(0 + MIB), total))
                             + FrameRange(MIB / FRAME_SIZE, Min(CeilFrame(MIB + (kernelEnd - MIB)), total))
                             + FrameRange(kernelEnd / FRAME_SIZE, Min(CeilFrame(kernelEnd + BitmapBytes(total)), total))
                             + FrameRange(0xB8000 / FRAME_SIZE, Min(CeilFrame(0xB8000 + 0x8000), total))
    ensures forall f: nat :: f in after <==> f in before || (f < total && KernelOwned(kernelEnd, total, f))
  {
    forall f: nat ensures f in after <==> f in before || (f < total && KernelOwned(kernelEnd, total, f)) {
      hide FrameRange;
      KernelRanges(total, kernelEnd, f);
      hide CeilFrame, BitmapBytes, KernelOwned, Min;
    }
  }

  lemma KernelRanges(total: nat, kernelEnd: nat, f: nat)
    requires MIB <= kernelEnd
    ensures (f < total && KernelOwned(kernelEnd, total, f)) <==>
      || 0 <= f < Min(CeilFrame(0 + MIB), total)
      || MIB / FRAME_SIZE <= f < Min(CeilFrame(MIB + (kernelEnd - MIB)), total)
      || kernelEnd / FRAME_SIZE <= f < Min(CeilFrame(kernelEnd + BitmapBytes(total)), total)
      || 0xB8000 / FRAME_SIZE <= f < Min(CeilFrame(0xB8000 + 0x8000), total)
  {
    hide BitmapBytes;
    assert CeilFrame(0xB8000 + 0x8000) <= CeilFrame(MIB);
  }

  /** What one entry does to the set of frames in use. */
  ghost function ApplyEntry(before: set<nat>, e: MmapEntry, total: nat): set<nat> {
    if e.kind == MEMORY_AVAILABLE
    then before - FrameRange(e.base / FRAME_SIZE, (e.base + e.length) / FRAME_SIZE)
    else before + FrameRange(e.base / FRAME_SIZE, Min(CeilFrame(e.base + e.length), total))
  }

  /** The frames in use after the second pass has applied the entries `es` in order. */
  ghost function AfterPass(es: seq<MmapEntry>, initial: set<nat>, total: nat): set<nat> {
    if es == [] then initial
    else ApplyEntry(AfterPass(es[..|es| - 1], initial, total), es[|es| - 1], total)
  }

  lemma AfterPassNothing(initial: set<nat>, total: nat)
    ensures AfterPass([], initial, total) == initial
  {
  }

  lemma AfterPassNext(es: seq<MmapEntry>, i: nat, initial: set<nat>, total: nat)
    requires i < |es|
    ensures AfterPass(es[..0], initial, total) == initial
    ensures AfterPass(es[..i + 1], initial, total) == ApplyEntry(AfterPass(es[..i], initial, total), es[i], total)
  {
    assert es[..i + 1][..i] == es[..i];
  }

  lemma {:induction false} AfterPassIsDecided(es: seq<MmapEntry>, initial: set<nat>, total: nat, f: nat)
    requires initial <= FrameRange(0, total)
    ensures f in AfterPass(es, initial, total) <==> f < total && Decided(es, initial, f)
  {
    if es != [] {
      var front, e := es[..|es| - 1], es[|es| - 1];
      assert es == front + [e];
      AfterPassIsDecided(front, initial, total, f);
      DecidedNext(front, e, initial, f);
    }
  }

  /** Reserving the kernel's frames after the second pass gives the characterisation: the
      bitmap's own frames, marked first, are reserved again at the end. */
  lemma KernelMarksLast(es: seq<MmapEntry>, kernelEnd: nat, total: nat, initial: set<nat>, final: set<nat>)
    requires initial <= FrameRange(0, total)
    requires forall f: nat :: f in initial ==> KernelOwned(kernelEnd, total, f)
    requires forall f: nat :: f in final <==>
               f in AfterPass(es, initial, total) || (f < total && KernelOwned(kernelEnd, total, f))
    ensures forall f: nat :: f in final <==> f < total && (KernelOwned(kernelEnd, total, f) || Reserved(es, f))
  {
    forall f: nat
      ensures f in final <==> f < total && (KernelOwned(kernelEnd, total, f) || Reserved(es, f))
    {
      AfterPassIsDecided(es, initial, total, f);
    }
  }

  ghost function HighestEnd(es: seq<MmapEntry>): (m: nat)
    ensures forall i :: 0 <= i < |es| ==> es[i].base + es[i].length <= m
    ensures m == 0 || exists i :: 0 <= i < |es| && es[i].base + es[i].length == m
  {
    if es == [] then 0
    else
      var last := |es| - 1;
      Max(HighestEnd(es[..last]), es[last].base + es[last].length)
  }

  /** No end address wraps 64 bits, even after rounding up. */
  predicate NoWrap(es: seq<MmapEntry>) {
    forall i :: 0 <= i < |es| ==> es[i].base + es[i].length + FRAME_SIZE < U64_LIMIT
  }

  /** pmm_init's bitmap size in bytes: whole 32-bit words. */
  function BitmapBytes(total: nat): nat {
    (total + 31) / 32 * 4
  }

  function CeilFrame(addr: nat): nat {
    (addr + FRAME_SIZE - 1) / FRAME_SIZE
  }

  /** What pmm_init reserves whatever the map says: low memory, the image, the bitmap. */
  predicate KernelOwned(kernelEnd: nat, total: nat, f: nat) {
    || f < CeilFrame(MIB)
    || MIB / FRAME_SIZE <= f < CeilFrame(kernelEnd)
    || kernelEnd / FRAME_SIZE <= f < CeilFrame(kernelEnd + BitmapBytes(total))
  }

  /** Bit f of the packed words is set exactly for the frames in `used`. */
  ghost predicate Encodes(words: seq<bv32>, used: set<nat>) {
    forall f :: 0 <= f < 32 * |words| ==> (f in used <==> TestBit(words[f / 32], f % 32))
  }

  /** The memory-map tag, when there is one, is well formed. */
  predicate MapUsable(mbi: seq<U32>)
    requires WellFormed(mbi)
  {
    var tag := FirstTag(mbi, TAG_MMAP);
    tag.Some? ==> MmapTagOk(mbi, tag.value) && NoWrap(Entries(mbi, tag.value))
  }

  /** Exactly which frames are tracked and which of them are in use after pmm_init. */
  ghost predicate Initialised(mbi: seq<U32>, kernelEnd: nat, total: nat, used: set<nat>)
    requires WellFormed(mbi) && MapUsable(mbi)
  {
    match FirstTag(mbi, TAG_MMAP)
    case None => total == 0 && used == {}
    case Some(tag) =>
      var es := Entries(mbi, tag);
      && total == Min(HighestEnd(es) / FRAME_SIZE, MAX_FRAMES)
      && forall f: nat :: f in used <==> f < total && (KernelOwned(kernelEnd, total, f) || Reserved(es, f))
  }

  /** Which boots leave frame 511 in use: those whose kernel image and bitmap reach it, or whose
      map reserves it. */
  lemma Frame511AtBoot(mbi: seq<U32>, kernelEnd: nat, total: nat, used: set<nat>)
    requires WellFormed(mbi) && MapUsable(mbi) && MIB <= kernelEnd && Initialised(mbi, kernelEnd, total, used)
    ensures var tag := FirstTag(mbi, TAG_MMAP);
            511 in used <==>
              tag.Some? && 511 < total && (kernelEnd + BitmapBytes(total) > 511 * FRAME_SIZE || Reserved(Entries(mbi, tag.value), 511))
  {
    hide BitmapBytes, Reserved, HighestEnd;
    Owns511(kernelEnd, total);
  }

  lemma Owns511(kernelEnd: nat, total: nat)
    requires MIB <= kernelEnd
    ensures KernelOwned(kernelEnd, total, 511) <==> kernelEnd + BitmapBytes(total) > 511 * FRAME_SIZE
  {
    hide BitmapBytes;
  }

  class FrameAllocator {
    const bitmap: array<bv32>
    const totalFrames: nat
    var usedFrames: nat

    /** The frames whose bit is set. */
    ghost var used: set<nat>

    ghost predicate Valid()
      reads this, bitmap
    {
      && totalFrames <= MAX_FRAMES
      && 4 * bitmap.Length == BitmapBytes(totalFrames)
      && Encodes(bitmap[..], used)
      && (forall f :: f in used ==> f < totalFrames)
      && usedFrames == |used|
    }

    lemma ValidMeans()
      requires Valid()
      ensures Encodes(bitmap[..], used) && 32 * bitmap.Length >= totalFrames
      ensures totalFrames <= MAX_FRAMES && forall f :: f in used ==> f < totalFrames
    {
      hide Encodes;
    }

    lemma CountDetermined()
      requires Valid()
      ensures usedFrames == |used|
    {
      hide Encodes;
    }

    predicate BitmapTest(f: nat)
      reads this, bitmap
      requires Valid() && f < totalFrames
      ensures BitmapTest(f) <==> f in used
    {
      TestBit(bitmap[f / 32], f % 32)
    }

    /** bitmap_set and the counter update that accompanies every use of it. */
    method MarkUsed(f: nat)
      requires Valid() && f < totalFrames && f !in used
      modifies this, bitmap
      ensures Valid() && used == old(used) + {f}
    {
      hide TestBit, SetBit, ClearBit;
      forall k | 0 <= k < 32
        ensures TestBit(SetBit(bitmap[f / 32], f % 32), k) == (k == f % 32 || TestBit(bitmap[f / 32], k))
      {
        OneBitChanges(bitmap[f / 32], f % 32, k);
      }
      bitmap[f / 32] := SetBit(bitmap[f / 32], f % 32);
      usedFrames := usedFrames + 1;
      used := used + {f};
    }

    /** bitmap_clear and the counter update that accompanies every use of it. */
    method MarkFree(f: nat)
      requires Valid() && f in used
      modifies this, bitmap
      ensures Valid() && used == old(used) - {f}
    {
      hide TestBit, SetBit, ClearBit;
      forall k | 0 <= k < 32
        ensures TestBit(ClearBit(bitmap[f / 32], f % 32), k) == (k != f % 32 && TestBit(bitmap[f / 32], k))
      {
        OneBitChanges(bitmap[f / 32], f % 32, k);
      }
      bitmap[f / 32] := ClearBit(bitmap[f / 32], f % 32);
      usedFrames := usedFrames - 1;
      used := used - {f};
    }

    /** pmm_mark_region with used = 1, the only way it is called. */
    method MarkRegion(base: nat, size: nat)
      requires Valid()
      requires base + size + FRAME_SIZE - 1 < U64_LIMIT
      modifies this, bitmap
      ensures Valid()
      ensures used == old(used) + FrameRange(base / FRAME_SIZE, Min(CeilFrame(base + size), totalFrames))
      ensures forall f: nat :: f in used <==>
                f in old(used) || (f < totalFrames && base / FRAME_SIZE <= f && f * FRAME_SIZE < base + size)
    {
      hide Encodes, Valid, FrameRange;
      var f := base / FRAME_SIZE;
      var end := CeilFrame(base + size);
      while f < end
        invariant Valid() && base / FRAME_SIZE <= f <= end
        invariant used == old(used) + FrameRange(base / FRAME_SIZE, Min(f, totalFrames))
      {
        if f >= totalFrames { break; }
        FrameRangeGrows(base / FRAME_SIZE, f);
        if !BitmapTest(f) { MarkUsed(f); }
        f := f + 1;
      }
    }

    /** The body of the second pass for an available entry (src/mm/pmm.c:129-138). */
    method FreeRegion(e: MmapEntry)
      requires Valid()
      modifies this, bitmap
      ensures Valid()
      ensures used == old(used) - FrameRange(e.base / FRAME_SIZE, (e.base + e.length) / FRAME_SIZE)
    {
      hide Encodes, Valid, FrameRange;
      var f := e.base / FRAME_SIZE;
      var end := (e.base + e.length) / FRAME_SIZE;
      while f < end
        invariant Valid() && e.base / FRAME_SIZE <= f
        invariant used == old(used) - FrameRange(e.base / FRAME_SIZE, f)
        invariant f <= end || f == e.base / FRAME_SIZE
      {
        if f >= totalFrames {
          ValidMeans();
          break;
        }
        FrameRangeGrows(e.base / FRAME_SIZE, f);
        if BitmapTest(f) { MarkFree(f); }
        f := f + 1;
      }
    }

    /** pmm_init.  `kernelEnd` is the physical end of the kernel image, where the bitmap goes;
        the bitmap's memory reads as zero before the first mark. */
    constructor (mbi: seq<U32>, kernelEnd: nat)
      requires WellFormed(mbi)
      requires MIB <= kernelEnd && kernelEnd + MAX_FRAMES < U64_LIMIT
      requires MapUsable(mbi)
      ensures Valid() && fresh(bitmap)
      ensures Initialised(mbi, kernelEnd, totalFrames, used)
    {
      var tag := FindTag(mbi, TAG_MMAP);
      var total := 0;
      var es: seq<MmapEntry> := [];
      if tag.Some? {
        es := Entries(mbi, tag.value);
        var maxAddr := MaxAddress(es);
        total := Min(maxAddr / FRAME_SIZE, MAX_FRAMES);
      }
      totalFrames := total;
      bitmap := new bv32[(total + 31) / 32](_ => 0);
      usedFrames := 0;
      used := {};
      new;
      forall k | 0 <= k < 32 ensures !TestBit(0, k) { ZeroHasNoBits(k); }
      hide TestBit, Reserved, KernelOwned, HighestEnd;
      assert Valid();
      hide Encodes;
      if tag.Some? { MarkAll(es, kernelEnd); }
    }

    /** All the marking of pmm_init: the bitmap, the memory map, and the kernel's own frames. */
    method MarkAll(es: seq<MmapEntry>, kernelEnd: nat)
      requires Valid() && NoWrap(es) && used == {}
      requires MIB <= kernelEnd && kernelEnd + MAX_FRAMES < U64_LIMIT
      modifies this, bitmap
      ensures Valid()
      ensures forall f: nat :: f in used <==> f < totalFrames && (Reserved(es, f) || KernelOwned(kernelEnd, totalFrames, f))
    {
      hide Encodes, Reserved, KernelOwned;
      MarkRegion(kernelEnd, BitmapBytes(totalFrames));
      forall f: nat | f in used ensures KernelOwned(kernelEnd, totalFrames, f) {
        BitmapIsKernelOwned(kernelEnd, totalFrames, f);
      }
      ghost var initial := used;
      SecondPass(es);
      MarkKernel(kernelEnd);
      KernelMarksLast(es, kernelEnd, totalFrames, initial, used);
    }

    /** The second pass: each entry in turn frees or reserves the frames it covers. */
    method SecondPass(es: seq<MmapEntry>)
      requires Valid() && NoWrap(es)
      modifies this, bitmap
      ensures Valid() && used == AfterPass(es, old(used), totalFrames)
    {
      hide Encodes, AfterPass, Valid, FrameRange, CeilFrame;
      var i := 0;
      if es != [] { AfterPassNext(es, 0, used, totalFrames); } else { AfterPassNothing(used, totalFrames); }
      while i < |es|
        invariant 0 <= i <= |es| && Valid()
        invariant used == AfterPass(es[..i], old(used), totalFrames)
      {
        AfterPassNext(es, i, old(used), totalFrames);
        if es[i].kind == MEMORY_AVAILABLE {
          FreeRegion(es[i]);
        } else {
          MarkRegion(es[i].base, es[i].length);
        }
        i := i + 1;
      }
      assert es[..i] == es;
    }

    /** The unconditional reservations that end pmm_init; the last one is inside the first. */
    method MarkKernel(kernelEnd: nat)
      requires Valid()
      requires MIB <= kernelEnd && kernelEnd + MAX_FRAMES < U64_LIMIT
      modifies this, bitmap
      ensures Valid()
      ensures forall f: nat :: f in used <==>
                f in old(used) || (f < totalFrames && KernelOwned(kernelEnd, totalFrames, f))
    {
      hide Encodes, Valid, FrameRange, CeilFrame, BitmapBytes, KernelOwned;
      ValidMeans();
      BitmapBytesBound(totalFrames);
      MarkRegion(0, MIB);
      MarkRegion(MIB, kernelEnd - MIB);
      MarkRegion(kernelEnd, BitmapBytes(totalFrames));
      MarkRegion(0xB8000, 0x8000);
      KernelMarks(old(used), totalFrames, kernelEnd, used);
    }

    /** The first pass: the highest end address of any entry. */
    static method MaxAddress(es: seq<MmapEntry>) returns (maxAddr: nat)
      requires NoWrap(es)
      ensures maxAddr == HighestEnd(es)
    {
      maxAddr := 0;
      for i := 0 to |es|
        invariant maxAddr == HighestEnd(es[..i])
      {
        assert es[..i + 1][..i] == es[..i];
        var end := es[i].base + es[i].length;
        if end > maxAddr { maxAddr := end; }
      }
      assert es[..|es|] == es;
    }

    /** pmm_alloc_frame: the lowest free frame, or 0. */
    method AllocFrame() returns (addr: nat)
      requires Valid()
      modifies this, bitmap
      ensures Valid()
      ensures var f := NextFrame(old(used), totalFrames);
              if f < totalFrames then addr == f * FRAME_SIZE && used == old(used) + {f}
              else addr == 0 && used == old(used)
    {
      hide Encodes;
      var i := 0;
      while i < totalFrames
        invariant i <= totalFrames && used == old(used) && Valid()
        invariant NextFrame(used, totalFrames) == FirstFree(used, totalFrames, i)
      {
        if !BitmapTest(i) {
          MarkUsed(i);
          return i * FRAME_SIZE;
        }
        i := i + 1;
      }
      return 0;
    }

    /** pmm_alloc_frames: the lowest run of `count` free frames, or 0. */
    method AllocFrames(count: nat) returns (addr: nat, ghost run: Option<nat>)
      requires Valid()
      modifies this, bitmap
      ensures Valid()
      ensures run.Some? <==> count > 0 && exists s: nat :: FreeRun(old(used), totalFrames, s, count)
      ensures run.None? ==> addr == 0 && used == old(used)
      ensures run.Some? ==>
        && var s := run.value;
        && FreeRun(old(used), totalFrames, s, count)
        && (forall t :: 0 <= t < s ==> !FreeRun(old(used), totalFrames, t, count))
        && addr == s * FRAME_SIZE
        && used == old(used) + FrameRange(s, s + count)
    {
      hide Encodes;
      hide FreeRun, FrameRange, NextFrame;
      if count == 0 { return 0, None; }
      if count == 1 {
        ghost var first := NextFrame(used, totalFrames);
        addr := AllocFrame();
        run := if first < totalFrames then Some(first) else None;
        SingleRun(old(used), totalFrames);
        return;
      }
      addr, run := AllocRun(count);
    }

    /** The scan for two or more frames (src/mm/pmm.c:179-197). */
    method AllocRun(count: nat) returns (addr: nat, ghost run: Option<nat>)
      requires Valid() && count > 1
      modifies this, bitmap
      ensures Valid()
      ensures run.Some? <==> exists s: nat :: FreeRun(old(used), totalFrames, s, count)
      ensures run.None? ==> addr == 0 && used == old(used)
      ensures run.Some? ==>
        && var s := run.value;
        && FreeRun(old(used), totalFrames, s, count)
        && (forall t :: 0 <= t < s ==> !FreeRun(old(used), totalFrames, t, count))
        && addr == s * FRAME_SIZE
        && used == old(used) + FrameRange(s, s + count)
    {
      hide Encodes, FreeRun, FrameRange, Valid;
      var length, start := 0, 0;
      var i := 0;
      while i < totalFrames
        invariant 0 <= i <= totalFrames && Valid() && used == old(used)
        invariant length <= i && length < count
        invariant length > 0 ==> start == i - length
        invariant forall f :: i - length <= f < i ==> f !in used
        invariant forall t :: 0 <= t < i - length ==> !FreeRun(used, totalFrames, t, count)
      {
        if !BitmapTest(i) {
          if length == 0 { start := i; }
          length := length + 1;
          if length == count {
            IsRun(used, totalFrames, start, count);
            MarkRun(start, count);
            return start * FRAME_SIZE, Some(start);
          }
        } else {
          forall t | i - length <= t <= i ensures !FreeRun(used, totalFrames, t, count) {
            NotRun(used, totalFrames, t, count, i);
          }
          length := 0;
        }
        i := i + 1;
      }
      forall s: nat ensures !FreeRun(used, totalFrames, s, count) {
        if s >= totalFrames - length { RunEnds(used, totalFrames, s, count); }
      }
      return 0, None;
    }

    method MarkRun(start: nat, count: nat)
      requires Valid() && FreeRun(used, totalFrames, start, count)
      modifies this, bitmap
      ensures Valid() && used == old(used) + FrameRange(start, start + count)
    {
      hide Encodes, Valid, FrameRange;
      var f := start;
      while f < start + count
        invariant start <= f <= start + count && Valid()
        invariant used == old(used) + FrameRange(start, f)
      {
        FrameRangeGrows(start, f);
        MarkUsed(f);
        f := f + 1;
      }
    }

    /** pmm_free_frame: clears the bit of a tracked frame that is in use; otherwise nothing. */
    method FreeFrame(addr: nat)
      requires Valid()
      modifies this, bitmap
      ensures Valid() && used == old(used) - {addr / FRAME_SIZE}
    {
      var f := addr / FRAME_SIZE;
      if f < totalFrames && BitmapTest(f) {
        MarkFree(f);
      }
    }

    /** pmm_free_frames. */
    method FreeFrames(addr: nat, count: nat)
      requires Valid()
      modifies this, bitmap
      ensures Valid()
      ensures used == old(used) - FrameRange(addr / FRAME_SIZE, addr / FRAME_SIZE + count)
    {
      hide Encodes, Valid, FrameRange;
      var i := 0;
      NoneFree(used, addr / FRAME_SIZE);
      while i < count
        invariant i <= count && Valid()
        invariant used == old(used) - FrameRange(addr / FRAME_SIZE, addr / FRAME_SIZE + i)
      {
        FrameAfter(addr, i);
        FreeFrame(addr + i * FRAME_SIZE);
        OneMoreFree(old(used), addr / FRAME_SIZE, i);
        i := i + 1;
      }
    }

    /** pmm_free_frames_count. */
    method FreeFramesCount() returns (n: nat)
      requires Valid()
      ensures n == |FrameRange(0, totalFrames) - used|
    {
      hide Encodes;
      FrameRangeSize(0, totalFrames);
      assert used <= FrameRange(0, totalFrames);
      assert |FrameRange(0, totalFrames) - used| == totalFrames - |used|;
      n := totalFrames - usedFrames;
    }

    /** Freeing what pmm_alloc_frames returned restores every word of the bitmap.  Frame 0 is in
        use after pmm_init, so a returned 0 means failure. */
    method AllocThenFree(count: nat)
      requires Valid() && 0 in used
      modifies this, bitmap
      ensures Valid() && used == old(used) && usedFrames == old(usedFrames)
      ensures bitmap[..] == old(bitmap[..])
    {
      hide Encodes, FrameRange, TestBit, Valid;
      ValidMeans();
      CountDetermined();
      var addr, run := AllocFrames(count);
      if addr != 0 {
        FreeFrames(addr, count);
        RunOutside(old(used), totalFrames, run.value, count);
      }
      ValidMeans();
      CountDetermined();
      BitmapDetermined(old(bitmap[..]), bitmap[..], used);
    }
  }

  lemma NoneFree(used: set<nat>, f: nat)
    ensures used - FrameRange(f, f + 0) == used
  {
  }

  lemma OneMoreFree(used: set<nat>, f: nat, i: nat)
    ensures used - FrameRange(f, f + i) - {f + i} == used - FrameRange(f, f + (i + 1))
  {
  }

  lemma FrameAfter(addr: nat, i: nat)
    ensures (addr + i * FRAME_SIZE) / FRAME_SIZE == addr / FRAME_SIZE + i
  {
  }

  /** The set of used frames determines the packed words. */
  lemma BitmapDetermined(a: seq<bv32>, b: seq<bv32>, used: set<nat>)
    requires |a| == |b| && Encodes(a, used) && Encodes(b, used)
    ensures a == b
  {
    forall i | 0 <= i < |a| ensures a[i] == b[i] {
      forall k | 0 <= k < 32 ensures TestBit(a[i], k) == TestBit(b[i], k) {
        var f := 32 * i + k;
        assert f / 32 == i && f % 32 == k;
      }
      EqualFromBits(a[i], b[i]);
    }
  }
}
