/** Multiboot2 information as the boot loader lays it out (Multiboot2 specification, section 3.4 and
    3.6.8), and what the tag walk and pmm_init make of it. */
module MapLayout {
  import opened Wrappers
  import opened Bits
  import opened Multiboot
  import opened Pmm

  // ----- tags -----

  /** A tag: its type, its size in bytes without padding, and its words after these two, with the
      padding that makes the next tag 8-byte aligned. */
  datatype Tag = Tag(kind: U32, size: U32, rest: seq<U32>)

  predicate TagOk(t: Tag) {
    t.kind != 0 && |t.rest| % 2 == 0 && t.size <= 8 + 4 * |t.rest| < t.size + 8
  }

  function TagWords(t: Tag): (w: seq<U32>)
    ensures |w| == 2 + |t.rest|
  {
    [t.kind, t.size] + t.rest
  }

  function Flat(tags: seq<Tag>): seq<U32> {
    if tags == [] then [] else TagWords(tags[0]) + Flat(tags[1..])
  }

  /** All tags are well formed, and the total size fits its field. */
  predicate TagsOk(tags: seq<Tag>) {
    (forall k :: 0 <= k < |tags| ==> TagOk(tags[k])) && 4 * (|Flat(tags)| + 4) < U32_LIMIT
  }

  /** The structure: total size, a reserved word, the tags, and the end tag of type 0 and size 8. */
  function Structure(tags: seq<Tag>): (mbi: seq<U32>)
    requires TagsOk(tags)
    ensures |mbi| == |Flat(tags)| + 4
  {
    [4 * (|Flat(tags)| + 4), 0] + Flat(tags) + [0, 8]
  }

  /** The byte offset of the tag after those in `before`. */
  function OffsetAfter(before: seq<Tag>): nat { 8 + 4 * |Flat(before)| }

  lemma {:induction false} FlatAppend(a: seq<Tag>, b: seq<Tag>)
    ensures Flat(a + b) == Flat(a) + Flat(b)
  {
    if a == [] {
      assert a + b == b;
    } else {
      assert (a + b)[1..] == a[1..] + b;
      FlatAppend(a[1..], b);
    }
  }

  lemma {:induction false} FlatIsEven(tags: seq<Tag>)
    requires forall k :: 0 <= k < |tags| ==> TagOk(tags[k])
    ensures |Flat(tags)| % 2 == 0
  {
    if tags != [] { FlatIsEven(tags[1..]); }
  }

  lemma FlatParts(before: seq<Tag>, t: Tag, after: seq<Tag>)
    requires TagsOk(before + [t] + after)
    ensures Flat(before + [t] + after) == Flat(before) + TagWords(t) + Flat(after)
    ensures |Flat(before + [t])| == |Flat(before)| + 2 + |t.rest| && |Flat(before)| % 2 == 0
  {
    FlatAppend(before + [t], after);
    FlatAppend(before, [t]);
    assert Flat([t]) == TagWords(t);
    forall k | 0 <= k < |before| ensures TagOk(before[k]) {
      assert before[k] == (before + [t] + after)[k];
    }
    FlatIsEven(before);
  }

  /** The words of tag t stand where the offset says. */
  lemma TagStands(before: seq<Tag>, t: Tag, after: seq<Tag>)
    requires TagsOk(before + [t] + after)
    ensures var mbi := Structure(before + [t] + after);
            var k := OffsetAfter(before) / 4;
            && k + 2 + |t.rest| + 2 <= |mbi| && mbi[k] == t.kind && mbi[k + 1] == t.size && mbi[k + 2..k + 2 + |t.rest|] == t.rest
            && OffsetAfter(before) % 8 == 0 && OffsetAfter(before) < mbi[0]
            && OffsetAfter(before + [t]) == OffsetAfter(before) + 8 + 4 * |t.rest|
  {
    hide Flat, TagOk;
    FlatParts(before, t, after);
    var total, w := 4 * (|Flat(before + [t] + after)| + 4), TagWords(t);
    StructureIs(before + [t] + after, total);
    var head, tail := [total, 0] + Flat(before), Flat(after) + [0, 8];
    assert [total, 0] + (Flat(before) + w + Flat(after)) + [0, 8] == head + w + tail;
    hide Structure, TagWords;
    Middle(head, w, tail);
    Words(t);
  }

  lemma StructureIs(tags: seq<Tag>, total: nat)
    requires TagsOk(tags) && total == 4 * (|Flat(tags)| + 4)
    ensures total < U32_LIMIT && Structure(tags) == [total, 0] + Flat(tags) + [0, 8] && Structure(tags)[0] == total
  {
    hide Flat, TagOk;
  }

  lemma Words(t: Tag)
    ensures TagWords(t)[0] == t.kind && TagWords(t)[1] == t.size && TagWords(t)[2..] == t.rest
  {
  }

  lemma Middle(head: seq<U32>, w: seq<U32>, tail: seq<U32>)
    ensures var all := head + w + tail;
            && (forall i :: 0 <= i < |w| ==> all[|head| + i] == w[i])
            && (forall i :: 0 <= i <= |w| ==> all[|head| + i..|head| + |w|] == w[i..])
  {
    var all := head + w + tail;
    forall i | 0 <= i <= |w| ensures all[|head| + i..|head| + |w|] == w[i..] {
    }
  }

  lemma EndStands(tags: seq<Tag>)
    requires TagsOk(tags)
    ensures var mbi := Structure(tags);
            var k := OffsetAfter(tags) / 4;
            && OffsetAfter(tags) % 8 == 0 && k + 2 == |mbi| && mbi[k] == 0 && mbi[0] == 4 * |mbi| && mbi[0] % 8 == 0
  {
    FlatIsEven(tags);
  }

  /** One step of the walk. */
  lemma NextStands(before: seq<Tag>, t: Tag, after: seq<Tag>)
    requires TagsOk(before + [t] + after) && TagOk(t)
    ensures var mbi := Structure(before + [t] + after);
            var o := OffsetAfter(before);
            && o % 8 == 0 && o + 8 <= 4 * |mbi| && TagType(mbi, o) == t.kind && TagSize(mbi, o) == t.size
            && NextTag(mbi, o) == OffsetAfter(before + [t])
  {
    TagStands(before, t, after);
    assert AlignUp8(t.size) == 8 + 4 * |t.rest|;
  }

  /** The walk finds every tag and stops at the end tag. */
  lemma {:induction false} WalkStands(before: seq<Tag>, after: seq<Tag>, kind: nat)
    requires TagsOk(before + after) && kind != 0
    ensures var mbi := Structure(before + after);
            var o := OffsetAfter(before);
            && Framed(mbi) && o % 8 == 0 && TagsFrom(mbi, o)
            && (after == [] ==> FirstTagFrom(mbi, kind, o) == None)
            && (after != [] && after[0].kind == kind ==> FirstTagFrom(mbi, kind, o) == Some(o))
            && (after != [] && after[0].kind != kind ==>
                  OffsetAfter(before + [after[0]]) % 8 == 0 && TagsFrom(mbi, OffsetAfter(before + [after[0]]))
                  && FirstTagFrom(mbi, kind, o) == FirstTagFrom(mbi, kind, OffsetAfter(before + [after[0]])))
    decreases |after|
  {
    hide AlignUp8, Structure, Flat, NextTag, TagType, TagSize;
    EndStands(before + after);
    if after == [] {
      assert before + after == before;
      EndType(before);
    } else {
      var t, rest := after[0], after[1..];
      assert before + after == before + [t] + rest == (before + [t]) + rest;
      assert t == (before + after)[|before|];
      NextStands(before, t, rest);
      TagStands(before, t, rest);
      TotalIs(before + after);
      WalkStands(before + [t], rest, kind);
    }
  }

  lemma EndType(tags: seq<Tag>)
    requires TagsOk(tags)
    ensures OffsetAfter(tags) % 8 == 0 && OffsetAfter(tags) + 8 <= 4 * |Structure(tags)|
    ensures TagType(Structure(tags), OffsetAfter(tags)) == TAG_END
  {
    EndStands(tags);
  }

  lemma TotalIs(tags: seq<Tag>)
    requires TagsOk(tags)
    ensures |Structure(tags)| >= 2 && TotalSize(Structure(tags)) == Structure(tags)[0] == 4 * |Structure(tags)| < U32_LIMIT
  {
  }

  /** The structure is well formed, and the walk finds the first tag of a type where it was put. */
  lemma {:induction false} FindLaidOut(before: seq<Tag>, t: Tag, after: seq<Tag>, from: nat)
    requires TagsOk(before + [t] + after) && from <= |before| && t.kind != 0
    requires forall k :: 0 <= k < |before| ==> before[k].kind != t.kind
    ensures var mbi := Structure(before + [t] + after);
            && Framed(mbi) && OffsetAfter(before[..from]) % 8 == 0 && TagsFrom(mbi, OffsetAfter(before[..from]))
            && FirstTagFrom(mbi, t.kind, OffsetAfter(before[..from])) == Some(OffsetAfter(before))
    decreases |before| - from
  {
    hide Structure, Flat;
    var tags := before + [t] + after;
    var head, tail := before[..from], before[from..] + [t] + after;
    assert head + tail == tags;
    WalkStands(head, tail, t.kind);
    if from == |before| {
      assert head == before;
    } else {
      assert head + [tail[0]] == before[..from + 1];
      FindLaidOut(before, t, after, from + 1);
    }
  }

  /** And none where there is none. */
  lemma {:induction false} NoneLaidOut(tags: seq<Tag>, kind: nat, from: nat)
    requires TagsOk(tags) && from <= |tags| && kind != 0 && forall k :: 0 <= k < |tags| ==> tags[k].kind != kind
    ensures var mbi := Structure(tags);
            && Framed(mbi) && OffsetAfter(tags[..from]) % 8 == 0 && TagsFrom(mbi, OffsetAfter(tags[..from]))
            && FirstTagFrom(mbi, kind, OffsetAfter(tags[..from])) == None
    decreases |tags| - from
  {
    hide Structure, Flat;
    var head, tail := tags[..from], tags[from..];
    assert head + tail == tags;
    WalkStands(head, tail, kind);
    if from < |tags| {
      assert head + [tail[0]] == tags[..from + 1];
      NoneLaidOut(tags, kind, from + 1);
    }
  }

  // ----- the memory map -----

  predicate EntryFits(e: MmapEntry) {
    e.base < U64_LIMIT && e.length < U64_LIMIT && e.kind < U32_LIMIT
  }

  /** An entry's six words: base and length with the low word first, type, and a reserved word. */
  function EntryWords(e: MmapEntry): (w: seq<U32>)
    requires EntryFits(e)
    ensures |w| == 6
  {
    [e.base % U32_LIMIT, e.base / U32_LIMIT, e.length % U32_LIMIT, e.length / U32_LIMIT, e.kind, 0]
  }

  function MapWords(es: seq<MmapEntry>): (w: seq<U32>)
    requires forall i :: 0 <= i < |es| ==> EntryFits(es[i])
    ensures |w| == 6 * |es|
  {
    if es == [] then [] else EntryWords(es[0]) + MapWords(es[1..])
  }

  /** The memory-map tag: type 6, entry size 24, entry version 0. */
  function MapTag(es: seq<MmapEntry>): (t: Tag)
    requires (forall i :: 0 <= i < |es| ==> EntryFits(es[i])) && 16 + 24 * |es| < U32_LIMIT
    ensures TagOk(t) && t.kind == 6 && |t.rest| == 2 + 6 * |es|
  {
    var rest := [24, 0] + MapWords(es);
    EvenWords(|es|, |rest|);
    Tag(6, 16 + 24 * |es|, rest)
  }

  lemma EvenWords(n: nat, words: nat)
    requires words == 2 + 6 * n
    ensures words % 2 == 0
  {
    assert words == 2 * (1 + 3 * n);
  }

  lemma {:induction false} EntryStands(es: seq<MmapEntry>, i: nat)
    requires i < |es| && forall k :: 0 <= k < |es| ==> EntryFits(es[k])
    ensures MapWords(es)[6 * i..6 * i + 6] == EntryWords(es[i])
  {
    if i > 0 {
      EntryStands(es[1..], i - 1);
      assert MapWords(es)[6 * i..6 * i + 6] == MapWords(es[1..])[6 * (i - 1)..6 * (i - 1) + 6];
    }
  }

  lemma WordStands(x: nat)
    ensures x % U32_LIMIT + x / U32_LIMIT * U32_LIMIT == x
  {
  }

  /** The map that pmm_init reads is the map that was laid out. */
  lemma MapLaidOut(before: seq<Tag>, es: seq<MmapEntry>, after: seq<Tag>)
    requires (forall i :: 0 <= i < |es| ==> EntryFits(es[i])) && 16 + 24 * |es| < U32_LIMIT
    requires TagsOk(before + [MapTag(es)] + after) && forall k :: 0 <= k < |before| ==> before[k].kind != 6
    ensures var mbi := Structure(before + [MapTag(es)] + after);
            && WellFormed(mbi) && FirstTag(mbi, TAG_MMAP) == Some(OffsetAfter(before))
            && MmapTagOk(mbi, OffsetAfter(before)) && Entries(mbi, OffsetAfter(before)) == es
  {
    hide Structure, Flat, MapWords, Entries, TagsFrom;
    var t, tag := MapTag(es), OffsetAfter(before);
    var mbi := Structure(before + [t] + after);
    assert OffsetAfter([]) == 8 by { NoTags(); }
    assert before[..0] == [];
    FindLaidOut(before, t, after, 0);
    TagStands(before, t, after);
    MapHeader(mbi, tag, es);
    forall i | 0 <= i < |es| ensures EntryAt(mbi, tag, i) == es[i] {
      EntryDecoded(mbi, tag, es, i);
    }
    EntriesAre(mbi, tag, es);
  }

  lemma NoTags()
    ensures Flat([]) == []
  {
  }

  /** The map tag's words at `tag`. */
  predicate MapStands(mbi: seq<U32>, tag: nat, es: seq<MmapEntry>)
    requires (forall i :: 0 <= i < |es| ==> EntryFits(es[i])) && 16 + 24 * |es| < U32_LIMIT
  {
    var k := tag / 4;
    && tag % 8 == 0 && k + 4 + 6 * |es| <= |mbi|
    && mbi[k + 1] == 16 + 24 * |es| && mbi[k + 2..k + 4 + 6 * |es|] == [24, 0] + MapWords(es)
  }

  lemma MapHeader(mbi: seq<U32>, tag: nat, es: seq<MmapEntry>)
    requires (forall i :: 0 <= i < |es| ==> EntryFits(es[i])) && 16 + 24 * |es| < U32_LIMIT && MapStands(mbi, tag, es)
    ensures MmapTagOk(mbi, tag) && EntryCount(mbi, tag) == |es|
  {
    hide MapWords;
    var k := tag / 4;
    var rest := mbi[k + 2..k + 4 + 6 * |es|];
    assert mbi[k + 2] == rest[0] == 24;
    Quotient(|es|);
  }

  lemma Quotient(n: nat)
    ensures 24 * n / 24 == n
  {
  }

  lemma EntryDecoded(mbi: seq<U32>, tag: nat, es: seq<MmapEntry>, i: nat)
    requires (forall k :: 0 <= k < |es| ==> EntryFits(es[k])) && 16 + 24 * |es| < U32_LIMIT && MapStands(mbi, tag, es) && i < |es|
    ensures MmapTagOk(mbi, tag) && i < EntryCount(mbi, tag) && EntryAt(mbi, tag, i) == es[i]
  {
    hide MapWords, EntryCount;
    MapHeader(mbi, tag, es);
    EntriesInside(mbi, tag, i);
    EntryStands(es, i);
    var k := tag / 4;
    var w, rest := EntryWords(es[i]), mbi[k + 2..k + 4 + 6 * |es|];
    assert w == MapWords(es)[6 * i..6 * i + 6];
    forall j | 0 <= j < 6 ensures mbi[k + 4 + 6 * i + j] == w[j] {
      assert rest[2 + 6 * i + j] == MapWords(es)[6 * i + j];
    }
    WordStands(es[i].base);
    WordStands(es[i].length);
    assert mbi[k + 4 + 6 * i + 0] == w[0] && mbi[k + 4 + 6 * i + 1] == w[1];
    assert mbi[k + 4 + 6 * i + 2] == w[2] && mbi[k + 4 + 6 * i + 3] == w[3] && mbi[k + 4 + 6 * i + 4] == w[4];
  }

  lemma EntriesAre(mbi: seq<U32>, tag: nat, es: seq<MmapEntry>)
    requires MmapTagOk(mbi, tag) && EntryCount(mbi, tag) == |es| && forall i :: 0 <= i < |es| ==> EntryAt(mbi, tag, i) == es[i]
    ensures Entries(mbi, tag) == es
  {
    hide EntryAt, EntryCount, MmapTagOk;
  }

  // ----- a PC with 128 MiB -----

  const PC_MAP := [MmapEntry(0, 0x9FC00, 1), MmapEntry(0x9FC00, 0x400, 2), MmapEntry(0x10_0000, 0x7EE_0000, 1),
                   MmapEntry(0x7FE_0000, 0x2_0000, 2), MmapEntry(0xFFFC_0000, 0x4_0000, 2)]

  /** A command line of one byte, the map, and the basic memory information. */
  function PcTags(): seq<Tag> {
    [Tag(1, 9, [0, 0])] + [MapTag(PC_MAP)] + [Tag(4, 16, [639, 129920])]
  }

  lemma PcTagsOk()
    ensures TagsOk(PcTags())
  {
    hide MapWords;
    var a, m, b := Tag(1, 9, [0, 0]), MapTag(PC_MAP), Tag(4, 16, [639, 129920]);
    FlatAppend([a] + [m], [b]);
    FlatAppend([a], [m]);
    assert |Flat([a])| == 4 && |Flat([m])| == 2 + |m.rest| && |Flat([b])| == 4;
  }

  function PcInfo(): seq<U32> {
    PcTagsOk();
    Structure(PcTags())
  }

  lemma PcMapRead()
    ensures WellFormed(PcInfo()) && MapUsable(PcInfo())
    ensures FirstTag(PcInfo(), TAG_MMAP).Some? && Entries(PcInfo(), FirstTag(PcInfo(), TAG_MMAP).value) == PC_MAP
  {
    hide Structure, Flat, MapWords, Entries;
    PcTagsOk();
    MapLaidOut([Tag(1, 9, [0, 0])], PC_MAP, [Tag(4, 16, [639, 129920])]);
  }

  /** The frames that boot leaves in use with the kernel image up to 1.5 MiB: everything up to the end
      of the bitmap, and what the map reserves. */
  lemma PcFrames(total: nat, used: set<nat>)
    requires WellFormed(PcInfo()) && MapUsable(PcInfo()) && Initialised(PcInfo(), 0x18_0000, total, used)
    ensures total == 0x10_0000
    ensures used == FrameRange(0, 0x1A0) + FrameRange(0x7FE0, 0x8000) + FrameRange(0xF_FFC0, 0x10_0000)
  {
    hide PcInfo, FrameRange, Reserved, KernelOwned, HighestEnd, Entries, WellFormed, MapUsable, FirstTag;
    PcMapRead();
    PcHighest();
    forall f: nat ensures f in used <==> f < 0x1A0 || 0x7FE0 <= f < 0x8000 || 0xF_FFC0 <= f < 0x10_0000 {
      PcReserved(f);
      PcOwned(f);
    }
  }

  lemma PcOwned(f: nat)
    ensures KernelOwned(0x18_0000, 0x10_0000, f) <==> f < 0x1A0
  {
  }

  lemma PcHighest()
    ensures HighestEnd(PC_MAP) == 0x1_0000_0000
  {
    assert PC_MAP[4].base + PC_MAP[4].length == 0x1_0000_0000;
    hide HighestEnd;
    assert exists i :: 0 <= i < |PC_MAP| && PC_MAP[i].base + PC_MAP[i].length == HighestEnd(PC_MAP) by {
      assert HighestEnd(PC_MAP) >= 0x1_0000_0000;
    }
  }

  lemma PcReserved(f: nat)
    ensures Reserved(PC_MAP, f) <==> f == 0x9F || 0x7FE0 <= f < 0x8000 || 0xF_FFC0 <= f < 0x10_0000
  {
    assert Covers(PC_MAP[1], f) <==> f == 0x9F;
    assert Covers(PC_MAP[3], f) <==> 0x7FE0 <= f < 0x8000;
    assert Covers(PC_MAP[4], f) <==> 0xF_FFC0 <= f < 0x10_0000;
    assert Covers(PC_MAP[2], f) <==> 0x100 <= f < 0x7FE0;
  }

  /** pmm_init and the first allocation on that machine. */
  method PcBoot() returns (pmm: FrameAllocator, first: nat)
    ensures pmm.Valid() && pmm.totalFrames == 0x10_0000 && first == 0x1A_0000
    ensures pmm.used == FrameRange(0, 0x1A1) + FrameRange(0x7FE0, 0x8000) + FrameRange(0xF_FFC0, 0x10_0000)
  {
    hide PcInfo, Initialised, MapUsable, FrameAllocator.Valid, WellFormed;
    PcMapRead();
    pmm := new FrameAllocator(PcInfo(), 0x18_0000);
    PcFrames(pmm.totalFrames, pmm.used);
    first := pmm.AllocFrame();
    FrameRangeGrows(0, 0x1A0);
  }

  /** A frame that no entry of the map covers is free, although no memory need be there: on this
      machine that is every frame from 128 MiB up to 4 GiB less 256 KiB. */
  lemma HolesAreFree(mbi: seq<U32>, kernelEnd: nat, total: nat, used: set<nat>, f: nat)
    requires WellFormed(mbi) && MapUsable(mbi) && Initialised(mbi, kernelEnd, total, used) && f < total
    requires FirstTag(mbi, TAG_MMAP).Some? && !Covered(Entries(mbi, FirstTag(mbi, TAG_MMAP).value), f)
    ensures f in used <==> KernelOwned(kernelEnd, total, f)
  {
    hide Covers, KernelOwned, HighestEnd;
  }
}
