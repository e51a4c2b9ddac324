/** The Multiboot2 information structure (src/mm/multiboot2.h): an 8-byte header followed
    by 8-byte aligned tags.  The structure is read as 32-bit words, the width of every field
    that the tag walk touches. */
module Multiboot {
  import opened Wrappers
  import opened Bits

  const U32_LIMIT := 0x1_0000_0000
  const TAG_END := 0
  const TAG_MMAP := 6
  const MEMORY_AVAILABLE := 1

  type U32 = w: int | 0 <= w < U32_LIMIT

  datatype MmapEntry = MmapEntry(base: nat, length: nat, kind: nat)

  function TotalSize(mbi: seq<U32>): nat
    requires |mbi| >= 2
  {
    mbi[0]
  }

  /** The whole structure is present in memory and ends on a tag boundary. */
  predicate Framed(mbi: seq<U32>) {
    && |mbi| >= 2
    && TotalSize(mbi) % 8 == 0
    && TotalSize(mbi) <= 4 * |mbi|
  }

  function TagType(mbi: seq<U32>, offset: nat): nat
    requires offset % 8 == 0 && offset + 8 <= 4 * |mbi|
  {
    mbi[offset / 4]
  }

  function TagSize(mbi: seq<U32>, offset: nat): nat
    requires offset % 8 == 0 && offset + 8 <= 4 * |mbi|
  {
    mbi[offset / 4 + 1]
  }

  /** Where the tag after the one at `offset` starts. */
  function NextTag(mbi: seq<U32>, offset: nat): (next: nat)
    requires offset % 8 == 0 && offset + 8 <= 4 * |mbi|
    ensures next % 8 == 0 && offset <= next && (TagSize(mbi, offset) > 0 ==> offset < next)
  {
    AlignedSum(offset, AlignUp8(TagSize(mbi, offset)));
    offset + AlignUp8(TagSize(mbi, offset))
  }

  lemma AlignedSum(a: nat, b: nat)
    requires a % 8 == 0 && b % 8 == 0
    ensures (a + b) % 8 == 0 && (a < b ==> a + 8 <= b)
  {
  }

  /** From `offset` on, every tag before the end has a size that moves the walk forward
      without wrapping the 32-bit offset. */
  predicate TagsFrom(mbi: seq<U32>, offset: nat)
    requires Framed(mbi) && offset % 8 == 0
    decreases TotalSize(mbi) - offset
  {
    AlignedSum(offset, TotalSize(mbi));
    offset >= TotalSize(mbi) ||
    TagType(mbi, offset) == TAG_END ||
    (&& 0 < TagSize(mbi, offset)
     && NextTag(mbi, offset) < U32_LIMIT
     && TagsFrom(mbi, NextTag(mbi, offset)))
  }

  predicate WellFormed(mbi: seq<U32>) {
    Framed(mbi) && TagsFrom(mbi, 8)
  }

  /** The offsets of the tags in order, up to and excluding the end tag. */
  function TagOffsets(mbi: seq<U32>, offset: nat): (tags: seq<nat>)
    requires Framed(mbi) && offset % 8 == 0 && TagsFrom(mbi, offset)
    ensures forall k :: 0 <= k < |tags| ==> tags[k] % 8 == 0 && tags[k] + 8 <= TotalSize(mbi)
    decreases TotalSize(mbi) - offset
  {
    AlignedSum(offset, TotalSize(mbi));
    if offset >= TotalSize(mbi) || TagType(mbi, offset) == TAG_END then []
    else [offset] + TagOffsets(mbi, NextTag(mbi, offset))
  }

  /** `r` is the first of the tags at the offsets `tags` that has type `kind`. */
  ghost predicate IsFirstOf(mbi: seq<U32>, tags: seq<nat>, kind: nat, r: Option<nat>)
    requires forall k :: 0 <= k < |tags| ==> tags[k] % 8 == 0 && tags[k] + 8 <= 4 * |mbi|
  {
    match r
    case None => forall k :: 0 <= k < |tags| ==> TagType(mbi, tags[k]) != kind
    case Some(offset) =>
      exists k :: && 0 <= k < |tags| && tags[k] == offset && TagType(mbi, tags[k]) == kind
                  && forall j :: 0 <= j < k ==> TagType(mbi, tags[j]) != kind
  }

  /** `r` is the first tag of type `kind` in the structure, or None when there is none. */
  ghost predicate IsFirstTag(mbi: seq<U32>, kind: nat, r: Option<nat>)
    requires WellFormed(mbi)
  {
    IsFirstOf(mbi, TagOffsets(mbi, 8), kind, r)
  }

  /** The offset at which a walk starting at `offset` finds a tag of type `kind`. */
  function FirstTagFrom(mbi: seq<U32>, kind: nat, offset: nat): Option<nat>
    requires Framed(mbi) && offset % 8 == 0 && TagsFrom(mbi, offset)
    decreases TotalSize(mbi) - offset
  {
    AlignedSum(offset, TotalSize(mbi));
    if offset >= TotalSize(mbi) || TagType(mbi, offset) == TAG_END then None
    else if TagType(mbi, offset) == kind then Some(offset)
    else FirstTagFrom(mbi, kind, NextTag(mbi, offset))
  }

  function FirstTag(mbi: seq<U32>, kind: nat): Option<nat>
    requires WellFormed(mbi)
  {
    FirstTagFrom(mbi, kind, 8)
  }

  lemma FirstTagIsFirst(mbi: seq<U32>, kind: nat)
    requires WellFormed(mbi)
    ensures IsFirstTag(mbi, kind, FirstTag(mbi, kind))
  {
    FirstFromIsFirst(mbi, kind, 8);
  }

  lemma {:induction false} FirstFromIsFirst(mbi: seq<U32>, kind: nat, offset: nat)
    requires Framed(mbi) && offset % 8 == 0 && TagsFrom(mbi, offset)
    ensures IsFirstOf(mbi, TagOffsets(mbi, offset), kind, FirstTagFrom(mbi, kind, offset))
    decreases TotalSize(mbi) - offset
  {
    hide AlignUp8;
    AlignedSum(offset, TotalSize(mbi));
    if offset < TotalSize(mbi) && TagType(mbi, offset) != TAG_END {
      var next := NextTag(mbi, offset);
      FirstFromIsFirst(mbi, kind, next);
      if TagType(mbi, offset) != kind {
        FirstAfterMiss(mbi, offset, TagOffsets(mbi, next), kind, FirstTagFrom(mbi, kind, next));
      } else {
        assert TagOffsets(mbi, offset)[0] == offset;
      }
    }
  }

  lemma FirstAfterMiss(mbi: seq<U32>, offset: nat, rest: seq<nat>, kind: nat, r: Option<nat>)
    requires forall k :: 0 <= k < |rest| ==> rest[k] % 8 == 0 && rest[k] + 8 <= 4 * |mbi|
    requires offset % 8 == 0 && offset + 8 <= 4 * |mbi|
    requires TagType(mbi, offset) != kind && IsFirstOf(mbi, rest, kind, r)
    ensures IsFirstOf(mbi, [offset] + rest, kind, r)
  {
    hide TagType;
    var all := [offset] + rest;
    if r.Some? {
      var k :| && 0 <= k < |rest| && rest[k] == r.value && TagType(mbi, rest[k]) == kind
               && forall j :: 0 <= j < k ==> TagType(mbi, rest[j]) != kind;
      assert all[k + 1] == r.value;
      forall j | 0 <= j < k + 1 ensures TagType(mbi, all[j]) != kind {
        if j > 0 { assert all[j] == rest[j - 1]; }
      }
    }
  }

  /** multiboot2_find_tag: the walk stops at the first match, at the end tag, or at total_size. */
  method FindTag(mbi: seq<U32>, kind: nat) returns (r: Option<nat>)
    requires WellFormed(mbi)
    ensures r == FirstTag(mbi, kind) && IsFirstTag(mbi, kind, r)
  {
    FirstTagIsFirst(mbi, kind);
    var offset := 8;
    while offset < TotalSize(mbi)
      invariant offset % 8 == 0 && TagsFrom(mbi, offset)
      invariant FirstTag(mbi, kind) == FirstTagFrom(mbi, kind, offset)
      decreases TotalSize(mbi) - offset
    {
      if TagType(mbi, offset) == TAG_END { break; }
      if TagType(mbi, offset) == kind { return Some(offset); }
      offset := offset + AlignUp8(TagSize(mbi, offset));
    }
    return None;
  }

  function Word64(mbi: seq<U32>, k: nat): nat
    requires k + 1 < |mbi|
  {
    mbi[k] + mbi[k + 1] * U32_LIMIT
  }

  /** The memory-map tag has room for its header and an entry size of at least one entry. */
  predicate MmapTagOk(mbi: seq<U32>, tag: nat) {
    && tag % 8 == 0 && tag + 16 <= 4 * |mbi|
    && 16 <= mbi[tag / 4 + 1]
    && tag + mbi[tag / 4 + 1] <= 4 * |mbi|
    && 24 <= mbi[tag / 4 + 2]
  }

  /** (size - header) / entry_size, as the first pass computes it. */
  function EntryCount(mbi: seq<U32>, tag: nat): nat
    requires MmapTagOk(mbi, tag)
  {
    (mbi[tag / 4 + 1] - 16) / mbi[tag / 4 + 2]
  }

  lemma TimesMonotone(n: nat, a: nat, b: nat)
    requires a <= b
    ensures n * a <= n * b
  {
    if n > 0 {
      TimesMonotone(n - 1, a, b);
      assert n * a == (n - 1) * a + a && n * b == (n - 1) * b + b;
    }
  }

  lemma QuotientFits(x: nat, d: nat)
    requires d > 0
    ensures x / d * d <= x
  {
  }

  lemma EntriesInside(mbi: seq<U32>, tag: nat, i: nat)
    requires MmapTagOk(mbi, tag) && i < EntryCount(mbi, tag)
    ensures tag / 4 + 4 + 6 * i + 6 <= |mbi|
  {
    var size, each := mbi[tag / 4 + 1], mbi[tag / 4 + 2];
    CountFits(size, each, EntryCount(mbi, tag), i);
  }

  lemma CountFits(size: nat, each: nat, n: nat, i: nat)
    requires 16 <= size && 24 <= each && n == (size - 16) / each && i < n
    ensures 24 * (i + 1) <= size - 16
  {
    QuotientFits(size - 16, each);
    TimesMonotone(n, 24, each);
  }

  /** Entry i of the map.  The entries are strided by the 24 bytes of their C structure. */
  function EntryAt(mbi: seq<U32>, tag: nat, i: nat): MmapEntry
    requires MmapTagOk(mbi, tag) && i < EntryCount(mbi, tag)
  {
    EntriesInside(mbi, tag, i);
    var k := tag / 4 + 4 + 6 * i;
    MmapEntry(Word64(mbi, k), Word64(mbi, k + 2), mbi[k + 4])
  }

  function Entries(mbi: seq<U32>, tag: nat): (es: seq<MmapEntry>)
    requires MmapTagOk(mbi, tag)
    ensures |es| == EntryCount(mbi, tag)
  {
    seq(EntryCount(mbi, tag), i requires 0 <= i < EntryCount(mbi, tag) => EntryAt(mbi, tag, i))
  }
}
