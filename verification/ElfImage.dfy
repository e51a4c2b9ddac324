/** What an ELF64 file asks the loader to put where (src/fs/elf.h, src/fs/elf.c), apart from any
    address space: the header checks, the pages each PT_LOAD header covers, and the contents
    the loader computes for each page. */
module ElfImage {
  import opened Pmm
  import opened PageTables
  import opened Leaves
  import opened Bytes

  const EHDR_SIZE := 64
  const PHDR_SIZE := 56
  const PT_LOAD := 1

  datatype Phdr = Phdr(kind: nat, offset: nat, vaddr: nat, filesz: nat, memsz: nat)

  /** One round of the page loop: page `va` of a segment. */
  datatype PageLoad = PageLoad(ph: Phdr, va: nat)

  /** The checks of elf_load before it looks at the program headers. */
  predicate HeaderOk(data: seq<Byte>) {
    && |data| >= EHDR_SIZE
    && data[0] == 0x7F && data[1] == 0x45 && data[2] == 0x4C && data[3] == 0x46
    && data[4] == 2
    && data[5] == 1
    && FieldAt(data, 16, 2) == 2
    && FieldAt(data, 18, 2) == 62
  }

  function EntryPoint(data: seq<Byte>): nat
    requires |data| >= EHDR_SIZE
  {
    FieldAt(data, 24, 8)
  }

  function PhdrCount(data: seq<Byte>): nat
    requires |data| >= EHDR_SIZE
  {
    FieldAt(data, 56, 2)
  }

  function PhdrOffset(data: seq<Byte>, i: nat): nat
    requires |data| >= EHDR_SIZE
  {
    FieldAt(data, 32, 8) + i * FieldAt(data, 54, 2)
  }

  predicate PhdrFits(data: seq<Byte>, i: nat)
    requires |data| >= EHDR_SIZE
  {
    PhdrOffset(data, i) + PHDR_SIZE <= |data|
  }

  function PhdrAt(data: seq<Byte>, i: nat): Phdr
    requires |data| >= EHDR_SIZE && PhdrFits(data, i)
  {
    var o := PhdrOffset(data, i);
    Phdr(FieldAt(data, o, 4), FieldAt(data, o + 8, 8), FieldAt(data, o + 16, 8),
         FieldAt(data, o + 32, 8), FieldAt(data, o + 40, 8))
  }

  // ----- the fields, byte by byte -----

  function Two(data: seq<Byte>, at: nat): nat
    requires at + 2 <= |data|
  {
    data[at] as int + 0x100 * data[at + 1] as int
  }

  function Four(data: seq<Byte>, at: nat): nat
    requires at + 4 <= |data|
  {
    Two(data, at) + 0x1_0000 * Two(data, at + 2)
  }

  function Eight(data: seq<Byte>, at: nat): nat
    requires at + 8 <= |data|
  {
    Four(data, at) + 0x1_0000_0000 * Four(data, at + 4)
  }

  lemma FieldOfTwo(data: seq<Byte>, at: nat)
    requires at + 2 <= |data|
    ensures FieldAt(data, at, 2) == Two(data, at)
  {
    var b := data[at..at + 2];
    assert b[1..][1..] == [] && b[0] == data[at] && b[1..][0] == data[at + 1];
    assert Little(b[1..]) == data[at + 1];
  }

  lemma FieldJoins(data: seq<Byte>, at: nat, m: nat, n: nat)
    requires at + m + n <= |data|
    ensures FieldAt(data, at, m + n) == FieldAt(data, at, m) + Pow256(m) * FieldAt(data, at + m, n)
  {
    LittleJoins(data[at..at + m], data[at + m..at + m + n]);
    assert data[at..at + (m + n)] == data[at..at + m] + data[at + m..at + m + n];
  }

  lemma {:induction false} LittleJoins(a: seq<Byte>, b: seq<Byte>)
    ensures Little(a + b) == Little(a) + Pow256(|a|) * Little(b)
  {
    if a == [] {
      assert a + b == b;
    } else {
      assert (a + b)[1..] == a[1..] + b && (a + b)[0] == a[0];
      LittleJoins(a[1..], b);
      Regroup(a[0], Little(a[1..]), Pow256(|a| - 1), Little(b));
    }
  }

  lemma Regroup(x: int, l: int, p: int, v: int)
    ensures x + 256 * (l + p * v) == (x + 256 * l) + (256 * p) * v
  {
  }

  lemma FieldOfFour(data: seq<Byte>, at: nat)
    requires at + 4 <= |data|
    ensures FieldAt(data, at, 4) == Four(data, at)
  {
    hide FieldAt;
    FieldOfTwo(data, at);
    FieldOfTwo(data, at + 2);
    FieldJoins(data, at, 2, 2);
    assert Pow256(2) == 0x1_0000;
  }

  lemma FieldOfEight(data: seq<Byte>, at: nat)
    requires at + 8 <= |data|
    ensures FieldAt(data, at, 8) == Eight(data, at)
  {
    hide FieldAt;
    FieldOfFour(data, at);
    FieldOfFour(data, at + 4);
    FieldJoins(data, at, 4, 4);
    assert Pow256(2) == 0x1_0000 && Pow256(4) == 0x1_0000_0000;
  }

  /** The ELF64 header (src/fs/elf.h): class 64-bit, little-endian, executable, x86-64; the entry point
      at byte 24, the number of program headers at byte 56. */
  lemma HeaderFields(data: seq<Byte>)
    requires |data| >= 64
    ensures HeaderOk(data) <==>
      data[0] == 0x7F && data[1] == 0x45 && data[2] == 0x4C && data[3] == 0x46 && data[4] == 2 && data[5] == 1
      && data[16] == 2 && data[17] == 0 && data[18] == 62 && data[19] == 0
    ensures EntryPoint(data) == Eight(data, 24) && PhdrCount(data) == Two(data, 56)
  {
    hide FieldAt;
    FieldOfTwo(data, 16);
    FieldOfTwo(data, 18);
    FieldOfTwo(data, 56);
    FieldOfEight(data, 24);
  }

  /** Where program header i stands: i entry sizes (byte 54) behind the first one (byte 32). */
  function PhdrPlace(data: seq<Byte>, i: nat): nat
    requires |data| >= 64
  {
    Eight(data, 32) + Scaled(i, Two(data, 54))
  }

  function Scaled(i: nat, n: nat): nat { i * n }

  /** A program header: type at byte 0, offset at 8, address at 16, size in the file at 32, size in
      memory at 40, 56 bytes in all. */
  lemma PhdrFields(data: seq<Byte>, i: nat)
    requires |data| >= 64
    ensures PhdrFits(data, i) <==> PhdrPlace(data, i) + 56 <= |data|
    ensures PhdrFits(data, i) ==>
      var o, ph := PhdrPlace(data, i), PhdrAt(data, i);
      && ph.kind == Four(data, o) && ph.offset == Eight(data, o + 8) && ph.vaddr == Eight(data, o + 16)
      && ph.filesz == Eight(data, o + 32) && ph.memsz == Eight(data, o + 40)
  {
    hide FieldAt, Four, Eight, Two;
    FieldOfEight(data, 32);
    FieldOfTwo(data, 54);
    var o := PhdrPlace(data, i);
    assert PhdrOffset(data, i) == o;
    hide PhdrOffset, PhdrPlace;
    if PhdrFits(data, i) { FieldsAt(data, o); }
  }

  lemma FieldsAt(data: seq<Byte>, o: nat)
    requires o + 56 <= |data|
    ensures FieldAt(data, o, 4) == Four(data, o) && FieldAt(data, o + 8, 8) == Eight(data, o + 8)
    ensures FieldAt(data, o + 16, 8) == Eight(data, o + 16) && FieldAt(data, o + 32, 8) == Eight(data, o + 32)
    ensures FieldAt(data, o + 40, 8) == Eight(data, o + 40)
  {
    hide FieldAt, Four, Eight;
    FieldOfFour(data, o);
    FieldOfEight(data, o + 8);
    FieldOfEight(data, o + 16);
    FieldOfEight(data, o + 32);
    FieldOfEight(data, o + 40);
  }

  /** A segment in user memory whose address sums do not wrap. */
  predicate SegmentOk(ph: Phdr) {
    && ph.vaddr + ph.memsz <= USER_ADDR_LIMIT
    && ph.vaddr + ph.filesz + FRAME_SIZE < U64_LIMIT
    && ph.offset < U64_LIMIT
  }

  /** Every segment the loader reaches lies in user memory, and no header offset wraps. */
  ghost predicate Loadable(data: seq<Byte>) {
    HeaderOk(data) ==>
      && PhdrOffset(data, PhdrCount(data)) + PHDR_SIZE < U64_LIMIT
      && forall i :: 0 <= i < PhdrCount(data) && PhdrFits(data, i) && PhdrAt(data, i).kind == PT_LOAD ==>
           SegmentOk(PhdrAt(data, i))
  }

  function SegmentStart(ph: Phdr): nat {
    ph.vaddr / FRAME_SIZE * FRAME_SIZE
  }

  function SegmentEnd(ph: Phdr): nat {
    (ph.vaddr + ph.memsz + 0xFFF) / FRAME_SIZE * FRAME_SIZE
  }

  /** The rounds of the page loop from page `va` on. */
  function PagesFrom(ph: Phdr, va: nat): seq<PageLoad>
    decreases SegmentEnd(ph) - va
  {
    if va >= SegmentEnd(ph) then [] else [PageLoad(ph, va)] + PagesFrom(ph, va + FRAME_SIZE)
  }

  function SegmentPages(ph: Phdr): seq<PageLoad> {
    PagesFrom(ph, SegmentStart(ph))
  }

  /** All rounds of the page loop for the headers from i on, up to the first header that does
      not fit in the file. */
  function WorkFrom(data: seq<Byte>, i: nat): seq<PageLoad>
    requires |data| >= EHDR_SIZE
    decreases PhdrCount(data) - i
  {
    if i >= PhdrCount(data) || !PhdrFits(data, i) then []
    else (if PhdrAt(data, i).kind == PT_LOAD then SegmentPages(PhdrAt(data, i)) else []) + WorkFrom(data, i + 1)
  }

  function Work(data: seq<Byte>): seq<PageLoad> {
    if HeaderOk(data) then WorkFrom(data, 0) else []
  }

  /** A page of a user segment: aligned, in user memory. */
  predicate PageLoadOk(w: PageLoad) {
    SegmentOk(w.ph) && w.va % FRAME_SIZE == 0 && w.va < USER_ADDR_LIMIT
  }

  lemma {:induction false} PagesFromOk(ph: Phdr, va: nat)
    requires SegmentOk(ph) && va % FRAME_SIZE == 0
    ensures forall j :: 0 <= j < |PagesFrom(ph, va)| ==> PageLoadOk(PagesFrom(ph, va)[j])
    ensures forall j :: 0 <= j < |PagesFrom(ph, va)| ==>
              PagesFrom(ph, va)[j].ph == ph && PagesFrom(ph, va)[j].va == va + j * FRAME_SIZE < SegmentEnd(ph)
    ensures va <= SegmentEnd(ph) ==> |PagesFrom(ph, va)| == (SegmentEnd(ph) - va) / FRAME_SIZE
    decreases SegmentEnd(ph) - va
  {
    if va < SegmentEnd(ph) {
      SegmentEndBound(ph, va);
      PagesFromOk(ph, va + FRAME_SIZE);
      var rest := PagesFrom(ph, va + FRAME_SIZE);
      assert PagesFrom(ph, va) == [PageLoad(ph, va)] + rest;
      forall j | 0 <= j < |PagesFrom(ph, va)|
        ensures PageLoadOk(PagesFrom(ph, va)[j])
        ensures PagesFrom(ph, va)[j].ph == ph && PagesFrom(ph, va)[j].va == va + j * FRAME_SIZE < SegmentEnd(ph)
      {
        if j > 0 { assert PagesFrom(ph, va)[j] == rest[j - 1]; }
      }
    }
  }

  lemma SegmentEndBound(ph: Phdr, va: nat)
    requires SegmentOk(ph) && va % FRAME_SIZE == 0 && va < SegmentEnd(ph)
    ensures va < USER_ADDR_LIMIT && va + FRAME_SIZE <= SegmentEnd(ph) <= USER_ADDR_LIMIT
  {
    assert USER_ADDR_LIMIT % FRAME_SIZE == 0;
    assert SegmentEnd(ph) % FRAME_SIZE == 0;
  }

  /** The pages of a segment, in ascending order without gaps: exactly the pages from the one that the
      segment starts in to the last one that begins before the segment ends. */
  lemma SegmentPagesExactly(ph: Phdr, va: nat)
    requires SegmentOk(ph)
    ensures (exists j :: 0 <= j < |SegmentPages(ph)| && SegmentPages(ph)[j] == PageLoad(ph, va)) <==>
            va % FRAME_SIZE == 0 && ph.vaddr < va + FRAME_SIZE && va < ph.vaddr + ph.memsz
    ensures forall j :: 0 <= j < |SegmentPages(ph)| ==> SegmentPages(ph)[j] == PageLoad(ph, SegmentPages(ph)[0].va + j * FRAME_SIZE)
  {
    var start, pages := SegmentStart(ph), SegmentPages(ph);
    EndExactly(ph, start);
    PagesFromOk(ph, start);
    hide PagesFrom;
    if j :| 0 <= j < |pages| && pages[j] == PageLoad(ph, va) {
      PageAligned(start, j, va);
      EndExactly(ph, va);
    }
    if va % FRAME_SIZE == 0 && ph.vaddr < va + FRAME_SIZE && va < ph.vaddr + ph.memsz {
      EndExactly(ph, va);
      var j := (va - start) / FRAME_SIZE;
      assert start + j * FRAME_SIZE == va;
      assert pages[j] == PageLoad(ph, va);
    }
  }

  lemma PageAligned(start: nat, j: nat, va: nat)
    requires start % FRAME_SIZE == 0 && va == start + j * FRAME_SIZE
    ensures va % FRAME_SIZE == 0
  {
  }

  lemma EndExactly(ph: Phdr, va: nat)
    requires va % FRAME_SIZE == 0
    ensures va < SegmentEnd(ph) <==> va < ph.vaddr + ph.memsz
    ensures SegmentStart(ph) <= va <==> ph.vaddr < va + FRAME_SIZE
    ensures SegmentStart(ph) <= SegmentEnd(ph) && SegmentEnd(ph) % FRAME_SIZE == 0 && SegmentStart(ph) % FRAME_SIZE == 0
  {
  }

  /** How many bytes the loader copies into page va, and from where (src/fs/elf.c:123-145). */
  function CopyStart(ph: Phdr, va: nat): nat { Max(va, ph.vaddr) }

  function FileOffset(ph: Phdr, va: nat): nat {
    (ph.offset + (CopyStart(ph, va) - ph.vaddr)) % U64_LIMIT
  }

  function CopyLength(ph: Phdr, size: nat, va: nat): nat {
    if va + FRAME_SIZE > ph.vaddr && va < ph.vaddr + ph.filesz then
      var copyEnd := Min(va + FRAME_SIZE, ph.vaddr + ph.filesz);
      var length := copyEnd - CopyStart(ph, va);
      var avail := if FileOffset(ph, va) < size then size - FileOffset(ph, va) else 0;
      if length > 0 && avail > 0 then Min(length, avail) else 0
    else 0
  }

  /** Every copy reads inside the file and writes inside one frame. */
  lemma CopyInBounds(ph: Phdr, size: nat, va: nat)
    ensures CopyLength(ph, size, va) <= FRAME_SIZE
    ensures CopyLength(ph, size, va) > 0 ==> FileOffset(ph, va) + CopyLength(ph, size, va) <= size
  {
  }

  function CopySource(ph: Phdr, data: seq<Byte>, va: nat): (src: seq<Byte>)
    ensures |src| == CopyLength(ph, |data|, va) <= FRAME_SIZE
  {
    CopyInBounds(ph, |data|, va);
    if CopyLength(ph, |data|, va) == 0 then []
    else data[FileOffset(ph, va)..FileOffset(ph, va) + CopyLength(ph, |data|, va)]
  }

  /** The contents the loader gives page va. */
  function PageImage(w: PageLoad, data: seq<Byte>): Frame {
    if CopyLength(w.ph, |data|, w.va) == 0 then ZeroFrame()
    else Overlay(ZeroFrame(), CopySource(w.ph, data, w.va))
  }

  /** What the program header promises at byte k of the segment (System V gABI, chapter 5,
      "Program Header"), with bytes beyond the end of the file read as zero. */
  function SegmentByte(ph: Phdr, data: seq<Byte>, k: nat): Byte {
    if k < ph.filesz && ph.offset + k < |data| then data[ph.offset + k] else 0
  }

  lemma PageImageByte(w: PageLoad, data: seq<Byte>, j: nat)
    requires j < FRAME_SIZE
    ensures ByteAt(PageImage(w, data), j) ==
      if j < CopyLength(w.ph, |data|, w.va) then CopySource(w.ph, data, w.va)[j] else 0
  {
    if CopyLength(w.ph, |data|, w.va) > 0 { OverlayByte(ZeroFrame(), CopySource(w.ph, data, w.va), j); }
    ZeroByte(j);
  }

  /** From the second page of a segment on, and on the first page when the segment is page
      aligned, the loader's page is the segment's image. */
  lemma ImageCorrect(ph: Phdr, data: seq<Byte>, k: nat)
    requires SegmentOk(ph) && ph.offset + ph.filesz < U64_LIMIT
    requires ph.vaddr <= (ph.vaddr + k) / FRAME_SIZE * FRAME_SIZE
    ensures var va := (ph.vaddr + k) / FRAME_SIZE * FRAME_SIZE;
            ByteAt(PageImage(PageLoad(ph, va), data), (ph.vaddr + k) % FRAME_SIZE) == SegmentByte(ph, data, k)
  {
    var va := (ph.vaddr + k) / FRAME_SIZE * FRAME_SIZE;
    var j := (ph.vaddr + k) % FRAME_SIZE;
    assert va + j == ph.vaddr + k;
    PageImageByte(PageLoad(ph, va), data, j);
    CopyInBounds(ph, |data|, va);
    if va < ph.vaddr + ph.filesz {
      assert FileOffset(ph, va) == ph.offset + (va - ph.vaddr);
    }
  }

  /** The byte that offset k of a segment has in the frame loaded for its first page. */
  function FirstPageByte(ph: Phdr, data: seq<Byte>, k: nat): Byte
    requires ph.vaddr % FRAME_SIZE + k < FRAME_SIZE
  {
    ByteAt(PageImage(PageLoad(ph, SegmentStart(ph)), data), ph.vaddr % FRAME_SIZE + k)
  }

  /** The byte d places further on in the segment, or 0 outside the first page. */
  function ShiftedByte(ph: Phdr, data: seq<Byte>, k: nat): Byte {
    var d := ph.vaddr % FRAME_SIZE;
    if d + k < FRAME_SIZE - d then SegmentByte(ph, data, d + k) else 0
  }

  lemma FirstOffset(ph: Phdr)
    requires SegmentOk(ph) && ph.offset + ph.filesz < U64_LIMIT
    ensures FileOffset(ph, SegmentStart(ph)) == ph.offset
  {
  }

  /** The frame of a segment's first page starts with the segment's first bytes, as many as the page
      holds of the segment, wherever in the page the segment starts; the rest is zero. */
  lemma FirstPageWhole(ph: Phdr, data: seq<Byte>, j: nat)
    requires SegmentOk(ph) && ph.offset + ph.filesz < U64_LIMIT && j < FRAME_SIZE
    ensures ByteAt(PageImage(PageLoad(ph, SegmentStart(ph)), data), j) ==
      if j < FRAME_SIZE - ph.vaddr % FRAME_SIZE then SegmentByte(ph, data, j) else 0
  {
    var va := SegmentStart(ph);
    assert va + ph.vaddr % FRAME_SIZE == ph.vaddr;
    FirstOffset(ph);
    CopyInBounds(ph, |data|, va);
    PageImageByte(PageLoad(ph, va), data, j);
  }

  /** On the first page of a segment that starts d bytes into it, the byte seen at offset k of the
      segment is the one that belongs d bytes further on. */
  lemma FirstPageShifted(ph: Phdr, data: seq<Byte>, k: nat)
    requires SegmentOk(ph) && ph.offset + ph.filesz < U64_LIMIT
    requires ph.vaddr % FRAME_SIZE + k < FRAME_SIZE
    ensures FirstPageByte(ph, data, k) == ShiftedByte(ph, data, k)
  {
    FirstPageWhole(ph, data, ph.vaddr % FRAME_SIZE + k);
  }

  /** The first page of a segment shows the segment's image. */
  ghost predicate FirstPageRight(ph: Phdr, data: seq<Byte>) {
    forall k {:trigger FirstPageByte(ph, data, k)} :: 0 <= k < FRAME_SIZE - ph.vaddr % FRAME_SIZE ==>
      FirstPageByte(ph, data, k) == SegmentByte(ph, data, k)
  }

  /** The first page of a segment is right if and only if the segment is page aligned or shows
      nothing but zeros there: shifting by d places and being unchanged makes all bytes zero. */
  lemma FirstPageExact(ph: Phdr, data: seq<Byte>)
    requires SegmentOk(ph) && ph.offset + ph.filesz < U64_LIMIT
    ensures FirstPageRight(ph, data) <==>
            ph.vaddr % FRAME_SIZE == 0 || forall k :: 0 <= k < FRAME_SIZE - ph.vaddr % FRAME_SIZE ==> SegmentByte(ph, data, k) == 0
  {
    hide FirstPageByte, SegmentByte;
    var d := ph.vaddr % FRAME_SIZE;
    forall k | 0 <= k < FRAME_SIZE - d ensures FirstPageByte(ph, data, k) == ShiftedByte(ph, data, k) {
      FirstPageShifted(ph, data, k);
    }
    if FirstPageRight(ph, data) && d > 0 {
      forall k | 0 <= k < FRAME_SIZE - d ensures SegmentByte(ph, data, k) == 0 { ZeroFromRight(ph, data, k); }
    }
  }

  /** Following the shifts from byte k on leads out of the page. */
  lemma {:induction false} ZeroFromRight(ph: Phdr, data: seq<Byte>, k: nat)
    requires SegmentOk(ph) && ph.offset + ph.filesz < U64_LIMIT && FirstPageRight(ph, data)
    requires 0 < ph.vaddr % FRAME_SIZE && k < FRAME_SIZE - ph.vaddr % FRAME_SIZE
    ensures SegmentByte(ph, data, k) == 0
    decreases FRAME_SIZE - k
  {
    hide FirstPageByte, SegmentByte;
    var d := ph.vaddr % FRAME_SIZE;
    FirstPageShifted(ph, data, k);
    assert FirstPageByte(ph, data, k) == SegmentByte(ph, data, k);
    if d + k < FRAME_SIZE - d { ZeroFromRight(ph, data, d + k); }
  }

  /** An executable that elf_load accepts, with one segment of two bytes at address 1. */
  function UnalignedFileByte(i: nat): Byte {
    if i == 0 then 0x7F else if i == 1 then 0x45 else if i == 2 then 0x4C else if i == 3 then 0x46
    else if i == 4 then 2 else if i == 5 then 1
    else if i == 16 then 2 else if i == 18 then 62
    else if i == 32 then 64 else if i == 54 then 56 else if i == 56 then 1
    else if i == 64 then 1 else if i == 72 then 120 else if i == 80 then 1 else if i == 96 then 2 else if i == 104 then 2
    else if i == 120 then 7 else if i == 121 then 9 else 0
  }

  function UnalignedFile(): seq<Byte> {
    seq(122, i requires 0 <= i => UnalignedFileByte(i))
  }

  lemma {:induction false} ZerosAreZero(bytes: seq<Byte>)
    requires forall i :: 0 <= i < |bytes| ==> bytes[i] == 0
    ensures Little(bytes) == 0
  {
    if bytes != [] { ZerosAreZero(bytes[1..]); }
  }

  lemma OneByteField(data: seq<Byte>, offset: nat, width: nat)
    requires 0 < width <= 8 && offset + width <= |data|
    requires forall i :: offset < i < offset + width ==> data[i] == 0
    ensures FieldAt(data, offset, width) == data[offset]
  {
    var bytes := data[offset..offset + width];
    ZerosAreZero(bytes[1..]);
    assert bytes[0] == data[offset];
  }

  /** elf_load accepts the file, loads its segment, and user code reads its second byte in place of
      its first. */
  lemma UnalignedSegmentIsWrong()
    ensures var data, ph := UnalignedFile(), Phdr(PT_LOAD, 120, 1, 2, 2);
            && HeaderOk(data) && Loadable(data) && PhdrCount(data) == 1 && PhdrFits(data, 0) && PhdrAt(data, 0) == ph
            && FirstPageByte(ph, data, 0) == 9 && SegmentByte(ph, data, 0) == 7
            && !FirstPageRight(ph, data)
  {
    hide FieldAt, FirstPageByte;
    var data, ph := UnalignedFile(), Phdr(PT_LOAD, 120, 1, 2, 2);
    OneByteField(data, 16, 2);
    OneByteField(data, 18, 2);
    OneByteField(data, 32, 8);
    OneByteField(data, 54, 2);
    OneByteField(data, 56, 2);
    OneByteField(data, 64, 4);
    OneByteField(data, 72, 8);
    OneByteField(data, 80, 8);
    OneByteField(data, 96, 8);
    OneByteField(data, 104, 8);
    FirstPageShifted(ph, data, 0);
  }

  /** An executable with two program headers, 64 bytes apart: 16 file bytes in three pages of memory, and
      a note.  Sixteen more bytes follow in the file. */
  function BssFileByte(i: nat): Byte {
    if i == 0 then 0x7F else if i == 1 then 0x45 else if i == 2 then 0x4C else if i == 3 then 0x46
    else if i == 4 then 2 else if i == 5 then 1
    else if i == 16 then 2 else if i == 18 then 62 else if i == 26 then 0x40
    else if i == 32 then 64 else if i == 54 then 64 else if i == 56 then 2
    else if i == 64 then 1 else if i == 72 then 192 else if i == 82 then 0x40 else if i == 96 then 16 else if i == 105 then 0x30
    else if i == 128 then 4
    else if 192 <= i < 208 then i - 191 else if 208 <= i < 224 then 0xEE else 0
  }

  function BssFile(): seq<Byte> {
    seq(224, i requires 0 <= i => BssFileByte(i))
  }

  lemma OneByteOfEight(data: seq<Byte>, at: nat, j: nat)
    requires at + 8 <= |data| && j < 4 && forall i :: at <= i < at + 8 && i != at + j ==> data[i] == 0
    ensures Eight(data, at) == data[at + j] as int * (if j == 0 then 1 else if j == 1 then 0x100 else if j == 2 then 0x1_0000 else 0x100_0000)
    ensures Four(data, at) == Eight(data, at)
  {
    assert data[at + 4] == 0 && data[at + 5] == 0 && data[at + 6] == 0 && data[at + 7] == 0;
  }

  lemma BssFields()
    ensures var data := BssFile();
            && Eight(data, 24) == 0x40_0000 && Eight(data, 32) == 64 && Two(data, 54) == 64 && Two(data, 56) == 2
  {
    hide Eight, Four;
    var data := BssFile();
    OneByteOfEight(data, 24, 2);
    OneByteOfEight(data, 32, 0);
  }

  lemma BssFirst()
    ensures var data := BssFile();
            && Four(data, 64) == 1 && Eight(data, 72) == 192 && Eight(data, 80) == 0x40_0000 && Eight(data, 96) == 16
            && Eight(data, 104) == 0x3000 && Four(data, 128) == 4
  {
    hide Eight, Four, Two;
    var data := BssFile();
    OneByteOfEight(data, 64, 0);
    OneByteOfEight(data, 72, 0);
    OneByteOfEight(data, 80, 2);
    OneByteOfEight(data, 96, 0);
    OneByteOfEight(data, 104, 1);
    OneByteOfEight(data, 128, 0);
  }

  lemma BssAccepted()
    ensures var data := BssFile(); |data| == 224 && HeaderOk(data) && EntryPoint(data) == 0x40_0000 && PhdrCount(data) == 2
  {
    hide EntryPoint, PhdrCount, Two, Four, Eight, FieldAt, HeaderOk;
    HeaderFields(BssFile());
    BssFields();
  }

  /** How the loader reads such a file. */
  predicate ReadsAsBss(data: seq<Byte>)
    requires |data| >= EHDR_SIZE
  {
    && HeaderOk(data) && EntryPoint(data) == 0x40_0000 && PhdrCount(data) == 2 && PhdrFits(data, 0) && PhdrFits(data, 1)
    && PhdrAt(data, 0) == Phdr(1, 192, 0x40_0000, 16, 0x3000) && PhdrAt(data, 1).kind == 4
  }

  lemma BssHeaders()
    ensures |BssFile()| == 224 && ReadsAsBss(BssFile())
  {
    hide BssFile, EntryPoint, PhdrCount, PhdrFits, PhdrAt, Two, Four, Eight, FieldAt, HeaderOk;
    var data := BssFile();
    BssAccepted();
    BssFields();
    BssFirst();
    assert PhdrPlace(data, 0) == 64 && PhdrPlace(data, 1) == 128;
    hide PhdrPlace;
    PhdrFields(data, 0);
    PhdrFields(data, 1);
  }

  const BSS := Phdr(1, 192, 0x40_0000, 16, 0x3000)

  /** The loader maps three pages for it, one with the 16 bytes and zeros, two with zeros. */
  lemma BssIsZero()
    ensures Loadable(BssFile()) && Work(BssFile()) == [PageLoad(BSS, 0x40_0000), PageLoad(BSS, 0x40_1000), PageLoad(BSS, 0x40_2000)]
    ensures forall k :: 0 <= k < 0x3000 ==>
              ByteAt(PageImage(PageLoad(BSS, (0x40_0000 + k) / FRAME_SIZE * FRAME_SIZE), BssFile()), k % FRAME_SIZE) ==
                if k < 16 then k + 1 else 0
  {
    hide HeaderOk, EntryPoint, PhdrCount, PhdrFits, PhdrAt, PageImage, ByteAt, SegmentPages, Loadable, Work, BssFile;
    BssHeaders();
    BssLoadable();
    BssPages(BSS);
    BssWork(BssFile(), BSS);
    forall k | 0 <= k < 0x3000
      ensures ByteAt(PageImage(PageLoad(BSS, (0x40_0000 + k) / FRAME_SIZE * FRAME_SIZE), BssFile()), k % FRAME_SIZE) == if k < 16 then k + 1 else 0
    {
      BssByte(k);
    }
  }

  lemma BssByte(k: nat)
    requires k < 0x3000
    ensures ByteAt(PageImage(PageLoad(BSS, (0x40_0000 + k) / FRAME_SIZE * FRAME_SIZE), BssFile()), k % FRAME_SIZE) ==
      if k < 16 then k + 1 else 0
  {
    hide PageImage, ByteAt;
    ImageCorrect(BSS, BssFile(), k);
    assert k < 16 ==> BssFile()[192 + k] == BssFileByte(192 + k);
  }

  lemma BssWork(data: seq<Byte>, ph: Phdr)
    requires HeaderOk(data) && PhdrCount(data) == 2 && PhdrFits(data, 0) && PhdrFits(data, 1)
    requires PhdrAt(data, 0) == ph && ph.kind == PT_LOAD && PhdrAt(data, 1).kind != PT_LOAD
    ensures Work(data) == SegmentPages(ph)
  {
    hide PhdrFits, PhdrAt, SegmentPages, FieldAt;
    assert WorkFrom(data, 2) == [];
    assert WorkFrom(data, 1) == [];
  }

  lemma BssLoadable()
    ensures Loadable(BssFile())
  {
    hide HeaderOk, PhdrCount, PhdrFits, PhdrAt, BssFileByte, FieldAt, Two, Eight;
    BssHeaders();
    BssFields();
    var data := BssFile();
    FieldOfEight(data, 32);
    FieldOfTwo(data, 54);
  }

  lemma BssPages(ph: Phdr)
    requires ph == Phdr(1, 192, 0x40_0000, 16, 0x3000)
    ensures SegmentPages(ph) == [PageLoad(ph, 0x40_0000), PageLoad(ph, 0x40_1000), PageLoad(ph, 0x40_2000)]
  {
    assert PagesFrom(ph, 0x40_3000) == [];
    assert PagesFrom(ph, 0x40_2000) == [PageLoad(ph, 0x40_2000)];
    assert PagesFrom(ph, 0x40_1000) == [PageLoad(ph, 0x40_1000), PageLoad(ph, 0x40_2000)];
  }

  /** The page load that wins for each address when pages are loaded in order. */
  function LastLoads(work: seq<PageLoad>): map<nat, PageLoad> {
    if work == [] then map[]
    else LastLoads(work[..|work| - 1])[work[|work| - 1].va := work[|work| - 1]]
  }

  ghost predicate PageDisjoint(work: seq<PageLoad>) {
    forall i, j :: 0 <= i < j < |work| ==> work[i].va != work[j].va
  }

  lemma {:induction false} LastLoadsAre(work: seq<PageLoad>)
    ensures forall va :: va in LastLoads(work) ==>
              LastLoads(work)[va].va == va && exists j :: 0 <= j < |work| && work[j] == LastLoads(work)[va]
    ensures forall j :: 0 <= j < |work| ==> work[j].va in LastLoads(work)
  {
    if work != [] {
      var front := work[..|work| - 1];
      LastLoadsAre(front);
      forall va | va in LastLoads(work)
        ensures LastLoads(work)[va].va == va && exists j :: 0 <= j < |work| && work[j] == LastLoads(work)[va]
      {
        if va != work[|work| - 1].va {
          assert va in LastLoads(front) && LastLoads(work)[va] == LastLoads(front)[va];
          var j :| 0 <= j < |front| && front[j] == LastLoads(front)[va];
          assert work[j] == LastLoads(work)[va];
        }
      }
      forall j | 0 <= j < |work| ensures work[j].va in LastLoads(work) {
        if j < |front| { assert front[j] == work[j]; }
      }
    }
  }

  lemma {:induction false} DisjointLoadsAllWin(work: seq<PageLoad>, j: nat)
    requires PageDisjoint(work) && j < |work|
    ensures work[j].va in LastLoads(work) && LastLoads(work)[work[j].va] == work[j]
  {
    if j < |work| - 1 {
      var front := work[..|work| - 1];
      assert forall i :: 0 <= i < |front| ==> front[i] == work[i];
      DisjointLoadsAllWin(front, j);
      assert front[j] == work[j];
    }
  }
}
