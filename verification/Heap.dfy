/** The kernel heap (src/mm/heap.c): a first-fit free list inside the memory it manages, grown
    page by page through the frame allocator and the page tables. */
module Heap {
  import opened Bits
  import opened Pmm
  import opened PageTables
  import opened Window
  import opened Leaves
  import opened Walks
  import opened Paging
  import opened HeapModel
  import opened HeapWords
  import opened HeapBacking

  const NOTHING := State(map[], [], HEAP_START, 0, 0)

  function Zeros(n: nat): (z: Words)
    ensures |z| == n && forall k :: 0 <= k < n ==> z[k] == 0
  {
    seq(n, _ => 0)
  }

  lemma NothingOk()
    ensures Ok(NOTHING)
  {
    NoLiveBytes(map[]);
  }

  lemma ZerosAppended(words: Words, pages: nat)
    ensures Longer(words, words + Zeros(512 * pages), pages)
  {
  }

  lemma ZerosTwice(words: Words, m: nat)
    ensures words + Zeros(512 * m) + Zeros(512) == words + Zeros(512 * (m + 1))
    ensures words + Zeros(512 * 0) == words
  {
  }

  /** pmm_alloc_frame, seen from the page tables: a new frame of no table. */
  method GrabFrame(vm: AddressSpaces) returns (frame: nat)
    requires vm.Valid()
    modifies vm.pmm, vm.pmm.bitmap
    ensures vm.Valid()
    ensures frame == 0 ==> vm.pmm.used == old(vm.pmm.used) && Exhausted(vm.pmm.used, vm.pmm.totalFrames)
    ensures frame != 0 ==>
      var f := frame / FRAME_SIZE;
      && frame == f * FRAME_SIZE && f < |vm.mem| && f != 0 && f !in old(vm.pmm.used)
      && vm.pmm.used == old(vm.pmm.used) + {f} && TookLow(old(vm.pmm.used), vm.pmm.used, 1)
      && Foreign(vm.tree, vm.lost, vm.pmm.used) == old(Foreign(vm.tree, vm.lost, vm.pmm.used)) + {f}
      && Foreign(vm.tree, vm.lost, vm.pmm.used) - {f} == old(Foreign(vm.tree, vm.lost, vm.pmm.used))
  {
    hide Encodes, TablesOk, Held, Foreign, NextFrame, TookLow;
    frame := vm.pmm.AllocFrame();
    if frame != 0 {
      HeldMore(vm.tree, vm.lost, old(vm.pmm.used), frame / FRAME_SIZE);
      TookNext(old(vm.pmm.used), vm.pmm.totalFrames);
    }
  }

  /** pmm_free_frame of a frame of no table. */
  method ReturnFrame(vm: AddressSpaces, frame: nat)
    requires vm.Valid() && frame / FRAME_SIZE != 0
    requires frame / FRAME_SIZE in Foreign(vm.tree, vm.lost, vm.pmm.used)
    modifies vm.pmm, vm.pmm.bitmap
    ensures vm.Valid() && vm.pmm.used == old(vm.pmm.used) - {frame / FRAME_SIZE}
    ensures Foreign(vm.tree, vm.lost, vm.pmm.used) == old(Foreign(vm.tree, vm.lost, vm.pmm.used)) - {frame / FRAME_SIZE}
  {
    hide Encodes, TablesOk, Held;
    vm.pmm.FreeFrame(frame);
    HeldReturn(vm.tree, vm.lost, old(vm.pmm.used), frame / FRAME_SIZE);
  }

  lemma HeldReturn(tree: Tree, lost: set<nat>, used: set<nat>, f: nat)
    requires Held(tree, lost, used) && f in Foreign(tree, lost, used)
    ensures Held(tree, lost, used - {f})
  {
  }

  /** b is a with the frame f taken for a page. */
  ghost predicate FrameOut(a: VmState, b: VmState, f: nat) {
    && b.tree == a.tree && b.lost == a.lost && f !in a.used && b.used == a.used + {f} && Held(a.tree, a.lost, a.used)
    && TookLow(a.used, b.used, 1)
    && Foreign(b.tree, b.lost, b.used) == Foreign(a.tree, a.lost, a.used) + {f}
    && Foreign(b.tree, b.lost, b.used) - {f} == Foreign(a.tree, a.lost, a.used)
  }

  /** paging_map_page on the next heap page: the page is there, or only its frame was taken. */
  method MapHeapEntry(vm: AddressSpaces, heapEnd: nat, frame: nat, ghost f: nat, ghost frames: seq<nat>, ghost a: VmState) returns (ok: bool)
    requires vm.Valid() && FrameOut(a, StateOf(vm), f) && a.mem == vm.mem
    requires Backing(a.mem, vm.kroot, a.tree, a.lost, a.used, frames)
    requires heapEnd == PageAddr(|frames|) && heapEnd < HEAP_LIMIT && frame == f * FRAME_SIZE && 0 < f < |vm.mem|
    requires GrowthAvoids511(a.tree, vm.kroot, a.used, vm.pmm.totalFrames, |frames|, 1)
    modifies vm, vm.pmm, vm.pmm.bitmap
    ensures vm.Valid() && vm.cr3 == old(vm.cr3)
    ensures if ok then Grew(vm.kroot, a, StateOf(vm), 1) else FrameOut(a, StateOf(vm), f) && KernelEntryKept(a.mem, vm.mem, vm.kroot) && ScratchStays(a.mem, vm.mem, vm.kroot)
    ensures ok ==> Backing(vm.mem, vm.kroot, vm.tree, vm.lost, vm.pmm.used, frames + [f])
    ensures !ok ==> Exhausted(vm.pmm.used, vm.pmm.totalFrames) && HeapLeavesKept(a.mem, vm.mem, vm.kroot)
  {
    hide Exhausted, AddressSpaces.Valid, Backing, Foreign, MapReaches, LeafSet, LeavesKept, Held, TablesOk, Costs, KeepsWindow,
         SlotOf, Entry, TreeGrows, NextFrame, TookLow, Avoids511, GrowthAvoids511, KernelEntryKept, Missing, HeapLeavesKept, ScratchStays;
    vm.Parts();
    ghost var used1 := vm.pmm.used;
    HeapReaches(a.mem, vm.kroot, vm.ptHi, a.tree, used1, vm.pmm.totalFrames, |frames|);
    TableAvoids511(a.tree, vm.kroot, a.used, used1, vm.pmm.totalFrames, |frames|);
    ghost var m := Missing(a.tree, vm.kroot, SlotOf(heapEnd));
    assert |frames| < MAX_HEAP_PAGES && frame / FRAME_SIZE == f;
    hide PageAddr;
    var rc := vm.MapPage(heapEnd, frame, RW_USER);
    ok := rc == 0;
    vm.Parts();
    if rc != 0 {
      AllLeavesKept(a.mem, vm.mem, vm.kroot, a.tree);
      KeptScratch(a.mem, vm.mem, a.tree, vm.kroot);
    } else {
      HeapPageMapped(vm.kroot, a, used1, StateOf(vm), m, frames, f);
    }
  }

  lemma HeapPageMapped(kroot: nat, a: VmState, used1: set<nat>, b: VmState, m: nat, frames: seq<nat>, f: nat)
    requires FrameOut(a, VmState(a.mem, a.tree, a.lost, used1), f) && Backing(a.mem, kroot, a.tree, a.lost, a.used, frames)
    requires Pml4(kroot) in a.tree && |frames| < MAX_HEAP_PAGES && f < 0x10_0000_0000 && |b.mem| <= 0x10_0000_0000 && m <= 1
    requires LeafSet(a.mem, b.mem, kroot, a.tree, kroot, SlotOf(PageAddr(|frames|)), Entry(f, RW_USER))
    requires Held(b.tree, b.lost, b.used) && TreeGrows(a.tree, b.tree) && b.lost == a.lost
    requires KernelEntryKept(a.mem, b.mem, kroot)
    requires TookLow(used1, b.used, m) && Foreign(b.tree, b.lost, b.used) == Foreign(a.tree, a.lost, used1)
    ensures Grew(kroot, a, b, 1) && Backing(b.mem, kroot, b.tree, b.lost, b.used, frames + [f])
  {
    hide LeafSet, Held, TreeGrows, TookLow, Foreign, KernelEntryKept, Backing, Costs, Entry, SlotOf, PageAddr, ScratchStays;
    HeapSlot(|frames|);
    SetScratch(a.mem, b.mem, kroot, a.tree, kroot, SlotOf(PageAddr(|frames|)), Entry(f, RW_USER), kroot);
    ForeignInUse(a, f);
    TookTwice(a.used, used1, b.used, 1, m);
    TookFewer(a.used, b.used, 1 + m, 2);
    BackingNext(a.mem, b.mem, kroot, a.tree, b.tree, a.lost, b.lost, a.used, b.used, frames, f);
    PageCosts(a.tree, b.tree, a.lost, a.used, b.used, f);
  }

  lemma ForeignInUse(a: VmState, f: nat)
    ensures f !in a.used ==> f !in Foreign(a.tree, a.lost, a.used)
  {
  }

  lemma FrameIsForeign(a: VmState, b: VmState, f: nat)
    requires FrameOut(a, b, f)
    ensures f in Foreign(b.tree, b.lost, b.used) && b.used - {f} == a.used
  {
    hide Foreign, Held, TookLow;
  }

  /** The mapping of one heap page, given its frame: mapped and used, or the frame given back. */
  method MapHeapPage(vm: AddressSpaces, heapEnd: nat, frame: nat, ghost f: nat, ghost frames: seq<nat>, ghost a: VmState) returns (ok: bool)
    requires vm.Valid() && FrameOut(a, StateOf(vm), f) && a.mem == vm.mem
    requires Backing(a.mem, vm.kroot, a.tree, a.lost, a.used, frames)
    requires heapEnd == PageAddr(|frames|) && heapEnd < HEAP_LIMIT && frame == f * FRAME_SIZE && 0 < f < |vm.mem|
    requires GrowthAvoids511(a.tree, vm.kroot, a.used, vm.pmm.totalFrames, |frames|, 1)
    modifies vm, vm.pmm, vm.pmm.bitmap
    ensures vm.Valid() && vm.cr3 == old(vm.cr3)
    ensures Grew(vm.kroot, a, StateOf(vm), if ok then 1 else 0)
    ensures Backing(vm.mem, vm.kroot, vm.tree, vm.lost, vm.pmm.used, if ok then frames + [f] else frames)
    ensures !ok ==> AlmostExhausted(vm.pmm.used, vm.pmm.totalFrames)
  {
    hide Exhausted, AlmostExhausted, AddressSpaces.Valid, Backing, Foreign, FrameOut, GrowthAvoids511, KernelEntryKept, HeapLeavesKept, Grew, ScratchStays;
    ok := MapHeapEntry(vm, heapEnd, frame, f, frames, a);
    if !ok {
      FrameIsForeign(a, StateOf(vm), f);
      LastFrameBack(vm.pmm.used, vm.pmm.totalFrames, f);
      OutMeans(a, StateOf(vm), f);
      ReturnFrame(vm, frame);
      MemoryBounded(vm);
      GrewSame(vm.kroot, a, StateOf(vm));
      BackingKept(a.mem, vm.mem, vm.kroot, a.tree, vm.tree, a.lost, vm.lost, a.used, vm.pmm.used, frames);
    }
  }

  lemma OutMeans(a: VmState, b: VmState, f: nat)
    requires FrameOut(a, b, f)
    ensures b.tree == a.tree && b.lost == a.lost
  {
  }

  lemma MemoryBounded(vm: AddressSpaces)
    requires vm.Valid()
    ensures |vm.mem| <= 0x10_0000_0000
  {
    hide AddressSpaces.Valid, TablesOk, Held;
    vm.Parts();
  }

  lemma GrewSame(kroot: nat, a: VmState, b: VmState)
    requires b.tree == a.tree && b.lost == a.lost && b.used == a.used && KernelEntryKept(a.mem, b.mem, kroot) && ScratchStays(a.mem, b.mem, kroot)
    ensures Grew(kroot, a, b, 0)
  {
    hide TookLow, ScratchStays;
    TookNone(a.used, 0);
    assert a.tree.Values - a.tree.Values == {};
  }

  /** What is left of a round of heap_extend when the heap's own words are not looked at. */
  method BackPage(vm: AddressSpaces, heapEnd: nat, ghost frames: seq<nat>) returns (ok: bool, ghost f: nat)
    requires vm.Valid() && Backing(vm.mem, vm.kroot, vm.tree, vm.lost, vm.pmm.used, frames)
    requires heapEnd == PageAddr(|frames|) && heapEnd < HEAP_LIMIT
    requires GrowthAvoids511(vm.tree, vm.kroot, vm.pmm.used, vm.pmm.totalFrames, |frames|, 1)
    modifies vm, vm.pmm, vm.pmm.bitmap
    ensures vm.Valid() && vm.cr3 == old(vm.cr3)
    ensures Grew(vm.kroot, old(StateOf(vm)), StateOf(vm), if ok then 1 else 0)
    ensures Backing(vm.mem, vm.kroot, vm.tree, vm.lost, vm.pmm.used, if ok then frames + [f] else frames)
    ensures !ok ==> AlmostExhausted(vm.pmm.used, vm.pmm.totalFrames)
  {
    hide Exhausted, AlmostExhausted, AddressSpaces.Valid, Backing, Foreign, Held, TablesOk, TookLow, GrowthAvoids511, Grew;
    ghost var a := StateOf(vm);
    vm.Parts();
    KernelRootInside(vm);
    GrewNothing(vm.kroot, a);
    var frame := GrabFrame(vm);
    if frame == 0 {
      LastFrameBack(a.used, vm.pmm.totalFrames, 0);
      return false, 0;
    }
    f := frame / FRAME_SIZE;
    ok := MapHeapPage(vm, heapEnd, frame, f, frames, a);
  }

  lemma KernelRootInside(vm: AddressSpaces)
    requires vm.Valid()
    ensures vm.kroot < |vm.mem|
  {
    hide TablesOk, Held, AddressSpaces.Valid;
    vm.Parts();
    RootShown(vm.mem, vm.kroot, vm.ptHi, vm.tree);
  }

  lemma RepEnd(words: Words, s: State, head: nat)
    requires Rep(words, s, head)
    ensures s.end == HEAP_START + 8 * |words| && s.end < U64_LIMIT && head == At(s.order, 0)
  {
  }

  lemma SplitUsed(s: State, i: nat, n: nat)
    requires i < |s.order| && s.order[i] in s.blocks
    ensures SplitAt(s, i, n).used == s.used
  {
  }

  lemma SplitNothing(s: State, i: nat, n: nat)
    requires i < |s.order| && s.order[i] in s.blocks && s.blocks[s.order[i]].len < n + BLOCK_HEADER_SIZE + MIN_BLOCK_SIZE
    ensures SplitAt(s, i, n) == s
  {
  }

  lemma StillTouched(words: Words, words': Words, a: nat, len: nat, r: nat)
    requires |words'| == |words| && a + 24 <= r && r + 24 <= a + len
    requires forall x: nat {:trigger WordAt(words', x)} :: x !in {a, a + 16, r, r + 8, r + 16} ==> WordAt(words', x) == WordAt(words, x)
    ensures Touched(words, words', a, a + len)
  {
    hide WordAt;
  }

  lemma PreviousNotNull(words: Words, s: State, head: nat, i: nat)
    requires Ok(s) && Rep(words, s, head) && i < |s.order| && (i > 0 ==> s.order[i - 1] == 0)
    ensures i == 0
  {
    hide Ok, Rep;
    if i > 0 { ListedAt(s, i - 1); }
  }

  lemma WroteLength(words: Words, words': Words, x: nat, w: Word)
    ensures Wrote(words, words', x, w) ==> |words'| == |words|
  {
  }

  lemma TakeUsed(s: State, i: nat, n: nat)
    requires i < |s.order| && s.order[i] in s.blocks && n + BLOCK_HEADER_SIZE <= s.blocks[s.order[i]].len
    ensures TakeAt(s, i, n).used == (s.used + n + BLOCK_HEADER_SIZE) % U64_LIMIT
  {
  }

  lemma SplitPrefix(s: State, i: nat, n: nat)
    requires i < |s.order| && s.order[i] in s.blocks
    ensures |SplitAt(s, i, n).order| >= |s.order| && forall k :: 0 <= k <= i ==> SplitAt(s, i, n).order[k] == s.order[k]
  {
  }

  lemma SplitKeepsLive(s: State, i: nat, n: nat)
    requires Ok(s) && i < |s.order| && s.order[i] in s.blocks && n % 8 == 0 && 8 <= n
    ensures LiveKept(s.blocks, SplitAt(s, i, n).blocks) && 0 !in s.blocks
  {
    hide Ok, Disjoint;
    LiveAddresses(s);
    ListedAt(s, i);
    if s.blocks[s.order[i]].len >= n + BLOCK_HEADER_SIZE + MIN_BLOCK_SIZE {
      TilesDisjoint(s);
      CutDisjoint(s.blocks, s.order[i], s.order[i] + BLOCK_HEADER_SIZE + n, Free, Free);
    }
  }

  lemma EndAligned(s: State)
    requires Ok(s)
    ensures s.end % 8 == 0 && HEAP_START <= s.end
  {
  }

  lemma RegionWords(words: Words, end: nat, pages: nat)
    requires pages > 0 && end % 8 == 0 && HEAP_START <= end && end + pages * FRAME_SIZE == HEAP_START + 8 * |words|
    ensures InHeap(words, end) && InHeap(words, end + 8) && InHeap(words, end + 16)
  {
  }

  lemma StillLonger(words0: Words, words: Words, words': Words, pages: nat, end: nat)
    requires Longer(words0, words, pages) && |words'| == |words| && end == HEAP_START + 8 * |words0|
    requires forall x: nat {:trigger WordAt(words', x)} :: x !in {end, end + 8, end + 16} ==> WordAt(words', x) == WordAt(words, x)
    ensures Longer(words0, words', pages)
  {
    hide WordAt;
  }

  lemma HeadSmall(words: Words, s: State, head: nat)
    requires Ok(s) && Rep(words, s, head)
    ensures head < U64_LIMIT
  {
    hide Ok, Rep;
    RepEnd(words, s, head);
    if |s.order| > 0 { ListedBlock(words, s, head, 0); }
  }

  /** What a call of kmalloc leaves: the step of the model, the address it returns, and the live
      blocks' headers and contents untouched. */
  ghost predicate Allocated(s0: State, words0: Words, s: State, words: Words, e: Event, ptr: nat)
    requires e.Alloc?
  {
    && Ok(s0) && s == Step(s0, e)
    && ptr == (if Succeeds(s0, e) then Chosen(s0, e) + BLOCK_HEADER_SIZE else 0)
    && LiveWordsKept(words0, words, s0.blocks, 0)
  }

  predicate NeedsRoom(s: State, size: nat) {
    Grows(s, Alloc(size, 0))
  }

  lemma NoRequest(s: State, words: Words, mapped: nat)
    requires Ok(s)
    ensures Allocated(s, words, s, words, Alloc(0, mapped), 0) && !NeedsRoom(s, 0)
  {
  }

  lemma FoundFit(s: State, size: nat, k: nat)
    requires Ok(s) && size > 0 && k == FirstFit(s.blocks, s.order, AlignUp8(size)) && k < |s.order|
    ensures s.order[k] in s.blocks && AlignUp8(size) + BLOCK_HEADER_SIZE <= s.blocks[s.order[k]].len
    ensures !NeedsRoom(s, size) && Chosen(s, Alloc(size, 0)) == s.order[k]
    ensures Succeeds(s, Alloc(size, 0)) && Step(s, Alloc(size, 0)) == Carve(s, k, AlignUp8(size))
    ensures Carve(s, k, AlignUp8(size)).end == s.end
  {
    hide Ok, Carve;
    ListedAt(s, k);
    CarveOk(s, k, AlignUp8(size));
  }

  /** After the extension the retry finds the new block first. */
  lemma RetryDone(s0: State, w0: Words, s1: State, w1: Words, s2: State, w2: Words, size: nat, m: nat, ptr: nat)
    requires Ok(s0) && size > 0 && NeedsRoom(s0, size) && Ok(s1) && s1 == Grow(s0, PagesNeeded(AlignUp8(size)))
    requires LiveWordsKept(w0, w1, s0.blocks, 0)
    requires Allocated(s1, w1, s2, w2, Alloc(AlignUp8(size), m), ptr)
    ensures Allocated(s0, w0, s2, w2, Alloc(size, PagesNeeded(AlignUp8(size))), ptr) && ptr != 0
  {
    hide Ok, LiveWordsKept, Carve, Step, Succeeds, Chosen, Grow;
    RetryStep(s0, size, m);
    GrowKeepsLive(s0, PagesNeeded(AlignUp8(size)));
    LiveKeptTwice(w0, w1, w2, s0.blocks, s1.blocks, 0, 0);
  }

  lemma RetryStep(s0: State, size: nat, m: nat)
    requires Ok(s0) && size > 0 && NeedsRoom(s0, size) && Ok(Grow(s0, PagesNeeded(AlignUp8(size))))
    ensures var n := AlignUp8(size);
            var s1 := Grow(s0, PagesNeeded(n));
            var e0, e1 := Alloc(size, PagesNeeded(n)), Alloc(n, m);
            && Step(s1, e1) == Step(s0, e0) && Succeeds(s1, e1) && Succeeds(s0, e0) && Chosen(s1, e1) == Chosen(s0, e0)
  {
    hide Ok, Carve, LiveBytes, AlignUp8, FirstFit;
    var n := AlignUp8(size);
    AlignedAlready(size);
    RetryFits(s0, n);
  }

  lemma RetryHasRoom(s0: State, size: nat)
    requires Ok(s0) && size > 0
    ensures var s1 := Grow(s0, PagesNeeded(AlignUp8(size))); !NeedsRoom(s1, AlignUp8(size))
  {
    hide Ok, AlignUp8, FirstFit;
    var n := AlignUp8(size);
    AlignedAlready(size);
    RetryFits(s0, n);
  }

  lemma GrowKeepsLive(s: State, pages: nat)
    requires Ok(s)
    ensures LiveKept(s.blocks, Grow(s, pages).blocks) && 0 !in s.blocks
  {
    hide LiveBytes;
    EndIsFree(s);
  }

  lemma ExtensionFailed(s0: State, w0: Words, s1: State, w1: Words, size: nat, m: nat)
    requires Ok(s0) && size > 0 && NeedsRoom(s0, size) && m < PagesNeeded(AlignUp8(size))
    requires s1 == Leak(s0, m) && LiveWordsKept(w0, w1, s0.blocks, 0)
    ensures Allocated(s0, w0, s1, w1, Alloc(size, m), 0)
  {
    hide Ok, LiveWordsKept, Carve;
  }

  lemma LeakUsed(s: State, m: nat)
    ensures Leak(s, m).used == s.used && Leak(s, m).end == s.end + m * FRAME_SIZE
  {
  }

  lemma CurrentIs(s: State, k: nat, curr: nat)
    requires k < |s.order| && curr == At(s.order, k)
    ensures curr == s.order[k]
  {
  }

  lemma PayloadWord(words: Words, s: State, head: nat, a: nat, x: nat)
    requires Ok(s) && Rep(words, s, head) && a in s.blocks && s.blocks[a].status == Live
    requires a + BLOCK_HEADER_SIZE <= x < a + s.blocks[a].len && x % 8 == 0
    ensures InHeap(words, x)
  {
    hide Ok, Rep;
    RepEnd(words, s, head);
    BlockInside(s, a);
  }

  lemma PayloadWritten(words: Words, words': Words, s: State, head: nat, a: nat, x: nat, w: Word)
    requires Ok(s) && Rep(words, s, head) && a in s.blocks && s.blocks[a].status == Live
    requires a + BLOCK_HEADER_SIZE <= x < a + s.blocks[a].len && Wrote(words, words', x, w)
    ensures Rep(words', s, head)
  {
    hide Ok, WordAt, Touched, Headers, Links;
    RepEnd(words, s, head);
    TilesDisjoint(s);
    hide Disjoint, Listed;
    WroteInside(words, words', x, w, a, a + s.blocks[a].len);
    HeaderSize(words, s.blocks, a);
    HeadersAfter(words, words', s.blocks, s.blocks, a);
    LinksStay(words, words', s, head, a);
  }

  lemma LinksStay(words: Words, words': Words, s: State, head: nat, a: nat)
    requires Ok(s) && Rep(words, s, head) && a in s.blocks && s.blocks[a].status == Live
    requires Touched(words, words', a, a + s.blocks[a].len)
    ensures Links(words', s.order, head)
  {
    hide Ok, WordAt, Touched;
    forall k | 0 <= k < |s.order| ensures WordAt(words', s.order[k] + 16) == At(s.order, k + 1) {
      ListedAt(s, k);
      LinksElsewhere(words, words', s, head, a, k);
    }
  }

  lemma InHeapStays(words: Words, words': Words, x: nat)
    requires InHeap(words, x) && |words'| == |words|
    ensures InHeap(words', x)
  {
  }

  lemma SizeStays(words: Words, words': Words, a: nat)
    requires Wrote(words, words', a + 8, 0)
    ensures WordAt(words', a) == WordAt(words, a)
  {
  }

  lemma AtSmall(words: Words, s: State, head: nat, k: nat)
    requires Ok(s) && Rep(words, s, head)
    ensures At(s.order, k) < U64_LIMIT
  {
    hide Ok, Rep, WordAt;
    if k < |s.order| { ListedBlock(words, s, head, k); }
  }

  lemma InsertUsed(s: State, i: nat, a: nat)
    requires a in s.blocks && i <= |s.order|
    ensures InsertAt(s, i, a).used == (s.used - s.blocks[a].len) % U64_LIMIT && InsertAt(s, i, a).end == s.end
  {
  }

  lemma JoinUsed(s: State, i: nat)
    requires i < |s.order| && s.order[i] in s.blocks && (i + 1 < |s.order| ==> s.order[i + 1] in s.blocks)
    ensures JoinAt(s, i).used == s.used && JoinAt(s, i).end == s.end
  {
  }

  /** The list element i and its successor are blocks. */
  predicate JoinReady(s: State, i: nat) {
    i < |s.order| && s.order[i] in s.blocks && (i + 1 < |s.order| ==> s.order[i + 1] in s.blocks)
  }

  lemma NothingJoined(s: State, i: nat)
    requires JoinReady(s, i)
    requires i + 1 < |s.order| ==> s.order[i] + s.blocks[s.order[i]].len != s.order[i + 1]
    ensures JoinAt(s, i) == s
  {
  }

  lemma AfterInsert(s0: State, k: nat, a: nat)
    requires k <= |s0.order| && a in s0.blocks
    ensures var s1 := InsertAt(s0, k, a);
            && k < |s1.order| && s1.order[k] == a && At(s1.order, k + 1) == At(s0.order, k)
  {
  }

  lemma LiveAddresses(s: State)
    requires Ok(s)
    ensures 0 !in s.blocks
  {
  }

  lemma AfterFreed(s0: State, w0: Words, w1: Words, w2: Words, a: nat)
    requires Ok(s0) && a in s0.blocks && s0.blocks[a].status == Live
    requires var k := Before(s0.order, a);
             && LiveWordsKept(w0, w1, s0.blocks, a) && LiveWordsKept(w1, w2, InsertAt(s0, k, a).blocks, 0)
    ensures var k := Before(s0.order, a);
            && JoinReady(InsertAt(s0, k, a), k) && Freed(s0, a) == JoinAt(InsertAt(s0, k, a), k)
            && k < |Freed(s0, a).order| && Freed(s0, a).order[k] == a
            && (k > 0 ==> Freed(s0, a).order[k - 1] == s0.order[k - 1] && At(Freed(s0, a).order, k) == a)
    ensures LiveWordsKept(w0, w2, s0.blocks, a)
  {
    hide Ok, LiveWordsKept;
    var k := Before(s0.order, a);
    FreedOk(s0, k, a);
    LiveAddresses(s0);
    LiveKeptTwice(w0, w1, w2, s0.blocks, InsertAt(s0, k, a).blocks, a, 0);
  }

  lemma AfterRelease(s0: State, w0: Words, w2: Words, w3: Words, a: nat)
    requires Ok(s0) && IsLive(s0, a) && LiveWordsKept(w0, w2, s0.blocks, a)
    requires Before(s0.order, a) == 0 ==> w3 == w2
    requires Before(s0.order, a) > 0 ==> LiveWordsKept(w2, w3, Freed(s0, a).blocks, 0)
    ensures LiveWordsKept(w0, w3, s0.blocks, a)
    ensures var k := Before(s0.order, a);
            if k == 0 then Step(s0, Dealloc(a)) == Freed(s0, a)
            else JoinReady(Freed(s0, a), k - 1) && Step(s0, Dealloc(a)) == JoinAt(Freed(s0, a), k - 1)
    ensures Step(s0, Dealloc(a)).end == s0.end
  {
    hide Ok, LiveWordsKept, Freed;
    var k := Before(s0.order, a);
    if k > 0 {
      ReleaseOk(Freed(s0, a), k);
      LiveAddresses(s0);
      FreedKeepsLive(s0, a);
      LiveKeptTwice(w0, w2, w3, s0.blocks, Freed(s0, a).blocks, a, 0);
    }
  }

  lemma PreviousApart(s: State, a: nat)
    requires Ok(s) && a in s.blocks
    ensures var k := Before(s.order, a); k > 0 ==> s.order[k - 1] + 24 <= a
  {
    hide Ok;
    TilesDisjoint(s);
    var k := Before(s.order, a);
    if k > 0 { ListedAt(s, k - 1); }
  }

  lemma FreedKeepsLive(s: State, a: nat)
    requires Ok(s) && a in s.blocks && s.blocks[a].status == Live
    ensures OnlyFreed(s.blocks, Freed(s, a).blocks, a)
  {
    hide Ok, OnlyFreed;
    var i := Before(s.order, a);
    InsertOk(s, i, a);
    InsertFrees(s, i, a);
    FreedOk(s, i, a);
    JoinFrees(s.blocks, InsertAt(s, i, a), i, a);
  }

  /** What kfree's caller may pass: an address in the heap whose header, if it carries the magic
      number, is that of a live block. */
  ghost predicate Freeable(words: Words, s: State, ptr: nat) {
    && ptr >= BLOCK_HEADER_SIZE && InHeap(words, ptr - 16) && InHeap(words, ptr - 8)
    && (WordAt(words, ptr - 8) == HEAP_MAGIC ==> IsLive(s, ptr - BLOCK_HEADER_SIZE))
  }

  /** x is the address of a word of the live block that was returned as ptr. */
  predicate InPayload(s: State, ptr: nat, x: nat) {
    ptr >= BLOCK_HEADER_SIZE && x % 8 == 0 &&
    var a := ptr - BLOCK_HEADER_SIZE;
    IsLive(s, a) && ptr <= x < a + s.blocks[a].len
  }

  predicate IsLive(s: State, a: nat) {
    a in s.blocks && s.blocks[a].status == Live
  }

  /** What a call of kfree leaves: a live block is released and every other live block untouched;
      otherwise nothing happens. */
  ghost predicate Released(s0: State, words0: Words, s: State, words: Words, ptr: nat) {
    Ok(s0) &&
    if ptr >= BLOCK_HEADER_SIZE && IsLive(s0, ptr - BLOCK_HEADER_SIZE)
    then s == Step(s0, Dealloc(ptr - BLOCK_HEADER_SIZE)) && LiveWordsKept(words0, words, s0.blocks, ptr - BLOCK_HEADER_SIZE)
    else s == s0 && words == words0
  }

  lemma StartsEmpty(vm: AddressSpaces)
    requires vm.Valid()
    ensures Backing(vm.mem, vm.kroot, vm.tree, vm.lost, vm.pmm.used, [])
    ensures Ok(NOTHING) && Rep([], NOTHING, 0)
  {
    hide AddressSpaces.Valid, Ok, TablesOk, Held;
    vm.Parts();
    NothingOk();
  }

  /** The heap's memory at one moment: its pages, and the words in them. */
  datatype Extent = Extent(vm: VmState, end: nat, words: Words, frames: seq<nat>)

  /** From a to b the heap got n zeroed pages at its end. */
  ghost predicate Extended(kroot: nat, a: Extent, b: Extent, n: nat) {
    && b.end == a.end + n * FRAME_SIZE && b.words == a.words + Zeros(512 * n)
    && |b.frames| == |a.frames| + n && a.frames <= b.frames && Grew(kroot, a.vm, b.vm, n)
  }

  lemma SameExtent(kroot: nat, a: Extent)
    requires kroot < |a.vm.mem|
    ensures Extended(kroot, a, a, 0)
  {
    hide Grew;
    ZerosTwice(a.words, 0);
    GrewNothing(kroot, a.vm);
  }

  lemma ExtendedTwice(kroot: nat, a: Extent, b: Extent, c: Extent, m: nat, n: nat)
    requires Extended(kroot, a, b, m) && Extended(kroot, b, c, n) && n <= 1
    ensures Extended(kroot, a, c, m + n)
  {
    hide Grew, Zeros;
    ZerosTwice(a.words, m);
    ZerosTwice(b.words, 0);
    GrewTwice(kroot, a.vm, b.vm, c.vm, m, n);
  }

  /** An extension by `pages` pages stays in the heap's gigabyte and away from frame 511. */
  ghost predicate Room(kroot: nat, total: nat, a: Extent, pages: nat) {
    a.end + pages * FRAME_SIZE <= HEAP_LIMIT && GrowthAvoids511(a.vm.tree, kroot, a.vm.used, total, |a.frames|, pages)
  }

  lemma RoomForOne(kroot: nat, total: nat, a: Extent, pages: nat)
    requires Room(kroot, total, a, pages) && pages > 0
    ensures Room(kroot, total, a, 1)
  {
    hide GrowthAvoids511;
    FirstPageAvoids511(a.vm.tree, kroot, a.vm.used, total, |a.frames|, pages);
  }

  lemma RoomForRest(kroot: nat, total: nat, a: Extent, b: Extent, pages: nat)
    requires Extended(kroot, a, b, 1) && pages > 0 && Room(kroot, total, a, pages)
    ensures Room(kroot, total, b, pages - 1)
  {
    hide Grew, Zeros, GrowthAvoids511;
    GrewAvoids511(kroot, a.vm, b.vm, total, |a.frames|, pages);
  }

  /** Between the rounds of an extension: `done` of `pages` pages are there. */
  ghost predicate Rounds(kroot: nat, total: nat, a: Extent, b: Extent, done: nat, pages: nat) {
    done <= pages && Extended(kroot, a, b, done) && Room(kroot, total, b, pages - done)
  }

  lemma NoRounds(kroot: nat, total: nat, a: Extent, pages: nat)
    requires kroot < |a.vm.mem| && Room(kroot, total, a, pages)
    ensures Rounds(kroot, total, a, a, 0, pages)
  {
    hide Room, Extended;
    SameExtent(kroot, a);
  }

  lemma NextRoom(kroot: nat, total: nat, a: Extent, b: Extent, done: nat, pages: nat)
    requires Rounds(kroot, total, a, b, done, pages) && done < pages
    ensures Room(kroot, total, b, 1)
  {
    hide Room, Extended, GrowthAvoids511;
    RoomForOne(kroot, total, b, pages - done);
  }

  lemma NextRound(kroot: nat, total: nat, a: Extent, b: Extent, c: Extent, done: nat, pages: nat)
    requires Rounds(kroot, total, a, b, done, pages) && done < pages && Extended(kroot, b, c, 1)
    ensures Rounds(kroot, total, a, c, done + 1, pages)
  {
    hide Room, Extended;
    ExtendedTwice(kroot, a, b, c, done, 1);
    RoomForRest(kroot, total, b, c, pages - done);
  }

  lemma LastRound(kroot: nat, total: nat, a: Extent, b: Extent, c: Extent, done: nat, pages: nat)
    requires Rounds(kroot, total, a, b, done, pages) && Extended(kroot, b, c, 0)
    ensures Extended(kroot, a, c, done)
  {
    hide Room, Extended;
    ExtendedTwice(kroot, a, b, c, done, 0);
  }

  lemma RoundsMean(kroot: nat, total: nat, a: Extent, b: Extent, done: nat, pages: nat)
    requires Rounds(kroot, total, a, b, done, pages)
    ensures Extended(kroot, a, b, done)
  {
    hide Room, Extended;
  }

  class KernelHeap {
    const vm: AddressSpaces

    /** The 64-bit words from HEAP_START to heapEnd. */
    var words: Words
    /** free_list: the first free block, or 0. */
    var freeList: nat
    var heapEnd: nat
    var usedBytes: nat

    /** The blocks and the list that the words encode. */
    ghost var s: State
    /** The frame under each page. */
    ghost var frames: seq<nat>

    ghost predicate Backed()
      reads this, vm, vm.pmm, vm.pmm.bitmap
    {
      && vm.Valid()
      && heapEnd == HEAP_START + FRAME_SIZE * |frames| && |words| == 512 * |frames|
      && Backing(vm.mem, vm.kroot, vm.tree, vm.lost, vm.pmm.used, frames)
    }

    ghost predicate Encoded()
      reads this
    {
      Ok(s) && Rep(words, s, freeList) && usedBytes == s.used
    }

    ghost predicate Valid()
      reads this, vm, vm.pmm, vm.pmm.bitmap
    {
      Backed() && Encoded() && heapEnd == s.end
    }

    lemma BackedMeans()
      requires Backed()
      ensures vm.Valid()
    {
      hide AddressSpaces.Valid, Backing;
    }

    constructor (vm: AddressSpaces)
      requires vm.Valid()
      ensures Valid() && this.vm == vm && s == NOTHING && frames == []
    {
      hide AddressSpaces.Valid, Ok, Backing, Rep;
      this.vm := vm;
      words := [];
      freeList := 0;
      heapEnd := HEAP_START;
      usedBytes := 0;
      s := NOTHING;
      frames := [];
      new;
      StartsEmpty(vm);
    }

    method ReadWord(x: nat) returns (w: Word)
      requires InHeap(words, x)
      ensures w == WordAt(words, x)
    {
      w := words[(x - HEAP_START) / 8];
    }

    method WriteWord(x: nat, w: Word)
      requires InHeap(words, x)
      modifies `words
      ensures Wrote(old(words), words, x, w)
    {
      words := SetWord(words, x, w);
    }

    ghost function Reach(): Extent
      reads this, vm, vm.pmm
    {
      Extent(StateOf(vm), heapEnd, words, frames)
    }

    lemma RootReached()
      requires Backed()
      ensures vm.kroot < |Reach().vm.mem|
    {
      hide AddressSpaces.Valid, Backing;
      KernelRootInside(vm);
    }

    /** One round of heap_extend's loop: a frame, its mapping at heapEnd, and zeroes. */
    method ExtendPage() returns (ok: bool)
      requires Backed() && CanGrow(1)
      modifies `words, `heapEnd, `frames, vm, vm.pmm, vm.pmm.bitmap
      ensures Backed() && vm.cr3 == old(vm.cr3)
      ensures ok ==> Extended(vm.kroot, old(Reach()), Reach(), 1)
      ensures !ok ==> Extended(vm.kroot, old(Reach()), Reach(), 0)
      ensures !ok ==> AlmostExhausted(vm.pmm.used, vm.pmm.totalFrames)
    {
      hide AddressSpaces.Valid, Backing, Grew, Zeros, AlmostExhausted, GrowthAvoids511;
      assert heapEnd == PageAddr(|frames|);
      ZerosTwice(words, 0);
      ghost var f;
      ok, f := BackPage(vm, heapEnd, frames);
      if ok {
        words := words + Zeros(512);
        heapEnd := heapEnd + FRAME_SIZE;
        frames := frames + [f];
      }
    }

    /** heap_extend.  `mapped` is how many pages were mapped before a failure. */
    method HeapExtend(pages: nat) returns (rc: int, ghost mapped: nat)
      requires Backed() && CanGrow(pages)
      modifies `words, `heapEnd, `frames, vm, vm.pmm, vm.pmm.bitmap
      ensures Backed() && vm.cr3 == old(vm.cr3)
      ensures rc == 0 || rc == -1
      ensures mapped <= pages && (rc == 0 <==> mapped == pages)
      ensures Extended(vm.kroot, old(Reach()), Reach(), mapped)
      ensures mapped < pages ==> AlmostExhausted(vm.pmm.used, vm.pmm.totalFrames)
    {
      hide Backed, Extended, AlmostExhausted, GrowthAvoids511, Room, Rounds, Reach, StateOf;
      RootReached();
      ghost var a, total := Reach(), vm.pmm.totalFrames;
      NoRounds(vm.kroot, total, a, pages);
      mapped := 0;
      var i := 0;
      while i < pages
        invariant Backed() && vm.cr3 == old(vm.cr3)
        invariant i == mapped <= pages
        invariant Rounds(vm.kroot, total, a, Reach(), mapped, pages)
      {
        ghost var b := Reach();
        NextRoom(vm.kroot, total, a, b, mapped, pages);
        var ok := ExtendPage();
        if !ok {
          LastRound(vm.kroot, total, a, b, Reach(), mapped, pages);
          return -1, mapped;
        }
        NextRound(vm.kroot, total, a, b, Reach(), mapped, pages);
        mapped := mapped + 1;
        i := i + 1;
      }
      RoundsMean(vm.kroot, total, a, Reach(), pages, pages);
      return 0, mapped;
    }

    ghost predicate CanGrow(pages: nat)
      reads this, vm, vm.pmm
    {
      Room(vm.kroot, vm.pmm.totalFrames, Reach(), pages)
    }

    /** split_block. */
    method SplitBlock(block: nat, needed: nat, ghost i: nat)
      requires Encoded() && i < |s.order| && s.order[i] == block && needed % 8 == 0 && 8 <= needed
      requires block in s.blocks && needed + BLOCK_HEADER_SIZE <= s.blocks[block].len
      modifies `words, `s
      ensures Encoded() && s == SplitAt(old(s), i, needed) && |words| == |old(words)|
      ensures LiveWordsKept(old(words), words, old(s).blocks, 0)
    {
      hide Ok, WordAt, Rep, SplitAt, At, Touched, LiveWordsKept;
      ListedBlock(words, s, freeList, i);
      RepEnd(words, s, freeList);
      SplitOk(s, i, needed);
      ghost var w0 := words;
      var size := ReadWord(block);
      if size >= needed + MIN_BLOCK_SIZE {
        var r := block + BLOCK_HEADER_SIZE + needed;
        WriteWord(r, size - needed - BLOCK_HEADER_SIZE);
        WriteWord(r + 8, 0);
        var next := ReadWord(block + 16);
        WriteWord(r + 16, next);
        WriteWord(block, needed);
        WriteWord(block + 16, r);
        assert Touched(w0, words, block, block + s.blocks[block].len) by { StillTouched(w0, words, block, s.blocks[block].len, r); }
        SplitRep(w0, words, s, freeList, i, needed);
        SplitUsed(s, i, needed);
        s := SplitAt(s, i, needed);
      } else {
        SplitNothing(s, i, needed);
        NothingWritten(words, s.blocks);
      }
    }

    /** The end of kmalloc's search: unlink the block, mark it, count the request. */
    method TakeBlock(prev: nat, curr: nat, needed: nat, ghost i: nat)
      requires Encoded() && i < |s.order| && s.order[i] == curr && needed % 8 == 0
      requires prev == if i > 0 then s.order[i - 1] else 0
      requires curr in s.blocks
      requires needed + BLOCK_HEADER_SIZE <= s.blocks[curr].len < needed + BLOCK_HEADER_SIZE + MIN_BLOCK_SIZE
      modifies `words, `freeList, `usedBytes, `s
      ensures Encoded() && s == TakeAt(old(s), i, needed) && |words| == |old(words)|
      ensures LiveWordsKept(old(words), words, old(s).blocks, 0)
    {
      hide Ok, WordAt, Rep, TakeAt, At, Wrote, LiveWordsKept;
      ListedBlock(words, s, freeList, i);
      RepEnd(words, s, freeList);
      ghost var w0, head0 := words, freeList;
      var next := ReadWord(curr + 16);
      if prev != 0 {
        ListedBlock(words, s, freeList, i - 1);
        WriteWord(prev + 16, next);
      } else {
        PreviousNotNull(words, s, freeList, i);
        freeList := next;
      }
      ghost var w1 := words;
      WroteLength(w0, w1, prev + 16, next);
      WriteWord(curr + 8, HEAP_MAGIC);
      WroteLength(w1, words, curr + 8, HEAP_MAGIC);
      usedBytes := (usedBytes + needed + BLOCK_HEADER_SIZE) % U64_LIMIT;
      TakeRep(w0, w1, words, s, head0, freeList, i, needed);
      TakeOk(s, i, needed);
      TakeUsed(s, i, needed);
      s := TakeAt(s, i, needed);
    }

    /** The success branch of kmalloc's loop. */
    method Allocate(prev: nat, curr: nat, needed: nat, ghost i: nat)
      requires Encoded() && i < |s.order| && s.order[i] == curr && needed % 8 == 0 && 8 <= needed
      requires prev == if i > 0 then s.order[i - 1] else 0
      requires curr in s.blocks && needed + BLOCK_HEADER_SIZE <= s.blocks[curr].len
      modifies `words, `freeList, `usedBytes, `s
      ensures Encoded() && s == Carve(old(s), i, needed) && |words| == |old(words)|
      ensures LiveWordsKept(old(words), words, old(s).blocks, 0)
    {
      hide Ok, Rep, TakeAt, SplitAt, LiveWordsKept;
      ghost var s0, w0 := s, words;
      SplitOk(s, i, needed);
      SplitBlock(curr, needed, i);
      SplitPrefix(s0, i, needed);
      ghost var s1, w1 := s, words;
      TakeBlock(prev, curr, needed, i);
      SplitKeepsLive(s0, i, needed);
      LiveKeptTwice(w0, w1, words, s0.blocks, s1.blocks, 0, 0);
    }

    /** The new region becomes the first free block. */
    method PushRegion(pages: nat, ghost words0: Words)
      requires Ok(s) && Rep(words0, s, freeList) && usedBytes == s.used && pages > 0
      requires words == words0 + Zeros(512 * pages) && heapEnd == s.end + pages * FRAME_SIZE && heapEnd < U64_LIMIT
      modifies `words, `freeList, `s
      ensures Encoded() && s == Grow(old(s), pages) && |words| == |old(words)|
      ensures LiveWordsKept(words0, words, old(s).blocks, 0)
    {
      hide Ok, WordAt, Rep, At, Zeros, LiveWordsKept;
      RepEnd(words0, s, freeList);
      EndAligned(s);
      ZerosAppended(words0, pages);
      var region := heapEnd - pages * FRAME_SIZE;
      assert region == s.end;
      RegionWords(words, s.end, pages);
      ghost var w := words;
      WriteWord(region, pages * FRAME_SIZE - BLOCK_HEADER_SIZE);
      WriteWord(region + 8, 0);
      HeadSmall(words0, s, freeList);
      WriteWord(region + 16, freeList);
      StillLonger(words0, w, words, pages, s.end);
      GrowRep(words0, words, s, freeList, pages);
      GrowOk(s, pages);
      freeList := region;
      s := Grow(s, pages);
    }

    /** kmalloc's search for the first free block that fits; curr is 0 when there is none. */
    method FindFit(n: nat) returns (prev: nat, curr: nat, ghost k: nat)
      requires Encoded()
      ensures k == FirstFit(s.blocks, s.order, n) && curr == At(s.order, k) && prev == if k > 0 then s.order[k - 1] else 0
      ensures curr == 0 <==> k == |s.order|
      ensures curr != 0 ==> curr in s.blocks && n + BLOCK_HEADER_SIZE <= s.blocks[curr].len
    {
      hide Ok, Rep, FirstFit, WordAt;
      prev, curr, k := 0, freeList, 0;
      RepEnd(words, s, freeList);
      forall j | 0 <= j < |s.order| ensures s.order[j] in s.blocks { ListedAt(s, j); }
      while curr != 0
        invariant k <= |s.order| && curr == At(s.order, k) && prev == if k > 0 then s.order[k - 1] else 0
        invariant forall j :: 0 <= j < k ==> s.blocks[s.order[j]].len < n + BLOCK_HEADER_SIZE
        decreases |s.order| - k
      {
        ListedBlock(words, s, freeList, k);
        var magic := ReadWord(curr + 8);
        var size := ReadWord(curr);
        if magic == 0 && size >= n {
          FirstFitIs(s.blocks, s.order, n, k);
          return;
        }
        prev := curr;
        curr := ReadWord(curr + 16);
        k := k + 1;
      }
      if k < |s.order| { ListedBlock(words, s, freeList, k); }
      FirstFitIs(s.blocks, s.order, n, k);
    }

    /** kmalloc's extension: all the pages it asked for, or the pages up to the first failure. */
    method GrowFor(pages: nat) returns (ok: bool, ghost mapped: nat)
      requires Valid() && pages > 0 && CanGrow(pages)
      modifies this, vm, vm.pmm, vm.pmm.bitmap
      ensures Valid() && vm.cr3 == old(vm.cr3)
      ensures mapped <= pages && (ok <==> mapped == pages)
      ensures s == if ok then Grow(old(s), pages) else Leak(old(s), mapped)
      ensures LiveWordsKept(old(words), words, old(s).blocks, 0)
      ensures |frames| == |old(frames)| + mapped
      ensures Grew(vm.kroot, old(StateOf(vm)), StateOf(vm), mapped)
      ensures mapped < pages ==> AlmostExhausted(vm.pmm.used, vm.pmm.totalFrames)
    {
      hide AddressSpaces.Valid, Backing, Ok, Rep, Grew, LiveWordsKept, Zeros, Longer, AlmostExhausted, GrowthAvoids511;
      ghost var s0, w0 := s, words;
      var rc;
      rc, mapped := HeapExtend(pages);
      RepEnd(w0, s0, freeList);
      ok := rc == 0;
      if rc != 0 {
        ZerosAppended(w0, mapped);
        LeakOk(s0, mapped);
        LeakRep(w0, words, s0, freeList, mapped);
        LeakUsed(s0, mapped);
        s := Leak(s0, mapped);
      } else {
        PushRegion(pages, w0);
      }
    }

    /** kmalloc.  `mapped` is how many pages an extension, when one was needed, mapped. */
    method Kmalloc(size: nat) returns (ptr: nat, ghost mapped: nat)
      requires Valid()
      requires NeedsRoom(s, size) ==> CanGrow(PagesNeeded(AlignUp8(size)))
      modifies this, vm, vm.pmm, vm.pmm.bitmap
      ensures Valid() && vm.cr3 == old(vm.cr3)
      ensures Allocated(old(s), old(words), s, words, Alloc(size, mapped), ptr)
      ensures ptr == 0 ==> size == 0 || (old(NeedsRoom(s, size)) && AlmostExhausted(vm.pmm.used, vm.pmm.totalFrames))
      ensures |frames| >= |old(frames)|
      ensures Grew(vm.kroot, old(StateOf(vm)), StateOf(vm), |frames| - |old(frames)|)
      ensures old(NeedsRoom(s, size)) && ptr != 0 ==>
        var p := |frames| - |old(frames)|; (p - 1) * FRAME_SIZE < AlignUp8(size) + BLOCK_HEADER_SIZE <= p * FRAME_SIZE
      ensures !old(NeedsRoom(s, size)) ==>
        frames == old(frames) && StateOf(vm) == old(StateOf(vm))
      decreases if NeedsRoom(s, size) then 1 else 0
    {
      hide AddressSpaces.Valid, Backing, Ok, Rep, Grew, LiveWordsKept, Step, Succeeds, Chosen, FirstFit, WordAt, At,
           Carve, HeapModel.Grow, Leak, LiveBytes, AlmostExhausted, GrowthAvoids511;
      mapped := 0;
      BackedMeans();
      KernelRootInside(vm);
      GrewNothing(vm.kroot, StateOf(vm));
      if size == 0 {
        NoRequest(s, words, mapped);
        return 0, 0;
      }
      var n := AlignUp8(size);
      ghost var s0, w0 := s, words;
      var prev, curr;
      ghost var k;
      prev, curr, k := FindFit(n);
      if curr != 0 {
        FoundFit(s0, size, k);
        CurrentIs(s0, k, curr);
        Allocate(prev, curr, n, k);
        return curr + BLOCK_HEADER_SIZE, 0;
      }
      var ok;
      ok, mapped := GrowFor(PagesNeeded(n));
      if !ok {
        ExtensionFailed(s0, w0, s, words, size, mapped);
        return 0, mapped;
      }
      ghost var s1, w1, m := s, words, mapped;
      PagesNeededLeast(n);
      RetryHasRoom(s0, size);
      ptr, m := Kmalloc(n);
      RetryDone(s0, w0, s1, w1, s, words, size, m, ptr);
    }

    /** heap_init: four pages, one free block. */
    method Init() returns (rc: int, ghost mapped: nat)
      requires Valid() && s == NOTHING && CanGrow(4)
      modifies this, vm, vm.pmm, vm.pmm.bitmap
      ensures Valid() && (rc == 0 || rc == -1)
      ensures rc == 0 ==> s == Fresh(4)
      ensures rc == -1 ==> mapped < 4 && s == Leak(NOTHING, mapped) && AlmostExhausted(vm.pmm.used, vm.pmm.totalFrames)
      ensures Grew(vm.kroot, old(StateOf(vm)), StateOf(vm), if rc == 0 then 4 else mapped)
    {
      hide AddressSpaces.Valid, Backing, Ok, Rep, Grew, LiveWordsKept, Zeros, Longer, AlmostExhausted, GrowthAvoids511;
      var ok;
      ok, mapped := GrowFor(4);
      rc := if ok then 0 else -1;
      assert Inserted([], 0, HEAP_START) == [HEAP_START];
    }

    /** The holder of a live block writes one word of its payload. */
    method WritePayload(ptr: nat, x: nat, w: Word)
      requires Valid() && InPayload(s, ptr, x)
      modifies `words
      ensures Valid() && Wrote(old(words), words, x, w)
    {
      hide AddressSpaces.Valid, Backing, Ok, Rep, WordAt, LiveWordsKept;
      ghost var a, w0 := ptr - BLOCK_HEADER_SIZE, words;
      PayloadWord(words, s, freeList, a, x);
      WriteWord(x, w);
      PayloadWritten(w0, words, s, freeList, a, x, w);
      WroteLength(w0, words, x, w);
    }

    /** The walk of kfree to the insertion point: the first listed block above `block`. */
    method FindPlace(block: nat, ghost w0: Words) returns (prev: nat, curr: nat, ghost k: nat)
      requires Ok(s) && Rep(w0, s, freeList) && block in s.blocks && s.blocks[block].status == Live
      requires Wrote(w0, words, block + 8, 0)
      ensures k == Before(s.order, block) && curr == At(s.order, k) && prev == if k > 0 then s.order[k - 1] else 0
      ensures curr == 0 <==> k == |s.order|
      ensures prev == 0 <==> k == 0
    {
      hide Ok, Rep, WordAt, Before;
      prev, curr, k := 0, freeList, 0;
      RepEnd(w0, s, freeList);
      while curr != 0 && curr < block
        invariant k <= |s.order| && curr == At(s.order, k) && prev == if k > 0 then s.order[k - 1] else 0
        invariant prev == 0 <==> k == 0
        invariant forall j :: 0 <= j < k ==> s.order[j] < block
        decreases |s.order| - k
      {
        ListedBlock(w0, s, freeList, k);
        LinkOutside(s, k, block);
        BlockInside(s, block);
        InHeapStays(w0, words, curr + 16);
        prev := curr;
        curr := ReadWord(curr + 16);
        k := k + 1;
      }
      if k < |s.order| { ListedBlock(w0, s, freeList, k); }
      BeforeIs(s.order, block, k);
    }

    /** The insertion of kfree. */
    method InsertBlock(block: nat) returns (prev: nat, curr: nat, ghost k: nat)
      requires Encoded() && block in s.blocks && s.blocks[block].status == Live
      modifies `words, `freeList, `usedBytes, `s
      ensures k == Before(old(s).order, block)
      ensures Encoded() && |words| == |old(words)| && s == InsertAt(old(s), k, block)
      ensures curr == At(old(s).order, k) && prev == if k > 0 then old(s).order[k - 1] else 0
      ensures curr == 0 <==> k == |old(s).order|
      ensures prev == 0 <==> k == 0
      ensures LiveWordsKept(old(words), words, old(s).blocks, block) && WordAt(words, block + 8) == 0
    {
      hide Ok, Rep, WordAt, InsertAt, Wrote, LiveWordsKept;
      ghost var s0, w0, head0 := s, words, freeList;
      LiveBlock(words, s, freeList, block);
      RepEnd(words, s, freeList);
      WriteWord(block + 8, 0);
      ghost var w1 := words;
      WroteLength(w0, w1, block + 8, 0);
      SizeStays(w0, w1, block);
      var size := ReadWord(block);
      usedBytes := (usedBytes - (size + BLOCK_HEADER_SIZE)) % U64_LIMIT;
      prev, curr, k := FindPlace(block, w0);
      AtSmall(w0, s0, head0, k);
      WriteWord(block + 16, curr);
      ghost var w2 := words;
      WroteLength(w1, w2, block + 16, curr);
      if prev != 0 {
        ListedBlock(w0, s0, head0, k - 1);
        WriteWord(prev + 16, block);
        WroteLength(w2, words, prev + 16, block);
      } else {
        freeList := block;
      }
      InsertRep(w0, w1, w2, words, s0, head0, freeList, k, block);
      InsertOk(s0, k, block);
      InsertUsed(s0, k, block);
      s := InsertAt(s0, k, block);
    }

    /** One merge of kfree: list element a absorbs its successor c when c follows it in memory. */
    method Coalesce(a: nat, c: nat, ghost i: nat)
      requires Encoded() && i < |s.order| && s.order[i] == a && c == At(s.order, i + 1)
      modifies `words, `s
      ensures old(JoinReady(s, i))
      ensures Encoded() && |words| == |old(words)| && s == JoinAt(old(s), i)
      ensures LiveWordsKept(old(words), words, old(s).blocks, 0)
      ensures forall x: nat {:trigger WordAt(words, x)} :: x != a && x != a + 16 ==> WordAt(words, x) == WordAt(old(words), x)
    {
      hide Ok, Rep, WordAt, JoinAt, LiveWordsKept;
      ghost var w0 := words;
      ListedBlock(words, s, freeList, i);
      if i + 1 < |s.order| { ListedBlock(words, s, freeList, i + 1); }
      RepEnd(words, s, freeList);
      AtSmall(words, s, freeList, i + 2);
      var size := ReadWord(a);
      if c != 0 && a + BLOCK_HEADER_SIZE + size == c {
        var nextSize := ReadWord(c);
        var next := ReadWord(c + 16);
        WriteWord(a, size + BLOCK_HEADER_SIZE + nextSize);
        ghost var w1 := words;
        WriteWord(a + 16, next);
        JoinRep(w0, w1, words, s, freeList, i);
        JoinOk(s, i);
        JoinUsed(s, i);
        s := JoinAt(s, i);
      } else {
        NothingJoined(s, i);
        NothingWritten(words, s.blocks);
      }
    }

    /** kfree.  A pointer that is not live is ignored as long as its header does not look live. */
    method Kfree(ptr: nat)
      requires Valid()
      requires ptr != 0 ==> Freeable(words, s, ptr)
      modifies `words, `freeList, `usedBytes, `s
      ensures Valid()
      ensures Released(old(s), old(words), s, words, ptr)
      ensures ptr != 0 ==> Freeable(words, s, ptr) && WordAt(words, ptr - 8) != HEAP_MAGIC
    {
      hide AddressSpaces.Valid, Backing, Ok, Rep, WordAt, JoinAt, InsertAt, LiveWordsKept, At, Before, Step;
      ghost var s0, w0 := s, words;
      if ptr == 0 { return; }
      var block := ptr - BLOCK_HEADER_SIZE;
      var magic := ReadWord(block + 8);
      if magic != HEAP_MAGIC {
        if IsLive(s, block) { LiveBlock(words, s, freeList, block); }
        return;
      }
      var prev, curr;
      ghost var k;
      prev, curr, k := InsertBlock(block);
      ghost var s1, w1 := s, words;
      AfterInsert(s0, k, block);
      Coalesce(block, curr, k);
      ghost var s2, w2 := s, words;
      AfterFreed(s0, w0, w1, w2, block);
      if prev != 0 {
        PreviousApart(s0, block);
        Coalesce(prev, block, k - 1);
      }
      AfterRelease(s0, w0, w2, words, block);
    }
  }
}
