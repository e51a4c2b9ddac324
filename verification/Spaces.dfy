/** What the address-space operations guarantee together, over whole runs. */
module Spaces {
  import opened Wrappers
  import opened Pmm
  import opened PageTables
  import opened Window
  import opened Leaves
  import opened Subtrees
  import opened Walks
  import opened Paging
  import opened Bytes
  import opened ElfImage
  import opened Elf

  /** The byte that user code reads at `va` through `root`, when all four entries let it. */
  function UserByte(mem: Memory, root: nat, va: nat): Option<Byte> {
    var e := LeafEntry(mem, root, SlotOf(va));
    if UserMay(mem, root, SlotOf(va), false) && FrameOf(e) < |mem| then Some(ByteAt(mem[FrameOf(e)], va % FRAME_SIZE)) else None
  }

  /** A byte of physical memory. */
  function PhysicalByte(mem: Memory, pa: nat): Option<Byte> {
    if pa / FRAME_SIZE < |mem| then Some(ByteAt(mem[pa / FRAME_SIZE], pa % FRAME_SIZE)) else None
  }

  /** What user code reads is the byte at the physical address that the virtual one translates to. */
  lemma UserByteIsTranslated(mem: Memory, root: nat, va: nat)
    requires UserMay(mem, root, SlotOf(va), false)
    ensures Translate(mem, root, va).Some? && UserByte(mem, root, va) == PhysicalByte(mem, Translate(mem, root, va).value)
  {
    hide LeafEntry, SlotOf, ByteAt;
  }

  lemma {:induction false} SegmentInWork(data: seq<Byte>, i: nat, k: nat, p: nat)
    requires |data| >= EHDR_SIZE && i <= k < PhdrCount(data)
    requires forall j :: 0 <= j < PhdrCount(data) ==> PhdrFits(data, j)
    requires PhdrAt(data, k).kind == PT_LOAD && p < |SegmentPages(PhdrAt(data, k))|
    ensures exists j :: 0 <= j < |WorkFrom(data, i)| && WorkFrom(data, i)[j] == SegmentPages(PhdrAt(data, k))[p]
    decreases k - i
  {
    hide SegmentPages, FieldAt;
    var head := if PhdrAt(data, i).kind == PT_LOAD then SegmentPages(PhdrAt(data, i)) else [];
    var rest := WorkFrom(data, i + 1);
    assert WorkFrom(data, i) == head + rest;
    if i == k {
      assert WorkFrom(data, i)[p] == head[p];
    } else {
      SegmentInWork(data, i + 1, k, p);
      var j :| 0 <= j < |rest| && rest[j] == SegmentPages(PhdrAt(data, k))[p];
      assert WorkFrom(data, i)[|head| + j] == rest[j];
    }
  }

  /** A page that shows its image gives user code the image's bytes. */
  lemma ShownByte(mem: Memory, kroot: nat, ptHi: nat, tree: Tree, root: nat, w: PageLoad, data: seq<Byte>, va: nat)
    requires TablesOk(mem, kroot, ptHi, tree) && Pml4(root) in tree && root != kroot
    requires PageShows(mem, tree, root, w, data) && va / FRAME_SIZE * FRAME_SIZE == w.va
    ensures UserByte(mem, root, va) == Some(ByteAt(PageImage(w, data), va % FRAME_SIZE))
  {
    hide LeafEntry, SlotOf, PageImage, Entry, ByteAt, UserMay, TablesOk;
    SlotOfPage(va);
    UserMayExactly(mem, kroot, ptHi, tree, root, SlotOf(va), false);
  }

  /** After elf_load returned 0 with every round in the address space. */
  lemma LoadedPage(vm: AddressSpaces, root: nat, data: seq<Byte>, a: Snapshot, w: PageLoad, va: nat)
    requires Loading(vm, root, Work(data), Work(data), data, a, true) && PageDisjoint(Work(data))
    requires w in Work(data) && va / FRAME_SIZE * FRAME_SIZE == w.va
    ensures UserByte(vm.mem, root, va) == Some(ByteAt(PageImage(w, data), va % FRAME_SIZE))
  {
    hide AddressSpaces.Valid, UserByte, PageImage, PageShows, Progress, PageDisjoint, Work, ByteAt, TablesOk, Held, LoadRun, TookLow,
         Avoids511, UpperTablesDirect, WithoutRoot, KernelEntryKept, PageLoadOk;
    vm.Parts();
    WorkIsShown(root, data, a, Snap(vm), w);
    ShownByte(vm.mem, vm.kroot, vm.ptHi, vm.tree, root, w, data, va);
  }

  /** A file of disjoint pages all of whose headers are inside it, loaded with every round in the
      address space. */
  ghost predicate LoadedWhole(vm: AddressSpaces, root: nat, data: seq<Byte>, a: Snapshot)
    reads vm, vm.pmm, vm.pmm.bitmap
  {
    && HeaderOk(data) && Loadable(data) && PageDisjoint(Work(data)) && (forall j :: 0 <= j < PhdrCount(data) ==> PhdrFits(data, j))
    && Loading(vm, root, Work(data), Work(data), data, a, true)
  }

  /** The byte of the computed page that user code reads at `va` on page p of segment i. */
  lemma LoadedByte(vm: AddressSpaces, root: nat, data: seq<Byte>, a: Snapshot, i: nat, ph: Phdr, p: nat, va: nat)
    requires |data| >= EHDR_SIZE && i < PhdrCount(data) && PhdrFits(data, i) && ph == PhdrAt(data, i) && ph.kind == PT_LOAD
    requires p == va / FRAME_SIZE * FRAME_SIZE && ph.vaddr < p + FRAME_SIZE && p < ph.vaddr + ph.memsz
    requires LoadedWhole(vm, root, data, a)
    ensures SegmentOk(ph) && UserByte(vm.mem, root, va) == Some(ByteAt(PageImage(PageLoad(ph, p), data), va % FRAME_SIZE))
  {
    hide UserByte, PageImage, Loading, SegmentPages, PageDisjoint, Work, ByteAt, PhdrAt, PhdrFits, PhdrCount;
    PageInWork(data, i, va);
    LoadedPage(vm, root, data, a, PageLoad(ph, p), va);
  }

  /** After a successful load, user code reads on every page that begins in a segment, to the end of
      that page, the bytes that the file has for it, and zero where the file has none.  All is said in
      terms of the file's bytes: o is where program header i stands. */
  lemma LoadedImage(vm: AddressSpaces, root: nat, data: seq<Byte>, a: Snapshot, i: nat, o: nat, va: nat)
    requires |data| >= EHDR_SIZE && i < Two(data, 56) && o == PhdrPlace(data, i) && o + 56 <= |data| && Four(data, o) == 1
    requires Eight(data, o + 16) <= va / FRAME_SIZE * FRAME_SIZE < Eight(data, o + 16) + Eight(data, o + 40)
    requires Eight(data, o + 8) + Eight(data, o + 32) < U64_LIMIT
    requires LoadedWhole(vm, root, data, a)
    ensures var k := va - Eight(data, o + 16);
            UserByte(vm.mem, root, va) ==
              Some(if k < Eight(data, o + 32) && Eight(data, o + 8) + k < |data| then data[Eight(data, o + 8) + k] else 0)
  {
    hide UserByte, PageImage, Loading, SegmentPages, PageDisjoint, Work, ByteAt, Loadable, PhdrAt, PhdrFits, PhdrCount, PhdrPlace, Two, Four, Eight;
    HeaderFields(data);
    PhdrFields(data, i);
    var ph := PhdrAt(data, i);
    LoadedByte(vm, root, data, a, i, ph, va / FRAME_SIZE * FRAME_SIZE, va);
    ImageCorrect(ph, data, va - ph.vaddr);
  }

  /** On the page that a segment begins in, whether at its start or not, user code reads from the start
      of the page on the segment's first bytes, as many as the page holds of it, and zeros after that. */
  lemma LoadedFirstPage(vm: AddressSpaces, root: nat, data: seq<Byte>, a: Snapshot, i: nat, o: nat, va: nat)
    requires |data| >= EHDR_SIZE && i < Two(data, 56) && o == PhdrPlace(data, i) && o + 56 <= |data| && Four(data, o) == 1
    requires va / FRAME_SIZE == Eight(data, o + 16) / FRAME_SIZE
    requires va / FRAME_SIZE * FRAME_SIZE < Eight(data, o + 16) + Eight(data, o + 40)
    requires Eight(data, o + 8) + Eight(data, o + 32) < U64_LIMIT
    requires LoadedWhole(vm, root, data, a)
    ensures var j := va % FRAME_SIZE;
            UserByte(vm.mem, root, va) ==
              Some(if j < FRAME_SIZE - Eight(data, o + 16) % FRAME_SIZE && j < Eight(data, o + 32) && Eight(data, o + 8) + j < |data|
                   then data[Eight(data, o + 8) + j] else 0)
  {
    hide UserByte, PageImage, Loading, SegmentPages, PageDisjoint, Work, ByteAt, Loadable, PhdrAt, PhdrFits, PhdrCount, PhdrPlace, Two, Four, Eight;
    HeaderFields(data);
    PhdrFields(data, i);
    var ph := PhdrAt(data, i);
    var p := va / FRAME_SIZE * FRAME_SIZE;
    assert SegmentStart(ph) == p && ph.vaddr < p + FRAME_SIZE;
    LoadedByte(vm, root, data, a, i, ph, p, va);
    FirstPageWhole(ph, data, va % FRAME_SIZE);
  }

  /** When elf_load returns 0 for a file of disjoint new pages, every page shows its contents if and
      only if every round of the run, computed from the tables and free frames it began with, ends
      in a table of the address space. */
  lemma LoadIsComplete(vm: AddressSpaces, root: nat, data: seq<Byte>, a: Snapshot, all: bool)
    requires Loading(vm, root, Work(data), Work(data), data, a, all)
    requires PageDisjoint(Work(data)) && LeavesOf(root, Work(data)) !! a.tree.Keys
    ensures (forall w :: w in Work(data) ==> PageShows(vm.mem, vm.tree, root, w, data)) <==>
            LoadRun(root, vm.pmm.totalFrames, Ledger(a.tree, a.used), Work(data)).Some?
  {
    hide AddressSpaces.Valid, PageShows, OnlyTouched, PagesKept, Work, LoadRun, TookLow, Avoids511, UpperTablesDirect, PageDisjoint,
         LeavesOf, WithoutRoot, KernelEntryKept, SlotOf, PageLoadOk;
    LoadingRun(vm, root, Work(data), Work(data), data, a, all);
    if all {
      forall w | w in Work(data) ensures PageShows(vm.mem, vm.tree, root, w, data) {
        WorkIsShown(root, data, a, Snap(vm), w);
      }
    } else {
      var j :| 0 <= j < |Work(data)| && LeafOfSlot(root, SlotOf(Work(data)[j].va)) !in vm.tree;
      NotShown(vm.mem, vm.tree, root, Work(data)[j], data);
    }
  }

  lemma NotShown(mem: Memory, tree: Tree, root: nat, w: PageLoad, data: seq<Byte>)
    requires LeafOfSlot(root, SlotOf(w.va)) !in tree
    ensures !PageShows(mem, tree, root, w, data)
  {
    hide SlotOf;
  }

  lemma PageInWork(data: seq<Byte>, i: nat, va: nat)
    requires HeaderOk(data) && i < PhdrCount(data) && PhdrFits(data, i) && PhdrAt(data, i).kind == PT_LOAD
    requires var ph := PhdrAt(data, i); ph.vaddr < va / FRAME_SIZE * FRAME_SIZE + FRAME_SIZE && va / FRAME_SIZE * FRAME_SIZE < ph.vaddr + ph.memsz
    requires Loadable(data) && forall j :: 0 <= j < PhdrCount(data) ==> PhdrFits(data, j)
    ensures SegmentOk(PhdrAt(data, i)) && PageLoad(PhdrAt(data, i), va / FRAME_SIZE * FRAME_SIZE) in Work(data)
  {
    hide SegmentPages, FieldAt;
    var ph := PhdrAt(data, i);
    var w := PageLoad(ph, va / FRAME_SIZE * FRAME_SIZE);
    assert SegmentOk(ph);
    SegmentPagesExactly(ph, w.va);
    var p :| 0 <= p < |SegmentPages(ph)| && SegmentPages(ph)[p] == w;
    SegmentInWork(data, 0, i, p);
  }

  lemma WorkIsShown(root: nat, data: seq<Byte>, a: Snapshot, b: Snapshot, w: PageLoad)
    requires Progress(root, Work(data), data, a, b, true) && PageDisjoint(Work(data)) && w in Work(data)
    ensures PageShows(b.mem, b.tree, root, w, data)
  {
    hide PageShows, OnlyTouched, PagesKept, Work;
    var j :| 0 <= j < |Work(data)| && Work(data)[j] == w;
    DisjointLoadsAllWin(Work(data), j);
  }

  /** Loading into one address space changes no translation of the kernel, of another user
      address space, or of the kernel half of this one, whether it succeeds or not. */
  lemma LoadIsolated(root: nat, work: seq<PageLoad>, a: Snapshot, b: Snapshot, r: nat, s: Slot)
    requires OnlyTouched(a, b, root, work) && forall j :: 0 <= j < |work| ==> PageLoadOk(work[j])
    requires Pml4(r) in a.tree && s != SCRATCH_SLOT && (r != root || s.pi >= 256)
    ensures LeafEntry(b.mem, r, s) == LeafEntry(a.mem, r, s)
  {
    hide LeafEntry;
    if r == root && LeafOfSlot(root, s) in LeavesOf(root, work) {
      var j :| 0 <= j < |work| && LeafOfSlot(root, SlotOf(work[j].va)) == LeafOfSlot(root, s);
      UserSlot(work[j].va);
    }
  }

  /** In every reachable state all roots translate the kernel half alike. */
  lemma KernelHalfShared(vm: AddressSpaces, r: nat, s: Slot)
    requires vm.Valid() && Pml4(r) in vm.tree && s.pi == 511
    ensures LeafEntry(vm.mem, r, s) == LeafEntry(vm.mem, vm.kroot, s)
  {
    hide Encodes, LeafEntry, Held;
    RootShown(vm.mem, vm.kroot, vm.ptHi, vm.tree);
    WalkFollowsTree(vm.mem, vm.kroot, vm.tree, r, s);
    WalkFollowsTree(vm.mem, vm.kroot, vm.tree, vm.kroot, s);
  }

  /** What the kernel does to address spaces, with user roots by their place in the list of those
      created so far. */
  datatype KernelOp =
    | MapOp(virt: nat, phys: nat, flags: nat)
    | UnmapOp(virt: nat)
    | CreateOp
    | LoadCr3Op(k: nat)
    | ProgramOp(data: seq<Byte>, k: nat)
    | DestroyOp(k: nat)

  ghost predicate OpOk(op: KernelOp) {
    match op
    case MapOp(virt, phys, flags) =>
      virt < U64_LIMIT && phys < U64_LIMIT && flags < FRAME_SIZE && KeepsWindow(SlotOf(virt), Entry(phys / FRAME_SIZE, flags))
    case UnmapOp(virt) => virt < U64_LIMIT && KeepsWindow(SlotOf(virt), 0)
    case ProgramOp(data, _) => Loadable(data)
    case _ => true
  }

  /** How many frames an operation may take. */
  function Cost(op: KernelOp): nat {
    match op
    case MapOp(_, _, _) => 3
    case CreateOp => 1
    case ProgramOp(data, _) => 4 * |Work(data)|
    case _ => 0
  }

  function TotalCost(ops: seq<KernelOp>): nat {
    if ops == [] then 0 else Cost(ops[0]) + TotalCost(ops[1..])
  }

  /** The user roots made since tree0, all different. */
  ghost predicate UserRoots(kroot: nat, tree: Tree, tree0: Tree, roots: seq<nat>) {
    && (forall k :: 0 <= k < |roots| ==> Pml4(roots[k]) in tree && roots[k] != kroot && Pml4(roots[k]) !in tree0)
    && (forall j, k :: 0 <= j < k < |roots| ==> roots[j] != roots[k])
  }

  /** What a run of such operations has kept since (mem0, tree0). */
  ghost predicate Coherent(vm: AddressSpaces, mem0: Memory, tree0: Tree, roots: seq<nat>)
    reads vm, vm.pmm, vm.pmm.bitmap
  {
    && vm.Valid() && Pml4(vm.cr3) in vm.tree && Pml4(vm.kroot) in tree0
    && KernelEntryKept(mem0, vm.mem, vm.kroot)
    && (forall r :: Pml4(r) in tree0 ==> Pml4(r) in vm.tree)
    && UserRoots(vm.kroot, vm.tree, tree0, roots)
  }

  /** Changing one root's tables leaves the other roots. */
  lemma OtherRoot(tree: Tree, tree': Tree, root: nat, r: nat)
    requires WithoutRoot(tree', root) == WithoutRoot(tree, root) && r != root
    ensures Pml4(r) in tree' <==> Pml4(r) in tree
  {
    assert Pml4(r) in WithoutRoot(tree', root) <==> Pml4(r) in WithoutRoot(tree, root);
  }

  lemma RootsAfterDestroy(kroot: nat, tree: Tree, tree0: Tree, roots: seq<nat>, k: nat)
    requires UserRoots(kroot, tree, tree0, roots) && k < |roots|
    ensures UserRoots(kroot, WithoutRoot(tree, roots[k]), tree0, roots[..k] + roots[k + 1..])
  {
    var rest := roots[..k] + roots[k + 1..];
    var tree' := WithoutRoot(tree, roots[k]);
    forall j | 0 <= j < |rest| ensures rest[j] != roots[k] && Pml4(rest[j]) in tree' && rest[j] != kroot && Pml4(rest[j]) !in tree0 {
      assert rest[j] == roots[if j < k then j else j + 1];
      assert WithoutRoot(tree', roots[k]) == WithoutRoot(tree, roots[k]);
      OtherRoot(tree, tree', roots[k], rest[j]);
    }
  }

  lemma ListedRoots(kroot: nat, tree: Tree, tree0: Tree, roots: seq<nat>)
    requires UserRoots(kroot, tree, tree0, roots)
    ensures forall k :: 0 <= k < |roots| ==> Pml4(roots[k]) in tree && roots[k] != kroot && Pml4(roots[k]) !in tree0
  {
  }

  lemma RootsStay(kroot: nat, tree: Tree, tree': Tree, tree0: Tree, roots: seq<nat>)
    requires UserRoots(kroot, tree, tree0, roots) && SameRoots(tree, tree')
    ensures UserRoots(kroot, tree', tree0, roots)
  {
  }

  lemma RootsAfterCreate(kroot: nat, tree: Tree, tree0: Tree, roots: seq<nat>, f: nat)
    requires UserRoots(kroot, tree, tree0, roots) && Pml4(f) !in tree && Pml4(kroot) in tree
    requires forall r :: Pml4(r) in tree0 ==> Pml4(r) in tree
    ensures UserRoots(kroot, tree[Pml4(f) := f], tree0, roots + [f])
  {
  }

  /** The caller does not map the scratch page for user code. */
  predicate SparesScratch(op: KernelOp) {
    op.MapOp? && SlotOf(op.virt) == SCRATCH_SLOT ==> op.flags / 4 % 2 == 0
  }

  lemma ProgramSparesScratch(kroot: nat, root: nat, work: seq<PageLoad>, a: Snapshot, b: Snapshot)
    requires OnlyTouched(a, b, root, work) && Pml4(kroot) in a.tree && root != kroot
    ensures ScratchStays(a.mem, b.mem, kroot)
  {
    hide LeafEntry;
    assert LeafEntry(b.mem, kroot, SCRATCH_SLOT) == LeafEntry(b.mem, kroot, SCRATCH_SLOT);
  }

  lemma ScratchStaysTwice(m0: Memory, m1: Memory, m2: Memory, r: nat)
    requires ScratchStays(m0, m1, r) && ScratchStays(m1, m2, r)
    ensures ScratchStays(m0, m2, r)
  {
    hide LeafEntry;
  }

  lemma MappedSparesScratch(vm: AddressSpaces, mem0: Memory, tree0: Tree, used0: set<nat>, s: Slot, w: Word, rc: int)
    requires vm.Mapped(mem0, tree0, used0, s, w, rc) && Pml4(vm.kroot) in tree0 && (s == SCRATCH_SLOT ==> !User(w))
    ensures ScratchStays(mem0, vm.mem, vm.kroot)
  {
    hide LeafEntry, LeavesKept, LeafSet, MapReaches;
    if rc == 0 && MapReaches(tree0, vm.kroot, used0, vm.pmm.totalFrames, s) {
      SetScratch(mem0, vm.mem, vm.kroot, tree0, vm.kroot, s, w, vm.kroot);
    } else {
      KeptScratch(mem0, vm.mem, tree0, vm.kroot);
    }
  }

  /** One operation.  An address space is destroyed only while it is not loaded and its tables above
      the page tables lie below frame 511, which the entries themselves tell. */
  method KernelStep(vm: AddressSpaces, op: KernelOp, roots: seq<nat>, ghost mem0: Memory, ghost tree0: Tree, ghost rest: nat)
    returns (roots': seq<nat>)
    requires Coherent(vm, mem0, tree0, roots) && OpOk(op)
    requires Avoids511(vm.pmm.used, vm.pmm.totalFrames, Cost(op) + rest)
    modifies vm, vm.pmm, vm.pmm.bitmap
    ensures Coherent(vm, mem0, tree0, roots')
    ensures Avoids511(vm.pmm.used, vm.pmm.totalFrames, rest)
    ensures Foreign(vm.tree, vm.lost, vm.pmm.used) == old(Foreign(vm.tree, vm.lost, vm.pmm.used))
    ensures SparesScratch(op) ==> ScratchStays(old(vm.mem), vm.mem, vm.kroot)
  {
    hide AddressSpaces.Valid, Foreign, LeavesKept, LeafSet, MapReaches, NextFrame, KeepsWindow, SlotOf, Entry, FramesKept,
         UserRoots, Avoids511, TookLow, KernelEntryKept, Loadable, Loading, GaveUp, WithoutRoot, Whole, TreeGrows, Exhausted, Work,
         TablesDirect, Missing, ScratchStays, LeafEntry, AddressSpaces.Mapped, SparesScratch, OnlyTouched;
    CoherentParts(vm, mem0, tree0, roots);
    ghost var used0, total, tree1, mem1 := vm.pmm.used, vm.pmm.totalFrames, vm.tree, vm.mem;
    roots' := roots;
    match op
    case MapOp(virt, phys, flags) =>
      FewMissing(vm.tree, vm.kroot, SlotOf(virt));
      FewerAvoid511(used0, total, Missing(tree1, vm.kroot, SlotOf(virt)), 3 + rest);
      var rc := vm.MapPage(virt, phys, flags);
      KernelEntryKeptTwice(mem0, mem1, vm.mem, vm.kroot);
      TookFewer(used0, vm.pmm.used, Missing(tree1, vm.kroot, SlotOf(virt)), 3);
      StillAvoids511(used0, vm.pmm.used, total, 3, rest);
      RootsStay(vm.kroot, tree1, vm.tree, tree0, roots);
      if SparesScratch(op) {
        SparedFlags(op);
        MappedSparesScratch(vm, mem1, tree1, used0, SlotOf(virt), Entry(phys / FRAME_SIZE, flags), rc);
      }
    case UnmapOp(virt) =>
      vm.UnmapPage(virt);
      KernelEntryKeptTwice(mem0, mem1, vm.mem, vm.kroot);
      NullPermitsNothing();
      SetScratch(mem1, vm.mem, vm.kroot, tree1, vm.kroot, SlotOf(virt), 0, vm.kroot);
    case CreateOp =>
      roots' := CreateStep(vm, roots, mem0, tree0, rest);
    case LoadCr3Op(k) =>
      ListedRoots(vm.kroot, tree1, tree0, roots);
      if k < |roots| { vm.LoadCr3(roots[k]); }
    case ProgramOp(data, k) =>
      FewerAvoid511(used0, total, rest, 4 * |Work(data)| + rest);
      if k < |roots| { ProgramStep(vm, data, roots, k, mem0, tree0, rest); }
    case DestroyOp(k) =>
      if k < |roots| && roots[k] != vm.cr3 && TablesDirect(vm.mem, roots[k]) { roots' := DestroyStep(vm, roots, k, mem0, tree0, rest); }
  }

  lemma CoherentParts(vm: AddressSpaces, mem0: Memory, tree0: Tree, roots: seq<nat>)
    requires Coherent(vm, mem0, tree0, roots)
    ensures Pml4(vm.kroot) in vm.tree && ScratchStays(vm.mem, vm.mem, vm.kroot)
  {
    hide AddressSpaces.Valid, LeafEntry;
    vm.Parts();
  }

  lemma SparedFlags(op: KernelOp)
    requires SparesScratch(op) && op.MapOp? && op.flags < FRAME_SIZE && op.phys < U64_LIMIT
    ensures SlotOf(op.virt) == SCRATCH_SLOT ==> !User(Entry(op.phys / FRAME_SIZE, op.flags))
  {
    hide SlotOf, Entry;
  }

  method CreateStep(vm: AddressSpaces, roots: seq<nat>, ghost mem0: Memory, ghost tree0: Tree, ghost rest: nat) returns (roots': seq<nat>)
    requires Coherent(vm, mem0, tree0, roots)
    requires Avoids511(vm.pmm.used, vm.pmm.totalFrames, 1 + rest)
    modifies vm, vm.pmm, vm.pmm.bitmap
    ensures Coherent(vm, mem0, tree0, roots')
    ensures Avoids511(vm.pmm.used, vm.pmm.totalFrames, rest)
    ensures Foreign(vm.tree, vm.lost, vm.pmm.used) == old(Foreign(vm.tree, vm.lost, vm.pmm.used))
    ensures ScratchStays(old(vm.mem), vm.mem, vm.kroot)
  {
    hide AddressSpaces.Valid, Foreign, LeavesKept, NextFrame, UserRoots, Avoids511, TookLow, KernelEntryKept, Shaped, Held, Encodes, ScratchStays;
    ghost var used0, total, tree1, mem1 := vm.pmm.used, vm.pmm.totalFrames, vm.tree, vm.mem;
    roots' := roots;
    Books(vm);
    FewerAvoid511(used0, total, 1, 1 + rest);
    var low := vm.cr3 < 511;
    var pa := vm.CreateUserSpace();
    KeptScratch(mem1, vm.mem, tree1, vm.kroot);
    KernelEntryKeptTwice(mem0, mem1, vm.mem, vm.kroot);
    StillAvoids511(used0, vm.pmm.used, total, 1, rest);
    if pa != 0 && (low || pa / FRAME_SIZE < 511) {
      RootsAfterCreate(vm.kroot, tree1, tree0, roots, pa / FRAME_SIZE);
      roots' := roots + [pa / FRAME_SIZE];
    }
  }

  method ProgramStep(vm: AddressSpaces, data: seq<Byte>, roots: seq<nat>, k: nat, ghost mem0: Memory, ghost tree0: Tree, ghost rest: nat)
    requires Coherent(vm, mem0, tree0, roots) && Loadable(data) && k < |roots|
    requires Avoids511(vm.pmm.used, vm.pmm.totalFrames, 4 * |Work(data)| + rest)
    modifies vm, vm.pmm, vm.pmm.bitmap
    ensures Coherent(vm, mem0, tree0, roots)
    ensures Avoids511(vm.pmm.used, vm.pmm.totalFrames, rest)
    ensures Foreign(vm.tree, vm.lost, vm.pmm.used) == old(Foreign(vm.tree, vm.lost, vm.pmm.used))
    ensures ScratchStays(old(vm.mem), vm.mem, vm.kroot)
  {
    hide AddressSpaces.Valid, Foreign, UserRoots, Avoids511, TookLow, KernelEntryKept, Loadable, Loading, GaveUp, Work, WithoutRoot,
         LoadRun, Exhausted, ScratchStays;
    CoherentParts(vm, mem0, tree0, roots);
    ghost var a, total, root := Snap(vm), vm.pmm.totalFrames, roots[k];
    ListedRoots(vm.kroot, vm.tree, tree0, roots);
    FewerAvoid511(a.used, total, 4 * |Work(data)|, 4 * |Work(data)| + rest);
    var rc, entry;
    ghost var all;
    rc, entry, all := ElfLoad(vm, data, roots[k]);
    AfterProgram(vm, root, data, a, rc, all);
    KernelEntryKeptTwice(mem0, a.mem, vm.mem, vm.kroot);
    StillAvoids511(a.used, vm.pmm.used, total, 4 * |Work(data)|, rest);
    RootsStay(vm.kroot, a.tree, vm.tree, tree0, roots);
  }

  /** What a load leaves alone, whichever way it ends. */
  lemma AfterProgram(vm: AddressSpaces, root: nat, data: seq<Byte>, a: Snapshot, rc: int, all: bool)
    requires if rc == 0 then Loading(vm, root, Work(data), Work(data), data, a, all) else GaveUp(vm, root, Work(data), a)
    requires Pml4(vm.kroot) in a.tree
    ensures vm.Valid() && SameRoots(a.tree, vm.tree) && ScratchStays(a.mem, vm.mem, vm.kroot)
    ensures KernelEntryKept(a.mem, vm.mem, vm.kroot) && TookLow(a.used, vm.pmm.used, 4 * |Work(data)|)
  {
    hide AddressSpaces.Valid, UpperTablesDirect, TookLow, Spare, WithoutRoot, KernelEntryKept, LoadRun, Avoids511, Work, ScratchStays,
         OnlyTouched, PagesKept, PageShows, PageDisjoint, LastLoads, SomeMissing, PageLoadOk;
    ProgramSparesScratch(vm.kroot, root, Work(data), a, Snap(vm));
  }

  method DestroyStep(vm: AddressSpaces, roots: seq<nat>, k: nat, ghost mem0: Memory, ghost tree0: Tree, ghost rest: nat)
    returns (roots': seq<nat>)
    requires Coherent(vm, mem0, tree0, roots) && k < |roots| && roots[k] != vm.cr3 && TablesDirect(vm.mem, roots[k])
    requires Avoids511(vm.pmm.used, vm.pmm.totalFrames, rest)
    modifies vm, vm.pmm, vm.pmm.bitmap
    ensures Coherent(vm, mem0, tree0, roots')
    ensures roots' == roots[..k] + roots[k + 1..] && vm.tree == WithoutRoot(old(vm.tree), roots[k])
    ensures vm.pmm.used == old(vm.pmm.used) - Whole(old(vm.tree), Pml4(roots[k]))
    ensures Avoids511(vm.pmm.used, vm.pmm.totalFrames, rest)
    ensures Foreign(vm.tree, vm.lost, vm.pmm.used) == old(Foreign(vm.tree, vm.lost, vm.pmm.used))
    ensures ScratchStays(old(vm.mem), vm.mem, vm.kroot)
  {
    hide AddressSpaces.Valid, Foreign, UserRoots, Avoids511, KernelEntryKept, Whole, LeavesKept, UpperTablesDirect, TablesDirect, TablesOk, Held, ScratchStays;
    ghost var used0, total, tree1, mem1 := vm.pmm.used, vm.pmm.totalFrames, vm.tree, vm.mem;
    ListedRoots(vm.kroot, vm.tree, tree0, roots);
    vm.Parts();
    RootFrame(vm.mem, vm.kroot, vm.ptHi, vm.tree, roots[k]);
    DirectInMemory(vm.mem, vm.kroot, vm.ptHi, vm.tree, roots[k]);
    vm.FreeUserSpace(roots[k] * FRAME_SIZE);
    vm.Parts();
    KeptScratch(mem1, vm.mem, vm.tree, vm.kroot);
    KernelEntryKeptTwice(mem0, mem1, vm.mem, vm.kroot);
    FreeingAvoids511(used0, vm.pmm.used, total, rest);
    RootsAfterDestroy(vm.kroot, tree1, tree0, roots, k);
    roots' := roots[..k] + roots[k + 1..];
  }

  /** Any sequence of kernel mappings, unmappings, new address spaces, programs loaded into them,
      switches between them and destructions: entry 511 of the kernel root is never rewritten, every
      earlier root stays one, and all roots translate the kernel half alike, whatever was mapped
      after their creation. */
  method KernelRun(vm: AddressSpaces, ops: seq<KernelOp>) returns (roots: seq<nat>)
    requires vm.Valid() && Pml4(vm.cr3) in vm.tree && forall i :: 0 <= i < |ops| ==> OpOk(ops[i])
    requires Avoids511(vm.pmm.used, vm.pmm.totalFrames, TotalCost(ops))
    modifies vm, vm.pmm, vm.pmm.bitmap
    ensures Coherent(vm, old(vm.mem), old(vm.tree), roots)
    ensures forall r, s: Slot {:trigger LeafEntry(vm.mem, r, s)} :: Pml4(r) in vm.tree && s.pi == 511 ==>
              LeafEntry(vm.mem, r, s) == LeafEntry(vm.mem, vm.kroot, s)
    ensures Foreign(vm.tree, vm.lost, vm.pmm.used) == old(Foreign(vm.tree, vm.lost, vm.pmm.used))
    ensures (forall i :: 0 <= i < |ops| ==> SparesScratch(ops[i])) ==> ScratchStays(old(vm.mem), vm.mem, vm.kroot)
  {
    hide Coherent, Foreign, LeafEntry, OpOk, Avoids511, Cost, TotalCost, SparesScratch, ScratchStays, AddressSpaces.Valid;
    StartCoherent(vm);
    CoherentParts(vm, vm.mem, vm.tree, []);
    roots := [];
    var i := 0;
    ghost var spared := true;
    assert ops[0..] == ops;
    while i < |ops|
      invariant 0 <= i <= |ops| && Coherent(vm, old(vm.mem), old(vm.tree), roots)
      invariant Avoids511(vm.pmm.used, vm.pmm.totalFrames, TotalCost(ops[i..]))
      invariant Foreign(vm.tree, vm.lost, vm.pmm.used) == old(Foreign(vm.tree, vm.lost, vm.pmm.used))
      invariant spared <==> forall j :: 0 <= j < i ==> SparesScratch(ops[j])
      invariant spared ==> ScratchStays(old(vm.mem), vm.mem, vm.kroot)
    {
      ghost var before := vm.mem;
      CostNext(ops, i);
      roots := KernelStep(vm, ops[i], roots, old(vm.mem), old(vm.tree), TotalCost(ops[i + 1..]));
      spared := spared && SparesScratch(ops[i]);
      if spared { ScratchStaysTwice(old(vm.mem), before, vm.mem, vm.kroot); }
      i := i + 1;
    }
    RootsAgree(vm, old(vm.mem), old(vm.tree), roots);
  }

  lemma CostNext(ops: seq<KernelOp>, i: nat)
    requires i < |ops|
    ensures TotalCost(ops[i..]) == Cost(ops[i]) + TotalCost(ops[i + 1..])
  {
    assert ops[i..][0] == ops[i] && ops[i..][1..] == ops[i + 1..];
  }

  lemma RootsAgree(vm: AddressSpaces, mem0: Memory, tree0: Tree, roots: seq<nat>)
    requires Coherent(vm, mem0, tree0, roots)
    ensures forall r, s: Slot {:trigger LeafEntry(vm.mem, r, s)} :: Pml4(r) in vm.tree && s.pi == 511 ==>
              LeafEntry(vm.mem, r, s) == LeafEntry(vm.mem, vm.kroot, s)
  {
    hide Coherent, LeafEntry, AddressSpaces.Valid;
    CoherentIsValid(vm, mem0, tree0, roots);
    forall r, s: Slot | Pml4(r) in vm.tree && s.pi == 511 ensures LeafEntry(vm.mem, r, s) == LeafEntry(vm.mem, vm.kroot, s) {
      KernelHalfShared(vm, r, s);
    }
  }

  lemma StartCoherent(vm: AddressSpaces)
    requires vm.Valid() && Pml4(vm.cr3) in vm.tree
    ensures Coherent(vm, vm.mem, vm.tree, [])
  {
    hide Encodes, Held;
    RootShown(vm.mem, vm.kroot, vm.ptHi, vm.tree);
  }

  lemma CoherentIsValid(vm: AddressSpaces, mem0: Memory, tree0: Tree, roots: seq<nat>)
    requires Coherent(vm, mem0, tree0, roots)
    ensures vm.Valid()
  {
    hide AddressSpaces.Valid;
  }

  /** The frame bookkeeping of creating, filling and destroying an address space: destroying it
      gives back every frame taken for it, apart from the frames the load lost. */
  lemma FramesConserved(tree0: Tree, lost0: set<nat>, used0: set<nat>, kroot: nat,
                        tree: Tree, lost: set<nat>, used: set<nat>, root: nat)
    requires Held(tree0, lost0, used0) && Held(tree, lost, used) && Shaped(kroot, tree)
    requires Foreign(tree, lost, used) == Foreign(tree0, lost0, used0)
    requires WithoutRoot(tree, root) == tree0 && lost0 <= lost
    ensures used - Whole(tree, Pml4(root)) == used0 + (lost - lost0)
  {
    hide Shaped;
    var w := Whole(tree, Pml4(root));
    assert used == Foreign(tree, lost, used) + tree.Values + lost;
    assert used0 == Foreign(tree0, lost0, used0) + tree0.Values + lost0;
    SplitValues(tree, root);
    assert tree.Values == tree0.Values + w;
    OwnFramesApart(tree, kroot, root);
  }

  lemma OwnFramesApart(tree: Tree, kroot: nat, root: nat)
    requires Shaped(kroot, tree)
    ensures Whole(tree, Pml4(root)) !! WithoutRoot(tree, root).Values
    ensures Whole(tree, Pml4(root)) <= tree.Values
  {
    forall f | f in Whole(tree, Pml4(root)) ensures f !in WithoutRoot(tree, root).Values && f in tree.Values {
      var m :| m in tree && Within(Pml4(root), m) && tree[m] == f;
    }
  }

  lemma SplitValues(tree: Tree, root: nat)
    ensures tree.Values == WithoutRoot(tree, root).Values + Whole(tree, Pml4(root))
  {
    var rest := WithoutRoot(tree, root);
    forall f | f in tree.Values ensures f in rest.Values + Whole(tree, Pml4(root)) {
      var m :| m in tree && tree[m] == f;
      if m.root == root { assert Within(Pml4(root), m); } else { assert rest[m] == f; }
    }
    forall f | f in rest.Values ensures f in tree.Values {
      var m :| m in rest && rest[m] == f;
      assert tree[m] == f;
    }
  }

  /** An address space that has just been created owns no page. */
  lemma NewRootOwnsNothing(kroot: nat, tree0: Tree, root: nat, work: seq<PageLoad>)
    requires Shaped(kroot, tree0) && Pml4(root) !in tree0
    ensures WithoutRoot(tree0[Pml4(root) := root], root) == tree0
    ensures LeavesOf(root, work) !! tree0[Pml4(root) := root].Keys
  {
    hide SlotOf;
    forall n | n in tree0 ensures n.root != root {
      if n.root == root { AncestorsPresent(kroot, tree0, Pml4(root), n); }
    }
  }

  /** Create, load, free.  z, a and b are the states before the creation, after it, and after the
      load; the frames still in use once the new address space is freed are those of z after a
      successful load of page-disjoint segments, and at most one more after a failed one, as
      long as the upper tables of the new address space are direct. */
  lemma LoadConserves(kroot: nat, root: nat, data: seq<Byte>, z: Snapshot, a: Snapshot, b: Snapshot, loaded: bool)
    requires Held(z.tree, z.lost, z.used) && Shaped(kroot, z.tree) && Pml4(root) !in z.tree
    requires a.tree == z.tree[Pml4(root) := root] && a.lost == z.lost
    requires Held(b.tree, b.lost, b.used) && Shaped(kroot, b.tree)
    requires Foreign(b.tree, b.lost, b.used) == Foreign(z.tree, z.lost, z.used)
    requires WithoutRoot(b.tree, root) == WithoutRoot(a.tree, root)
    requires PageDisjoint(Work(data)) && UpperTablesDirect(b.tree, root)
    requires if loaded then Progress(root, Work(data), data, a, b, true) else Abandoned(root, Work(data), a, b)
    ensures WithoutRoot(b.tree, root) == z.tree
    ensures var left := b.used - Whole(b.tree, Pml4(root));
            if loaded then left == z.used else z.used <= left && exists f :: left <= z.used + {f}
  {
    hide Held, Shaped, Foreign, Whole, OnlyTouched, PagesKept, PageShows, PageDisjoint, LeavesOf, UpperTablesDirect, LastLoads;
    NewRootOwnsNothing(kroot, z.tree, root, Work(data));
    FramesConserved(z.tree, z.lost, z.used, kroot, b.tree, b.lost, b.used, root);
    if !loaded {
      var f :| b.lost <= a.lost + {f};
      assert b.used - Whole(b.tree, Pml4(root)) <= z.used + {f};
    }
  }

  /** While the only table of the new address space is its root, below page 511. */
  lemma NewRootDirect(kroot: nat, tree0: Tree, root: nat)
    requires Shaped(kroot, tree0) && Pml4(root) !in tree0 && root < 511
    ensures UpperTablesDirect(tree0[Pml4(root) := root], root)
  {
    forall n | n in tree0 ensures n.root != root {
      if n.root == root { AncestorsPresent(kroot, tree0, Pml4(root), n); }
    }
  }

  /** What the books of a valid state say. */
  lemma Books(vm: AddressSpaces)
    requires vm.Valid()
    ensures Held(vm.tree, vm.lost, vm.pmm.used) && Shaped(vm.kroot, vm.tree) && |vm.mem| <= 0x10_0000_0000
    ensures Pml4(vm.kroot) in vm.tree && 0 in vm.pmm.used
    ensures vm.pmm.usedFrames == |vm.pmm.used| && Encodes(vm.pmm.bitmap[..], vm.pmm.used)
  {
    hide Held, Encodes;
  }

  /** How a load into a fresh address space with enough direct frames ends. */
  lemma LoadOutcome(vm: AddressSpaces, root: nat, data: seq<Byte>, z: Snapshot, a: Snapshot, rc: int, all: bool)
    requires Held(z.tree, z.lost, z.used) && Shaped(vm.kroot, z.tree) && Pml4(root) !in z.tree
    requires a.tree == z.tree[Pml4(root) := root] && a.lost == z.lost && root < 511
    requires PageDisjoint(Work(data)) && Spare(a.used) >= 4 * |Work(data)|
    requires if rc == 0 then Loading(vm, root, Work(data), Work(data), data, a, all) else GaveUp(vm, root, Work(data), a)
    requires Foreign(vm.tree, vm.lost, vm.pmm.used) == Foreign(z.tree, z.lost, z.used)
    ensures vm.Valid() && UpperTablesDirect(vm.tree, root) && Pml4(root) in vm.tree
    ensures WithoutRoot(vm.tree, root) == z.tree
    ensures var left := vm.pmm.used - Whole(vm.tree, Pml4(root));
            if rc == 0 then left == z.used else z.used <= left && exists f :: left <= z.used + {f}
  {
    hide AddressSpaces.Valid, Held, Shaped, Foreign, UpperTablesDirect, WithoutRoot, Whole, Progress, Abandoned, PageDisjoint, Spare, TookLow,
         LoadRun, KernelEntryKept, Avoids511;
    NewRootDirect(vm.kroot, z.tree, root);
    Books(vm);
    LoadConserves(vm.kroot, root, data, z, a, Snap(vm), rc == 0);
  }

  lemma SpareAvoids511(used: set<nat>, total: nat, n: nat)
    requires Spare(used) >= n
    ensures Avoids511(used, total, n)
  {
    hide Spare;
  }

  /** The same with every step carried out: when the free frames of the window suffice for the
      whole load, the frame bitmap ends exactly as it began, word for word. */
  method LoadAndFree(vm: AddressSpaces, data: seq<Byte>) returns (created: bool, rc: int)
    requires vm.Valid() && Pml4(vm.cr3) in vm.tree && Loadable(data) && PageDisjoint(Work(data))
    requires Spare(vm.pmm.used) >= 4 * |Work(data)| + 1
    modifies vm, vm.pmm, vm.pmm.bitmap
    ensures vm.Valid() && vm.tree == old(vm.tree)
    ensures created ==> rc == 0 || rc == -1
    ensures !created ==> Exhausted(vm.pmm.used, vm.pmm.totalFrames)
    ensures !created || rc == 0 ==>
      vm.pmm.used == old(vm.pmm.used) && vm.pmm.usedFrames == old(vm.pmm.usedFrames)
      && vm.pmm.bitmap[..] == old(vm.pmm.bitmap[..])
    ensures created && rc == -1 ==>
      old(vm.pmm.used) <= vm.pmm.used && exists f :: vm.pmm.used <= old(vm.pmm.used) + {f}
  {
    hide AddressSpaces.Valid, Loading, GaveUp, Foreign, UpperTablesDirect, Spare, NextFrame, WithoutRoot, Whole,
         LeavesKept, Held, Shaped, Encodes, PageDisjoint, Loadable, Work, LoadRun, KernelEntryKept, Avoids511;
    ghost var z := Snap(vm);
    created, rc := false, 0;
    Books(vm);
    SpareAvoids511(vm.pmm.used, vm.pmm.totalFrames, 1);
    if NextFrame(vm.pmm.used, vm.pmm.totalFrames) < vm.pmm.totalFrames { TookNext(vm.pmm.used, vm.pmm.totalFrames); }
    var pa := vm.CreateUserSpace();
    if pa != 0 {
      SpareAvoids511(vm.pmm.used, vm.pmm.totalFrames, 4 * |Work(data)|);
      created := true;
      ghost var a, root := Snap(vm), pa / FRAME_SIZE;
      ghost var all;
      var entry;
      rc, entry, all := ElfLoad(vm, data, pa / FRAME_SIZE);
      LoadOutcome(vm, root, data, z, a, rc, all);
      vm.FreeUserSpace(pa);
    }
    Books(vm);
    if vm.pmm.used == z.used { BitmapDetermined(old(vm.pmm.bitmap[..]), vm.pmm.bitmap[..], z.used); }
  }
}
