/** The ELF loader (src/fs/elf.c): maps the PT_LOAD segments of a file into a user address space. */
module Elf {
  import opened Wrappers
  import opened Pmm
  import opened PageTables
  import opened Window
  import opened Leaves
  import opened Subtrees
  import opened Walks
  import opened Paging
  import opened Bytes
  import opened ElfImage

  /** Owned pages outside `except` keep their frames and contents, and no other page appears. */
  ghost predicate PagesKept(mem: Memory, tree: Tree, mem': Memory, tree': Tree, except: set<Node>) {
    && (forall n :: n in tree && n.Leaf? && n !in except ==>
          n in tree' && tree'[n] == tree[n] && tree[n] < |mem| == |mem'| && mem'[tree[n]] == mem[tree[n]])
    && (forall n :: n in tree' && n.Leaf? && n !in except ==> n in tree)
  }

  lemma ExtendsKeepsPages(mem: Memory, tree: Tree, mem': Memory, tree': Tree, kroot: nat, ptHi: nat, keep: set<nat>)
    requires TablesOk(mem, kroot, ptHi, tree) && Extends(ptHi, mem, tree, keep, mem', tree')
    ensures PagesKept(mem, tree, mem', tree', {})
  {
    hide TablesOk;
    TablesHaveWindow(mem, kroot, ptHi, tree);
    forall n | n in tree && n.Leaf?
      ensures n in tree' && tree'[n] == tree[n] && tree[n] < |mem| == |mem'| && mem'[tree[n]] == mem[tree[n]]
    {
      assert forall i: Index :: mem'[tree[n]][i] == mem[tree[n]][i];
    }
  }

  lemma PagesKeptTwice(m0: Memory, t0: Tree, m1: Memory, t1: Tree, m2: Memory, t2: Tree, e1: set<Node>, e2: set<Node>)
    requires PagesKept(m0, t0, m1, t1, e1) && PagesKept(m1, t1, m2, t2, e2)
    ensures PagesKept(m0, t0, m2, t2, e1 + e2)
  {
  }

  lemma WriteKeepsPages(mem: Memory, tree: Tree, f: nat, i: Index, w: Word, tree': Tree, leaf: Node)
    requires f < |mem| && (forall n :: n in tree && n.Leaf? ==> tree[n] != f && tree[n] < |mem|)
    requires forall n: Node :: n.Leaf? && n != leaf ==> (n in tree <==> n in tree') && (n in tree ==> tree'[n] == tree[n])
    ensures PagesKept(mem, tree, Put(mem, f, i, w), tree', {leaf})
  {
  }

  /** Page w of the file is visible in the address space, with the contents the loader computed. */
  ghost predicate PageShows(mem: Memory, tree: Tree, root: nat, w: PageLoad, data: seq<Byte>) {
    var leaf := LeafOfSlot(root, SlotOf(w.va));
    && leaf in tree && tree[leaf] < |mem| <= 0x10_0000_0000
    && mem[tree[leaf]] == PageImage(w, data)
    && LeafEntry(mem, root, SlotOf(w.va)) == Entry(tree[leaf], RW_USER)
  }

  /** A frame for page w, zeroed and filled through the window (src/fs/elf.c:115-145). */
  method FillFrame(vm: AddressSpaces, w: PageLoad, data: seq<Byte>) returns (pa: nat)
    requires vm.Valid() && Avoids511(vm.pmm.used, vm.pmm.totalFrames, 1)
    modifies vm, vm.pmm, vm.pmm.bitmap
    ensures vm.Valid() && vm.cr3 == old(vm.cr3) && vm.tree == old(vm.tree) && vm.lost == old(vm.lost)
    ensures Extends(vm.ptHi, old(vm.mem), old(vm.tree), old(Foreign(vm.tree, vm.lost, vm.pmm.used)), vm.mem, vm.tree)
    ensures var f := NextFrame(old(vm.pmm.used), vm.pmm.totalFrames);
      if f == vm.pmm.totalFrames then pa == 0 && vm.pmm.used == old(vm.pmm.used)
      else
        && pa == f * FRAME_SIZE && 0 < f < |vm.mem| && f != 511
        && vm.pmm.used == old(vm.pmm.used) + {f}
        && f !in vm.tree.Values && f !in vm.lost
        && Foreign(vm.tree, vm.lost, vm.pmm.used) == old(Foreign(vm.tree, vm.lost, vm.pmm.used)) + {f}
        && Foreign(vm.tree, vm.lost, vm.pmm.used) - {f} == old(Foreign(vm.tree, vm.lost, vm.pmm.used))
        && vm.mem[f] == PageImage(w, data)
    ensures TookLow(old(vm.pmm.used), vm.pmm.used, 1)
  {
    hide Encodes, TablesOk, Held, Extends, Foreign, CopyLength, FileOffset, Overlay, Shown, TookLow, Avoids511, NextFrame;
    TookNone(vm.pmm.used, 1);
    ghost var kroot, ptHi, tree := vm.kroot, vm.ptHi, vm.tree;
    ghost var mem0, keep := vm.mem, Foreign(tree, vm.lost, vm.pmm.used);
    ForeignIsKept(tree, vm.lost, vm.pmm.used, ptHi);
    NothingExtends(kroot, ptHi, mem0, tree, keep);
    TablesHaveWindow(mem0, kroot, ptHi, tree);
    pa := vm.pmm.AllocFrame();
    if pa == 0 { return; }
    ghost var f := pa / FRAME_SIZE;
    TookNext(old(vm.pmm.used), vm.pmm.totalFrames);
    NextIsNot511(old(vm.pmm.used), vm.pmm.totalFrames);
    HeldMore(tree, vm.lost, old(vm.pmm.used), f);
    FreshFrame(mem0, kroot, ptHi, tree, vm.lost, old(vm.pmm.used), f);
    var h := vm.VirtForPhys(pa);
    ghost var mem1 := vm.mem;
    vm.Clear(h);
    Outside(kroot, ptHi, mem0, mem0, mem1, tree, keep, f, ZeroFrame());
    if CopyLength(w.ph, |data|, w.va) > 0 {
      ghost var mem2 := vm.mem;
      h := vm.VirtForPhys(pa);
      ghost var mem3 := vm.mem;
      vm.CopyIn(h, CopySource(w.ph, data, w.va));
      Outside(kroot, ptHi, mem0, mem2, mem3, tree, keep, f, vm.mem[f]);
    }
  }

  /** A remapping of the scratch page, and new contents for a frame that is no table. */
  lemma Outside(kroot: nat, ptHi: nat, mem0: Memory, mem1: Memory, mem2: Memory, tree: Tree, keep: set<nat>, f: nat, contents: Frame)
    requires TablesOk(mem1, kroot, ptHi, tree) && TablesOk(mem2, kroot, ptHi, tree)
    requires Extends(ptHi, mem0, tree, keep, mem1, tree) && ScratchOnly(ptHi, mem1, mem2)
    requires f < |mem2| && f !in tree.Values && f != ptHi && f !in keep && ptHi !in keep
    ensures TablesOk(mem2[f := contents], kroot, ptHi, tree) && Extends(ptHi, mem0, tree, keep, mem2[f := contents], tree)
  {
    hide TablesOk, Extends;
    TablesHaveWindow(mem1, kroot, ptHi, tree);
    TablesHaveWindow(mem2, kroot, ptHi, tree);
    ScratchExtends(ptHi, mem1, tree, keep, mem2);
    ExtendsTwice(ptHi, mem0, tree, keep, mem1, tree, keep, mem2, tree);
    OutsideKeepsTables(mem2, kroot, ptHi, tree, f, contents);
    OutsideExtends(ptHi, mem2, tree, keep, f, contents);
    ExtendsTwice(ptHi, mem0, tree, keep, mem2, tree, keep, mem2[f := contents], tree);
  }

  lemma ForeignIsKept(tree: Tree, lost: set<nat>, used: set<nat>, f: nat)
    ensures Foreign(tree, lost, used) <= used - tree.Values
    ensures f in tree.Values || f !in used ==> f !in Foreign(tree, lost, used)
  {
  }

  /** A round writes no frame that belongs to something else. */
  lemma KeptThroughRound(ptHi: nat, m0: Memory, t0: Tree, m1: Memory, m2: Memory, t2: Tree, foreign: set<nat>, keep: set<nat>)
    requires Extends(ptHi, m0, t0, foreign, m1, t0) && Extends(ptHi, m1, t0, keep, m2, t2) && foreign <= keep
    ensures FramesKept(m0, m2, foreign) && Extends(ptHi, m0, t0, {}, m1, t0)
  {
  }

  lemma KeptInFill(ptHi: nat, m0: Memory, t0: Tree, m1: Memory, foreign: set<nat>)
    requires Extends(ptHi, m0, t0, foreign, m1, t0)
    ensures FramesKept(m0, m1, foreign) && Extends(ptHi, m0, t0, {}, m1, t0)
  {
  }

  lemma KeptThroughStore(m0: Memory, m2: Memory, foreign: set<nat>, g: nat, i: Index, w: Word)
    requires FramesKept(m0, m2, foreign) && g < |m2| && g !in foreign
    ensures FramesKept(m0, Put(m2, g, i, w), foreign)
  {
  }

  /** The walk added tables only: every translation and every page is as before the round. */
  lemma WalkedKeeps(kroot: nat, ptHi: nat, mem0: Memory, tree0: Tree, mem1: Memory, mem2: Memory, tree2: Tree, keep: set<nat>)
    requires TablesOk(mem0, kroot, ptHi, tree0) && TablesOk(mem1, kroot, ptHi, tree0) && TablesOk(mem2, kroot, ptHi, tree2)
    requires Extends(ptHi, mem0, tree0, {}, mem1, tree0) && Extends(ptHi, mem1, tree0, keep, mem2, tree2)
    ensures LeavesKept(mem0, mem2, tree0) && PagesKept(mem0, tree0, mem2, tree2, {}) && SameRoots(tree0, tree2)
    ensures FramesKept(mem1, mem2, keep) && KernelEntryKept(mem0, mem2, kroot)
  {
    hide TablesOk, Extends, PagesKept, LeavesKept;
    ExtendsKeeps(mem0, mem1, kroot, ptHi, tree0, tree0, {});
    ExtendsKeeps(mem1, mem2, kroot, ptHi, tree0, tree2, keep);
    ExtendsKeepsPages(mem0, tree0, mem1, tree0, kroot, ptHi, {});
    ExtendsKeepsPages(mem1, tree0, mem2, tree2, kroot, ptHi, keep);
    KeptTwice(mem0, mem1, mem2, tree0, tree0);
    PagesKeptTwice(mem0, tree0, mem1, tree0, mem2, tree2, {}, {});
    var none: set<Node> := {};
    assert none + none == none;
  }

  /** New tables made while low frames last are direct. */
  lemma UpperTablesLow(kroot: nat, ptHi: nat, mem: Memory, tree: Tree, mem': Memory, tree': Tree, keep: set<nat>,
                       root: nat, lost: set<nat>, used: set<nat>, used': set<nat>)
    requires Extends(ptHi, mem, tree, keep, mem', tree') && TablesOk(mem', kroot, ptHi, tree') && Held(tree', lost, used')
    requires keep == used - tree.Values && keep !! tree'.Values && TookLow(used, used', 3)
    ensures UpperTablesDirect(tree, root) && Spare(used) >= 3 ==> UpperTablesDirect(tree', root)
  {
    hide Spare, Linked, WindowOk;
    if UpperTablesDirect(tree, root) && Spare(used) >= 3 {
      forall n | n in tree' && n.root == root && !n.Pt? && !n.Leaf? ensures tree'[n] < 511 {
        assert tree'[n] in tree'.Values;
      }
    }
  }

  lemma UpperTablesStay(kroot: nat, ptHi: nat, mem: Memory, tree: Tree, mem': Memory, tree': Tree, keep: set<nat>,
                        root: nat, leaf: Node, f: nat)
    requires Extends(ptHi, mem, tree, keep, mem', tree') && leaf.Leaf?
    ensures UpperTablesDirect(tree', root) ==> UpperTablesDirect(tree, root)
    ensures UpperTablesDirect(tree'[leaf := f], root) <==> UpperTablesDirect(tree', root)
    ensures forall r :: Pml4(r) in tree'[leaf := f] <==> Pml4(r) in tree'
  {
  }

  lemma WalkedKeepsNothing(kroot: nat, ptHi: nat, mem0: Memory, mem1: Memory, tree0: Tree)
    requires TablesOk(mem0, kroot, ptHi, tree0) && TablesOk(mem1, kroot, ptHi, tree0)
    requires Extends(ptHi, mem0, tree0, {}, mem1, tree0)
    ensures LeavesKept(mem0, mem1, tree0) && PagesKept(mem0, tree0, mem1, tree0, {}) && SameRoots(tree0, tree0)
    ensures KernelEntryKept(mem0, mem1, kroot)
  {
    hide TablesOk, Extends;
    ExtendsKeeps(mem0, mem1, kroot, ptHi, tree0, tree0, {});
    ExtendsKeepsPages(mem0, tree0, mem1, tree0, kroot, ptHi, {});
  }

  /** The round that ends in a table of the tree: the page shows the frame and nothing else moved. */
  lemma PageLinked(kroot: nat, ptHi: nat, mem0: Memory, tree0: Tree, mem2: Memory, tree2: Tree, lost: set<nat>, used: set<nat>,
                   root: nat, w: PageLoad, data: seq<Byte>, f: nat)
    requires TablesOk(mem2, kroot, ptHi, tree2) && Held(tree2, lost, used) && |mem2| <= 0x10_0000_0000
    requires LeavesKept(mem0, mem2, tree0) && PagesKept(mem0, tree0, mem2, tree2, {}) && SameRoots(tree0, tree2)
    requires root != kroot && Pml4(root) in tree0 && PageLoadOk(w) && PtOf(root, SlotOf(w.va)) in tree2
    requires 0 < f < |mem2| && f != 511 && f in Foreign(tree2, lost, used) && mem2[f] == PageImage(w, data)
    ensures var s := SlotOf(w.va);
            var leaf := LeafOfSlot(root, s);
            && s.pi != 511 && tree2[PtOf(root, s)] < |mem2|
            && var mem := Put(mem2, tree2[PtOf(root, s)], s.pti, Entry(f, RW_USER));
            var tree := tree2[leaf := f];
            && TablesOk(mem, kroot, ptHi, tree) && Held(tree, lost + Displaced(tree2, leaf), used)
            && Foreign(tree, lost + Displaced(tree2, leaf), used) == Foreign(tree2, lost, used) - {f}
            && PageShows(mem, tree, root, w, data)
            && LeafSet(mem0, mem, kroot, tree0, root, s, LeafEntry(mem, root, s))
            && PagesKept(mem0, tree0, mem, tree, {leaf})
            && Displaced(tree2, leaf) == Displaced(tree0, leaf)
            && kroot < |mem2| && mem[kroot] == mem2[kroot]
  {
    hide TablesOk, Held, PagesKept, LeavesKept, Entry, LeafEntry, PageImage, SlotOf;
    UserSlot(w.va);
    var s := SlotOf(w.va);
    var p, leaf := PtOf(root, s), LeafOfSlot(root, s);
    TreeInjective(mem2, kroot, ptHi, tree2);
    TablesHaveWindow(mem2, kroot, ptHi, tree2);
    OwnLeaf(mem2, kroot, ptHi, tree2, root, s, f);
    HeldLeaf(tree2, lost, used, leaf, f);
    var mem := Put(mem2, tree2[p], s.pti, Entry(f, RW_USER));
    var tree := tree2[leaf := f];
    KeptThenSet(mem0, mem2, mem, kroot, tree0, tree2, root, s, Entry(f, RW_USER));
    assert LeafEntry(mem, root, s) == Entry(f, RW_USER);
    WriteKeepsPages(mem2, tree2, tree2[p], s.pti, Entry(f, RW_USER), tree, leaf);
    var none: set<Node> := {};
    PagesKeptTwice(mem0, tree0, mem2, tree2, mem, tree, none, {leaf});
    assert none + {leaf} == {leaf};
    SamePage(mem0, tree0, mem2, tree2, leaf);
    assert mem[f] == mem2[f] by { assert tree2[p] in tree2.Values; }
  }

  lemma SamePage(mem0: Memory, tree0: Tree, mem2: Memory, tree2: Tree, leaf: Node)
    requires PagesKept(mem0, tree0, mem2, tree2, {}) && leaf.Leaf?
    ensures Displaced(tree2, leaf) == Displaced(tree0, leaf)
  {
  }

  lemma TreeInjective(mem: Memory, kroot: nat, ptHi: nat, tree: Tree)
    requires TablesOk(mem, kroot, ptHi, tree)
    ensures forall m, n :: m in tree && n in tree && tree[m] == tree[n] ==> m == n
  {
  }

  /** Physical memory with the ghost state that explains it. */
  datatype Snapshot = Snapshot(mem: Memory, tree: Tree, lost: set<nat>, used: set<nat>)

  /** What became of one round of the page loop, from snapshot a to snapshot b. */
  ghost predicate Loaded(kroot: nat, root: nat, w: PageLoad, data: seq<Byte>, a: Snapshot, b: Snapshot, rc: int, reached: bool) {
    var s := SlotOf(w.va);
    var leaf := LeafOfSlot(root, s);
    if rc == 0 && reached then
      && PageShows(b.mem, b.tree, root, w, data)
      && LeafSet(a.mem, b.mem, kroot, a.tree, root, s, LeafEntry(b.mem, root, s))
      && PagesKept(a.mem, a.tree, b.mem, b.tree, {leaf})
      && b.lost == a.lost + Displaced(a.tree, leaf)
    else
      && LeavesKept(a.mem, b.mem, a.tree)
      && PagesKept(a.mem, a.tree, b.mem, b.tree, {})
      && (rc == -1 && UpperTablesDirect(b.tree, root) ==> exists f :: b.lost <= a.lost + {f})
  }

  ghost function Snap(vm: AddressSpaces): Snapshot
    reads vm, vm.pmm
  {
    Snapshot(vm.mem, vm.tree, vm.lost, vm.pmm.used)
  }

  /** What one round keeps, whatever became of it. */
  ghost predicate RoundKeeps(kroot: nat, root: nat, a: Snapshot, b: Snapshot, taken: nat) {
    && KernelEntryKept(a.mem, b.mem, kroot) && SameRoots(a.tree, b.tree) && a.lost <= b.lost
    && WithoutRoot(b.tree, root) == WithoutRoot(a.tree, root)
    && (UpperTablesDirect(b.tree, root) ==> UpperTablesDirect(a.tree, root))
    && (UpperTablesDirect(a.tree, root) && Spare(a.used) >= taken ==> UpperTablesDirect(b.tree, root))
    && TookLow(a.used, b.used, taken)
  }

  /** The frames that belong to something other than tables and user pages are the same ones, with the
      contents they had. */
  ghost predicate OthersKept(a: Snapshot, b: Snapshot) {
    && Foreign(b.tree, b.lost, b.used) == Foreign(a.tree, a.lost, a.used)
    && FramesKept(a.mem, b.mem, Foreign(a.tree, a.lost, a.used))
  }

  lemma OthersKeptTwice(a: Snapshot, b: Snapshot, c: Snapshot)
    requires OthersKept(a, b) && OthersKept(b, c)
    ensures OthersKept(a, c)
  {
    hide Foreign;
  }

  /** The tables and the frames in use. */
  datatype Ledger = Ledger(tree: Tree, used: set<nat>)

  /** Whether the entry for page w ends in a table that `root` reaches: the data frame is taken
      first, then the frames for missing tables. */
  ghost predicate RoundReaches(root: nat, total: nat, p: Ledger, w: PageLoad) {
    UserReaches(p.tree, root, p.used + {NextFrame(p.used, total)}, total, SlotOf(w.va))
  }

  /** The books after a round that did. */
  ghost function AfterRound(root: nat, total: nat, p: Ledger, w: PageLoad): Ledger {
    var f := NextFrame(p.used, total);
    var s := SlotOf(w.va);
    Ledger(WalkTree(p.tree, root, p.used + {f}, total, s)[LeafOfSlot(root, s) := f],
          WalkUsed(p.tree, root, p.used + {f}, total, s))
  }

  /** The books after the rounds in `done`, as long as every one of them reaches its table. */
  ghost function LoadRun(root: nat, total: nat, p: Ledger, done: seq<PageLoad>): Option<Ledger> {
    if done == [] then Some(p)
    else
      var last := |done| - 1;
      match LoadRun(root, total, p, done[..last])
      case None => None
      case Some(q) => if RoundReaches(root, total, q, done[last]) then Some(AfterRound(root, total, q, done[last])) else None
  }

  lemma LoadRunNext(root: nat, total: nat, p: Ledger, done: seq<PageLoad>, w: PageLoad)
    ensures LoadRun(root, total, p, done + [w]) ==
      match LoadRun(root, total, p, done)
      case None => None
      case Some(q) => if RoundReaches(root, total, q, w) then Some(AfterRound(root, total, q, w)) else None
  {
    hide RoundReaches, AfterRound;
    assert (done + [w])[..|done|] == done;
  }

  /** What one round of the page loop promises: `reached` says whether the entry was written into a
      table that `root` reaches, the data frame having been taken first. */
  ghost predicate RoundDone(kroot: nat, total: nat, root: nat, w: PageLoad, data: seq<Byte>, a: Snapshot, b: Snapshot,
                            rc: int, reached: bool) {
    && RoundKeeps(kroot, root, a, b, 4)
    && Loaded(kroot, root, w, data, a, b, rc, reached)
    && FramesKept(a.mem, b.mem, Foreign(a.tree, a.lost, a.used))
    && (UpperTablesDirect(b.tree, root) ==> reached)
    && (rc == 0 ==> reached == RoundReaches(root, total, Ledger(a.tree, a.used), w))
    && (rc == 0 && reached ==> Ledger(b.tree, b.used) == AfterRound(root, total, Ledger(a.tree, a.used), w))
    && (rc == -1 ==> Exhausted(b.used, total))
  }

  /** One round of the page loop of elf_load (src/fs/elf.c:114-184). */
  method LoadPage(vm: AddressSpaces, root: nat, w: PageLoad, data: seq<Byte>) returns (rc: int, ghost reached: bool)
    requires vm.Valid() && Pml4(root) in vm.tree && root != vm.kroot && PageLoadOk(w)
    requires Avoids511(vm.pmm.used, vm.pmm.totalFrames, 1 + Missing(vm.tree, root, SlotOf(w.va)))
    modifies vm, vm.pmm, vm.pmm.bitmap
    ensures vm.Valid() && vm.cr3 == old(vm.cr3)
    ensures Foreign(vm.tree, vm.lost, vm.pmm.used) == old(Foreign(vm.tree, vm.lost, vm.pmm.used))
    ensures rc == 0 || rc == -1
    ensures RoundDone(vm.kroot, vm.pmm.totalFrames, root, w, data, old(Snap(vm)), Snap(vm), rc, reached)
  {
    hide Encodes, TablesOk, Held, Extends, Foreign, NextFrame, UserReaches, TookLow, Spare,
         LeavesKept, PagesKept, PageImage, SlotOf, LeafSet, PageShows, UpperTablesDirect, Displaced, WithoutRoot,
         Avoids511, Missing, WalkTree, WalkUsed, KernelEntryKept, Exhausted;
    ghost var a := Snap(vm);
    FewerAvoid511(a.used, vm.pmm.totalFrames, 1, 1 + Missing(a.tree, root, SlotOf(w.va)));
    var pa := FillFrame(vm, w, data);
    if pa == 0 {
      KeptInFill(vm.ptHi, a.mem, a.tree, vm.mem, Foreign(a.tree, a.lost, a.used));
      WalkedKeepsNothing(vm.kroot, vm.ptHi, a.mem, vm.mem, a.tree);
      assert vm.lost <= a.lost + {0};
      TookFewer(old(vm.pmm.used), vm.pmm.used, 1, 4);
      assert Exhausted(vm.pmm.used, vm.pmm.totalFrames) by { NothingNext(a.used, vm.pmm.totalFrames); }
      return -1, true;
    }
    ghost var used1 := vm.pmm.used;
    StillAvoids511(a.used, used1, vm.pmm.totalFrames, 1, Missing(a.tree, root, SlotOf(w.va)));
    TookLeaves(old(vm.pmm.used), used1, 1);
    rc, reached := PlacePage(vm, root, w, data, pa, a);
    TookTwice(old(vm.pmm.used), used1, vm.pmm.used, 1, 3);
  }

  lemma NothingNext(used: set<nat>, total: nat)
    requires NextFrame(used, total) == total
    ensures Exhausted(used, total)
  {
    hide NextFrame;
  }

  /** The second half of the round: the table walk, and the entry for the filled frame. */
  method PlacePage(vm: AddressSpaces, root: nat, w: PageLoad, data: seq<Byte>, pa: nat, ghost a: Snapshot)
    returns (rc: int, ghost reached: bool)
    requires vm.Valid() && Pml4(root) in vm.tree && root != vm.kroot && PageLoadOk(w) && pa % FRAME_SIZE == 0
    requires a.tree == vm.tree && a.lost == vm.lost && TablesOk(a.mem, vm.kroot, vm.ptHi, a.tree)
    requires Extends(vm.ptHi, a.mem, a.tree, Foreign(a.tree, a.lost, a.used), vm.mem, vm.tree) && a.used <= vm.pmm.used
    requires var f := pa / FRAME_SIZE;
             0 < f < |vm.mem| && f != 511 && f in Foreign(vm.tree, vm.lost, vm.pmm.used) && vm.mem[f] == PageImage(w, data)
    requires Avoids511(vm.pmm.used, vm.pmm.totalFrames, Missing(vm.tree, root, SlotOf(w.va)))
    modifies vm, vm.pmm, vm.pmm.bitmap
    ensures vm.Valid() && vm.cr3 == old(vm.cr3)
    ensures Foreign(vm.tree, vm.lost, vm.pmm.used) == old(Foreign(vm.tree, vm.lost, vm.pmm.used)) - {pa / FRAME_SIZE}
    ensures rc == 0 || rc == -1
    ensures RoundKeeps(vm.kroot, root, a.(used := old(vm.pmm.used)), Snap(vm), 3)
    ensures Loaded(vm.kroot, root, w, data, a, Snap(vm), rc, reached)
    ensures FramesKept(a.mem, vm.mem, Foreign(a.tree, a.lost, a.used))
    ensures UpperTablesDirect(vm.tree, root) ==> reached
    ensures rc == 0 ==> reached == old(UserReaches(vm.tree, root, vm.pmm.used, vm.pmm.totalFrames, SlotOf(w.va)))
    ensures rc == 0 && reached ==>
      && vm.tree == old(WalkTree(vm.tree, root, vm.pmm.used, vm.pmm.totalFrames, SlotOf(w.va)))[LeafOfSlot(root, SlotOf(w.va)) := pa / FRAME_SIZE]
      && vm.pmm.used == old(WalkUsed(vm.tree, root, vm.pmm.used, vm.pmm.totalFrames, SlotOf(w.va)))
    ensures rc == -1 ==> Exhausted(vm.pmm.used, vm.pmm.totalFrames)
  {
    hide Encodes, TablesOk, Held, Extends, Foreign, StrayIn, Shown, NextFrame, UserReaches, TookLow, Spare,
         LeavesKept, PagesKept, LeafEntry, PageImage, SlotOf, LeafSet, PageShows, UpperTablesDirect, Displaced, WithoutRoot,
         Avoids511, Missing, WalkTree, WalkUsed, Exhausted;
    rc, reached := -1, true;
    ghost var kroot, ptHi := vm.kroot, vm.ptHi;
    ghost var f := pa / FRAME_SIZE;
    var s := SlotOf(w.va);
    UserSlot(w.va);
    ghost var mem1 := vm.mem;
    ghost var o := Origin(mem1, a.tree, vm.pmm.used - a.tree.Values);
    InForeign(a.tree, a.lost, vm.pmm.used, f);
    NothingExtends(kroot, ptHi, mem1, a.tree, o.keep);
    var ok, h;
    ghost var at, stray;
    ok, h, at, stray := vm.EnsureUserPath(root, s, o);
    ghost var mem2, tree2, lost2 := vm.mem, vm.tree, vm.lost;
    ghost var foreign := Foreign(a.tree, a.lost, a.used);
    ForeignIsKept(a.tree, a.lost, a.used, 0);
    KeptThroughRound(ptHi, a.mem, a.tree, mem1, mem2, tree2, foreign, o.keep);
    UpperTablesStay(kroot, ptHi, mem1, a.tree, mem2, tree2, o.keep, root, LeafOfSlot(root, s), f);
    UpperTablesLow(kroot, ptHi, mem1, a.tree, mem2, tree2, o.keep, root, lost2, old(vm.pmm.used), vm.pmm.used);
    if !ok {
      WalkedKeeps(kroot, ptHi, a.mem, a.tree, mem1, mem2, tree2, o.keep);
      HeldLoseForeign(tree2, lost2, vm.pmm.used, f);
      vm.lost := vm.lost + {f};
      assert UpperTablesDirect(vm.tree, root) ==> vm.lost <= a.lost + {f};
      return;
    }
    rc, reached := 0, at.Some?;
    assert at.Some? ==> tree2[at.value] in tree2.Values;
    KeptThroughStore(a.mem, mem2, foreign, Shown(mem2, ptHi, h), s.pti, Entry(pa / FRAME_SIZE, RW_USER));
    vm.Store(h, s.pti, Entry(pa / FRAME_SIZE, RW_USER));
    if at.Some? {
      WalkedKeeps(kroot, ptHi, a.mem, a.tree, mem1, mem2, tree2, o.keep);
      PageLinked(kroot, ptHi, a.mem, a.tree, mem2, tree2, lost2, vm.pmm.used, root, w, data, f);
      LeafElsewhere(tree2, root, LeafOfSlot(root, s), f);
      vm.tree := vm.tree[LeafOfSlot(root, s) := f];
      vm.lost := vm.lost + Displaced(tree2, LeafOfSlot(root, s));
    } else {
      StrayWrite(o, mem2, kroot, ptHi, tree2, lost2, vm.pmm.used, stray, Shown(mem2, ptHi, h), s.pti, Entry(f, RW_USER));
      WalkedKeeps(kroot, ptHi, a.mem, a.tree, mem1, vm.mem, tree2, o.keep);
      HeldLoseForeign(tree2, lost2, vm.pmm.used, f);
      vm.lost := vm.lost + {f};
    }
  }

  lemma LeafElsewhere(tree: Tree, root: nat, leaf: Node, f: nat)
    requires leaf.root == root
    ensures WithoutRoot(tree[leaf := f], root) == WithoutRoot(tree, root)
  {
  }

  lemma InForeign(tree: Tree, lost: set<nat>, used: set<nat>, f: nat)
    requires f in Foreign(tree, lost, used)
    ensures f in used - tree.Values && f !in lost
  {
  }

  /** The leaf nodes of the pages in `work`. */
  ghost function LeavesOf(root: nat, work: seq<PageLoad>): set<Node> {
    set j | 0 <= j < |work| :: LeafOfSlot(root, SlotOf(work[j].va))
  }

  /** Every translation is as in `a`, except through `root` at the pages in `work`. */
  ghost predicate OnlyTouched(a: Snapshot, b: Snapshot, root: nat, work: seq<PageLoad>) {
    forall r, s {:trigger LeafEntry(b.mem, r, s)} ::
      Pml4(r) in a.tree && !(r == root && LeafOfSlot(root, s) in LeavesOf(root, work)) ==>
        EntryKept(s, LeafEntry(a.mem, r, s), LeafEntry(b.mem, r, s))
  }

  /** Some page of the file has no entry in a table that `root` reaches. */
  ghost predicate SomeMissing(root: nat, done: seq<PageLoad>, tree: Tree) {
    exists j :: 0 <= j < |done| && LeafOfSlot(root, SlotOf(done[j].va)) !in tree
  }

  /** After the rounds in `done`, all of which ended in tables of the tree when `all` holds: the
      last load of every page is visible, and no frame was lost unless a page was loaded over. */
  ghost predicate Progress(root: nat, done: seq<PageLoad>, data: seq<Byte>, a: Snapshot, b: Snapshot, all: bool) {
    && OnlyTouched(a, b, root, done)
    && PagesKept(a.mem, a.tree, b.mem, b.tree, LeavesOf(root, done))
    && a.lost <= b.lost
    && (all ==> forall va :: va in LastLoads(done) ==> PageShows(b.mem, b.tree, root, LastLoads(done)[va], data))
    && (all && PageDisjoint(done) && LeavesOf(root, done) !! a.tree.Keys ==> b.lost == a.lost)
    && (!all && PageDisjoint(done) && LeavesOf(root, done) !! a.tree.Keys ==> SomeMissing(root, done, b.tree))
  }

  lemma LeavesOfNext(root: nat, done: seq<PageLoad>, w: PageLoad)
    ensures LeavesOf(root, done + [w]) == LeavesOf(root, done) + {LeafOfSlot(root, SlotOf(w.va))}
  {
    hide SlotOf;
    var all := done + [w];
    forall j | 0 <= j < |done| ensures all[j] == done[j] { }
    assert all[|done|] == w;
    forall n | n in LeavesOf(root, done) ensures n in LeavesOf(root, all) {
      var j :| 0 <= j < |done| && n == LeafOfSlot(root, SlotOf(done[j].va));
      assert n == LeafOfSlot(root, SlotOf(all[j].va));
    }
    assert LeafOfSlot(root, SlotOf(all[|done|].va)) in LeavesOf(root, all);
  }

  /** A page not loaded before is not among the leaves loaded before. */
  lemma NewLeaf(root: nat, done: seq<PageLoad>, w: PageLoad)
    requires PageLoadOk(w) && forall j :: 0 <= j < |done| ==> PageLoadOk(done[j]) && done[j].va != w.va
    ensures LeafOfSlot(root, SlotOf(w.va)) !in LeavesOf(root, done)
  {
    hide SlotOf;
    forall j | 0 <= j < |done| ensures SlotOf(done[j].va) != SlotOf(w.va) {
      if SlotOf(done[j].va) == SlotOf(w.va) { SlotDeterminesPage(done[j].va, w.va); }
    }
  }

  lemma TouchedNext(kroot: nat, root: nat, done: seq<PageLoad>, w: PageLoad, data: seq<Byte>, a: Snapshot, b: Snapshot, c: Snapshot, reached: bool)
    requires OnlyTouched(a, b, root, done) && Loaded(kroot, root, w, data, b, c, 0, reached)
    requires SameRoots(a.tree, b.tree) && PageLoadOk(w)
    ensures OnlyTouched(a, c, root, done + [w])
  {
    hide LeafEntry, PageShows, PagesKept, SlotOf;
    UserSlot(w.va);
    LeavesOfNext(root, done, w);
    var t := SlotOf(w.va);
    forall r, s | Pml4(r) in a.tree && s != SCRATCH_SLOT && !(r == root && LeafOfSlot(root, s) in LeavesOf(root, done + [w]))
      ensures LeafEntry(c.mem, r, s) == LeafEntry(a.mem, r, s)
    {
      assert LeafEntry(b.mem, r, s) == LeafEntry(a.mem, r, s);
      assert s == t ==> HomeRoot(kroot, r, s) == r;
    }
  }

  lemma ShowsStays(kroot: nat, root: nat, v: PageLoad, w: PageLoad, data: seq<Byte>, b: Snapshot, c: Snapshot, reached: bool)
    requires PageShows(b.mem, b.tree, root, v, data) && Loaded(kroot, root, w, data, b, c, 0, reached)
    requires PageLoadOk(v) && PageLoadOk(w) && v.va != w.va && Pml4(root) in b.tree
    ensures PageShows(c.mem, c.tree, root, v, data)
  {
    hide LeafEntry, SlotOf, PageImage, Entry;
    UserSlot(v.va);
    if SlotOf(v.va) == SlotOf(w.va) { SlotDeterminesPage(v.va, w.va); }
    assert LeafEntry(c.mem, root, SlotOf(v.va)) == LeafEntry(b.mem, root, SlotOf(v.va));
    assert LeafOfSlot(root, SlotOf(v.va)) != LeafOfSlot(root, SlotOf(w.va));
  }

  lemma ProgressStep(kroot: nat, root: nat, done: seq<PageLoad>, w: PageLoad, data: seq<Byte>, a: Snapshot, b: Snapshot, c: Snapshot,
                     all: bool, reached: bool)
    requires Progress(root, done, data, a, b, all) && Loaded(kroot, root, w, data, b, c, 0, reached)
    requires SameRoots(a.tree, b.tree) && Pml4(root) in a.tree && b.lost <= c.lost
    requires PageLoadOk(w) && forall j :: 0 <= j < |done| ==> PageLoadOk(done[j])
    ensures Progress(root, done + [w], data, a, c, all && reached)
  {
    hide LeafEntry, SlotOf, PageImage, PageShows;
    var leaf := LeafOfSlot(root, SlotOf(w.va));
    TouchedNext(kroot, root, done, w, data, a, b, c, reached);
    LeavesOfNext(root, done, w);
    PagesKeptTwice(a.mem, a.tree, b.mem, b.tree, c.mem, c.tree, LeavesOf(root, done), if reached then {leaf} else {});
    MoreExceptions(a, c, LeavesOf(root, done) + (if reached then {leaf} else {}), LeavesOf(root, done + [w]));
    assert (done + [w])[..|done|] == done;
    if all && reached {
      LastLoadsAre(done);
      forall va | va in LastLoads(done + [w]) ensures PageShows(c.mem, c.tree, root, LastLoads(done + [w])[va], data) {
        if va != w.va {
          var v := LastLoads(done)[va];
          ShowsStays(kroot, root, v, w, data, b, c, reached);
        }
      }
      if PageDisjoint(done + [w]) && LeavesOf(root, done + [w]) !! a.tree.Keys {
        DisjointPrefix(done, w);
        NewLeaf(root, done, w);
        assert leaf !in b.tree;
      }
    } else if PageDisjoint(done + [w]) && LeavesOf(root, done + [w]) !! a.tree.Keys {
      MissingStays(kroot, root, done, w, data, a, b, c, all, reached);
    }
  }

  /** A page that was missed stays missing while other pages are loaded. */
  lemma MissingStays(kroot: nat, root: nat, done: seq<PageLoad>, w: PageLoad, data: seq<Byte>, a: Snapshot, b: Snapshot, c: Snapshot,
                     all: bool, reached: bool)
    requires Progress(root, done, data, a, b, all) && Loaded(kroot, root, w, data, b, c, 0, reached) && !(all && reached)
    requires PageLoadOk(w) && forall j :: 0 <= j < |done| ==> PageLoadOk(done[j])
    requires PageDisjoint(done + [w]) && LeavesOf(root, done + [w]) !! a.tree.Keys
    ensures SomeMissing(root, done + [w], c.tree)
  {
    hide LeafEntry, SlotOf, PageImage, PageShows, OnlyTouched, LeavesKept, LeafSet;
    var all' := done + [w];
    LeavesOfNext(root, done, w);
    DisjointPrefix(done, w);
    NewLeaf(root, done, w);
    if all {
      assert all'[|done|] == w;
      assert LeafOfSlot(root, SlotOf(w.va)) !in b.tree;
    } else {
      var j :| 0 <= j < |done| && LeafOfSlot(root, SlotOf(done[j].va)) !in b.tree;
      assert all'[j] == done[j];
      InLeavesOf(root, done, j);
    }
  }

  lemma InLeavesOf(root: nat, done: seq<PageLoad>, j: nat)
    requires j < |done|
    ensures LeafOfSlot(root, SlotOf(done[j].va)) in LeavesOf(root, done)
  {
  }

  lemma MoreExceptions(a: Snapshot, c: Snapshot, fewer: set<Node>, more: set<Node>)
    requires PagesKept(a.mem, a.tree, c.mem, c.tree, fewer) && fewer <= more
    ensures PagesKept(a.mem, a.tree, c.mem, c.tree, more)
  {
  }

  lemma DisjointPrefix(done: seq<PageLoad>, w: PageLoad)
    requires PageDisjoint(done + [w])
    ensures PageDisjoint(done) && forall j :: 0 <= j < |done| ==> done[j].va != w.va
  {
    var all := done + [w];
    forall i, j | 0 <= i < j < |done| ensures done[i].va != done[j].va {
      assert all[i].va != all[j].va;
    }
    forall j | 0 <= j < |done| ensures done[j].va != w.va {
      assert all[j].va != all[|done|].va;
    }
  }

  /** A load that gave up: nothing but the file's pages was touched, and at most the frame in
      hand was lost unless a page was loaded over. */
  ghost predicate Abandoned(root: nat, work: seq<PageLoad>, a: Snapshot, b: Snapshot) {
    && OnlyTouched(a, b, root, work)
    && PagesKept(a.mem, a.tree, b.mem, b.tree, LeavesOf(root, work))
    && a.lost <= b.lost
    && (UpperTablesDirect(b.tree, root) && PageDisjoint(work) && LeavesOf(root, work) !! a.tree.Keys ==>
          exists f :: b.lost <= a.lost + {f})
  }

  lemma PrefixLeaves(root: nat, done: seq<PageLoad>, work: seq<PageLoad>)
    requires done <= work
    ensures LeavesOf(root, done) <= LeavesOf(root, work)
    ensures PageDisjoint(work) ==> PageDisjoint(done)
  {
    hide SlotOf;
    forall j | 0 <= j < |done| ensures LeafOfSlot(root, SlotOf(done[j].va)) in LeavesOf(root, work) {
      assert done[j] == work[j];
    }
  }

  lemma GiveUp(root: nat, done: seq<PageLoad>, work: seq<PageLoad>, data: seq<Byte>, a: Snapshot, b: Snapshot, all: bool)
    requires Progress(root, done, data, a, b, all) && done <= work
    requires UpperTablesDirect(b.tree, root) ==> all
    ensures Abandoned(root, work, a, b)
  {
    hide LeafEntry, SlotOf, PageShows, LeavesOf, PagesKept, UpperTablesDirect, PageDisjoint;
    PrefixLeaves(root, done, work);
    MoreExceptions(a, b, LeavesOf(root, done), LeavesOf(root, work));
    assert b.lost == a.lost ==> b.lost <= a.lost + {0};
  }

  lemma GiveUpInRound(kroot: nat, root: nat, done: seq<PageLoad>, w: PageLoad, work: seq<PageLoad>, data: seq<Byte>,
                      a: Snapshot, b: Snapshot, c: Snapshot, all: bool, reached: bool)
    requires Progress(root, done, data, a, b, all) && done <= work
    requires Loaded(kroot, root, w, data, b, c, -1, reached) && b.lost <= c.lost
    requires SameRoots(a.tree, b.tree)
    requires UpperTablesDirect(c.tree, root) ==> all
    ensures Abandoned(root, work, a, c)
  {
    hide LeafEntry, SlotOf, PageShows, LeavesOf, PagesKept, UpperTablesDirect, PageDisjoint;
    PrefixLeaves(root, done, work);
    var none: set<Node> := {};
    PagesKeptTwice(a.mem, a.tree, b.mem, b.tree, c.mem, c.tree, LeavesOf(root, done), none);
    assert LeavesOf(root, done) + none == LeavesOf(root, done);
    MoreExceptions(a, c, LeavesOf(root, done), LeavesOf(root, work));
    forall r, s | Pml4(r) in a.tree && s != SCRATCH_SLOT && !(r == root && LeafOfSlot(root, s) in LeavesOf(root, work))
      ensures LeafEntry(c.mem, r, s) == LeafEntry(a.mem, r, s)
    {
      assert LeafEntry(b.mem, r, s) == LeafEntry(a.mem, r, s);
      KeptAt(b.mem, c.mem, b.tree, r, s);
    }
  }

  /** The state of a load that began in `a`, after the rounds in `done`. */
  ghost predicate Loading(vm: AddressSpaces, root: nat, work: seq<PageLoad>, done: seq<PageLoad>, data: seq<Byte>,
                          a: Snapshot, all: bool)
    reads vm, vm.pmm, vm.pmm.bitmap
  {
    && vm.Valid() && SameRoots(a.tree, vm.tree) && Pml4(root) in vm.tree && root != vm.kroot
    && done <= work && (forall j :: 0 <= j < |done| ==> PageLoadOk(done[j]))
    && Progress(root, done, data, a, Snap(vm), all)
    && (UpperTablesDirect(vm.tree, root) ==> all && UpperTablesDirect(a.tree, root))
    && WithoutRoot(vm.tree, root) == WithoutRoot(a.tree, root)
    && TookLow(a.used, vm.pmm.used, 4 * |done|) && KernelEntryKept(a.mem, vm.mem, vm.kroot)
    && OthersKept(a, Snap(vm))
    && Avoids511(a.used, vm.pmm.totalFrames, 4 * |work|)
    && LoadRun(root, vm.pmm.totalFrames, Ledger(a.tree, a.used), done) == (if all then Some(Ledger(vm.tree, vm.pmm.used)) else None)
    && (UpperTablesDirect(a.tree, root) && Spare(a.used) >= 4 * |work| ==> UpperTablesDirect(vm.tree, root))
  }

  /** One round, with what it means for the load as a whole. */
  method LoadNext(vm: AddressSpaces, root: nat, w: PageLoad, data: seq<Byte>, ghost work: seq<PageLoad>,
                  ghost done: seq<PageLoad>, ghost a: Snapshot, ghost all: bool)
    returns (rc: int, ghost all': bool)
    requires Loading(vm, root, work, done, data, a, all) && PageLoadOk(w) && done + [w] <= work
    modifies vm, vm.pmm, vm.pmm.bitmap
    ensures vm.cr3 == old(vm.cr3)
    ensures Foreign(vm.tree, vm.lost, vm.pmm.used) == old(Foreign(vm.tree, vm.lost, vm.pmm.used))
    ensures rc == 0 || rc == -1
    ensures rc == 0 ==> Loading(vm, root, work, done + [w], data, a, all')
    ensures rc == -1 ==> GaveUp(vm, root, work, a) && Exhausted(vm.pmm.used, vm.pmm.totalFrames)
  {
    hide Foreign, Progress, Loaded, UpperTablesDirect, Abandoned, NextFrame, UserReaches, PageLoadOk, AddressSpaces.Valid,
         TookLow, Spare, WithoutRoot, KernelEntryKept, Avoids511, LoadRun, RoundReaches, AfterRound, Missing, SlotOf, FramesKept;
    ghost var b, used1 := Snap(vm), vm.pmm.used;
    ghost var reached;
    assert |done + [w]| == |done| + 1 <= |work|;
    TookLeaves(a.used, used1, 4 * |done|);
    StillAvoids511(a.used, used1, vm.pmm.totalFrames, 4 * |done|, 4 * (|work| - |done|));
    FewMissing(vm.tree, root, SlotOf(w.va));
    FewerAvoid511(used1, vm.pmm.totalFrames, 1 + Missing(vm.tree, root, SlotOf(w.va)), 4 * (|work| - |done|));
    LoadRunNext(root, vm.pmm.totalFrames, Ledger(a.tree, a.used), done, w);
    rc, reached := LoadPage(vm, root, w, data);
    all' := all && reached;
    TookTwice(a.used, used1, vm.pmm.used, 4 * |done|, 4);
    KernelEntryKeptTwice(a.mem, b.mem, vm.mem, vm.kroot);
    OthersKeptTwice(a, b, Snap(vm));
    if rc == 0 {
      ProgressStep(vm.kroot, root, done, w, data, a, b, Snap(vm), all, reached);
    } else {
      TookFewer(a.used, vm.pmm.used, 4 * |done| + 4, 4 * |work|);
      GiveUpInRound(vm.kroot, root, done, w, work, data, a, b, Snap(vm), all, reached);
    }
  }

  lemma KernelEntryKeptTwice(m0: Memory, m1: Memory, m2: Memory, kroot: nat)
    requires KernelEntryKept(m0, m1, kroot) && KernelEntryKept(m1, m2, kroot)
    ensures KernelEntryKept(m0, m2, kroot)
  {
  }

  lemma FewMissing(tree: Tree, root: nat, s: Slot)
    ensures Missing(tree, root, s) <= 3
  {
  }

  /** How a load ends that returns -1. */
  ghost predicate GaveUp(vm: AddressSpaces, root: nat, work: seq<PageLoad>, a: Snapshot)
    reads vm, vm.pmm, vm.pmm.bitmap
  {
    && vm.Valid() && SameRoots(a.tree, vm.tree)
    && Abandoned(root, work, a, Snap(vm)) && Pml4(root) in vm.tree && root != vm.kroot
    && TookLow(a.used, vm.pmm.used, 4 * |work|) && KernelEntryKept(a.mem, vm.mem, vm.kroot)
    && OthersKept(a, Snap(vm))
    && WithoutRoot(vm.tree, root) == WithoutRoot(a.tree, root)
    && (UpperTablesDirect(vm.tree, root) ==> UpperTablesDirect(a.tree, root))
    && (UpperTablesDirect(a.tree, root) && Spare(a.used) >= 4 * |work| ==> UpperTablesDirect(vm.tree, root))
  }

  /** The page loop for one PT_LOAD header. */
  method LoadSegment(vm: AddressSpaces, root: nat, ph: Phdr, data: seq<Byte>, ghost work: seq<PageLoad>,
                     ghost before: seq<PageLoad>, ghost a: Snapshot, ghost all: bool)
    returns (rc: int, ghost all': bool)
    requires Loading(vm, root, work, before, data, a, all)
    requires SegmentOk(ph) && before + SegmentPages(ph) <= work
    modifies vm, vm.pmm, vm.pmm.bitmap
    ensures vm.cr3 == old(vm.cr3)
    ensures Foreign(vm.tree, vm.lost, vm.pmm.used) == old(Foreign(vm.tree, vm.lost, vm.pmm.used))
    ensures rc == 0 || rc == -1
    ensures rc == 0 ==> Loading(vm, root, work, before + SegmentPages(ph), data, a, all')
    ensures rc == -1 ==> GaveUp(vm, root, work, a) && Exhausted(vm.pmm.used, vm.pmm.totalFrames)
  {
    hide Foreign, Loading, GaveUp, PagesFrom, PageLoadOk;
    rc, all' := 0, all;
    ghost var done := before;
    var va := SegmentStart(ph);
    while va < SegmentEnd(ph)
      invariant vm.cr3 == old(vm.cr3) && rc == 0
      invariant Foreign(vm.tree, vm.lost, vm.pmm.used) == old(Foreign(vm.tree, vm.lost, vm.pmm.used))
      invariant va % FRAME_SIZE == 0 && done + PagesFrom(ph, va) == before + SegmentPages(ph)
      invariant Loading(vm, root, work, done, data, a, all')
      decreases SegmentEnd(ph) - va
    {
      ghost var w := PageLoad(ph, va);
      NextPage(ph, va);
      assert done + PagesFrom(ph, va) == (done + [w]) + PagesFrom(ph, va + FRAME_SIZE);
      rc, all' := LoadNext(vm, root, PageLoad(ph, va), data, work, done, a, all');
      if rc != 0 { return; }
      done := done + [w];
      va := va + FRAME_SIZE;
    }
    NoMorePages(ph, va);
    assert done == before + SegmentPages(ph);
  }

  lemma NextPage(ph: Phdr, va: nat)
    requires SegmentOk(ph) && va % FRAME_SIZE == 0 && va < SegmentEnd(ph)
    ensures PagesFrom(ph, va) == [PageLoad(ph, va)] + PagesFrom(ph, va + FRAME_SIZE)
    ensures PageLoadOk(PageLoad(ph, va))
  {
    SegmentEndBound(ph, va);
  }

  lemma NoMorePages(ph: Phdr, va: nat)
    requires va >= SegmentEnd(ph)
    ensures PagesFrom(ph, va) == []
  {
  }

  /** The checks that start elf_load (src/fs/elf.c:18-60). */
  method HeaderAccepted(data: seq<Byte>) returns (ok: bool)
    ensures ok <==> HeaderOk(data)
    ensures ok ==> |data| >= EHDR_SIZE
  {
    hide FieldAt;
    if |data| < EHDR_SIZE { return false; }
    if data[0] != 0x7F || data[1] != 0x45 || data[2] != 0x4C || data[3] != 0x46 { return false; }
    if data[4] != 2 { return false; }
    if data[5] != 1 { return false; }
    if FieldAt(data, 16, 2) != 2 { return false; }
    if FieldAt(data, 18, 2) != 62 { return false; }
    return true;
  }

  /** elf_load.  `all` tells whether every page ended in a table of the address space. */
  method ElfLoad(vm: AddressSpaces, data: seq<Byte>, root: nat) returns (rc: int, entry: Option<nat>, ghost all: bool)
    requires vm.Valid() && Pml4(root) in vm.tree && root != vm.kroot && Loadable(data)
    requires Avoids511(vm.pmm.used, vm.pmm.totalFrames, 4 * |Work(data)|)
    modifies vm, vm.pmm, vm.pmm.bitmap
    ensures vm.cr3 == old(vm.cr3)
    ensures Foreign(vm.tree, vm.lost, vm.pmm.used) == old(Foreign(vm.tree, vm.lost, vm.pmm.used))
    ensures rc == 0 || rc == -1
    ensures entry == if HeaderOk(data) then Some(EntryPoint(data)) else None
    ensures rc == 0 ==> HeaderOk(data) && forall i :: 0 <= i < PhdrCount(data) ==> PhdrFits(data, i)
    ensures rc == 0 ==> Loading(vm, root, Work(data), Work(data), data, old(Snap(vm)), all)
    ensures rc == 0 ==>
      (all <==> LoadRun(root, vm.pmm.totalFrames, Ledger(old(vm.tree), old(vm.pmm.used)), Work(data)).Some?)
    ensures rc == -1 ==> GaveUp(vm, root, Work(data), old(Snap(vm)))
    ensures rc == -1 ==>
      || !HeaderOk(data) || (exists i :: 0 <= i < PhdrCount(data) && !PhdrFits(data, i))
      || Exhausted(vm.pmm.used, vm.pmm.totalFrames)
  {
    hide Foreign, Loading, GaveUp, PageLoadOk, AddressSpaces.Valid, SegmentPages, FieldAt, Spare, Avoids511, LoadRun, HeaderOk, PhdrFits, PhdrAt,
         PhdrCount, EntryPoint, Exhausted;
    rc, entry, all := -1, None, true;
    ghost var a := Snap(vm);
    ghost var work := Work(data);
    StartLoading(vm, root, work, data);
    StopLoading(vm, root, work, [], data, a, true);
    var accepted := HeaderAccepted(data);
    if !accepted { return; }
    entry := Some(EntryPoint(data));
    ghost var done: seq<PageLoad> := [];
    var i := 0;
    WorkBegins(data);
    hide WorkFrom, Work;
    while i < PhdrCount(data)
      invariant vm.cr3 == old(vm.cr3)
      invariant Foreign(vm.tree, vm.lost, vm.pmm.used) == old(Foreign(vm.tree, vm.lost, vm.pmm.used))
      invariant 0 <= i <= PhdrCount(data) && done + WorkFrom(data, i) == work
      invariant forall k :: 0 <= k < i ==> PhdrFits(data, k)
      invariant Loading(vm, root, work, done, data, a, all)
    {
      if !PhdrFits(data, i) {
        StopLoading(vm, root, work, done, data, a, all);
        rc := -1;
        return;
      }
      WorkGoesOn(data, done, i);
      var ph := PhdrAt(data, i);
      if ph.kind == PT_LOAD {
        rc, all := LoadSegment(vm, root, ph, data, work, done, a, all);
        if rc != 0 { return; }
        done := done + SegmentPages(ph);
      } else {
        assert done + [] == done;
      }
      i := i + 1;
    }
    WorkEnds(data, done);
    LoadingRun(vm, root, work, done, data, a, all);
    rc := 0;
  }

  lemma WorkBegins(data: seq<Byte>)
    requires HeaderOk(data)
    ensures [] + WorkFrom(data, 0) == Work(data)
  {
  }

  lemma WorkGoesOn(data: seq<Byte>, done: seq<PageLoad>, i: nat)
    requires HeaderOk(data) && i < PhdrCount(data) && PhdrFits(data, i)
    ensures done + WorkFrom(data, i) ==
            done + (if PhdrAt(data, i).kind == PT_LOAD then SegmentPages(PhdrAt(data, i)) else []) + WorkFrom(data, i + 1)
  {
    hide SegmentPages, FieldAt;
  }

  lemma WorkEnds(data: seq<Byte>, done: seq<PageLoad>)
    requires HeaderOk(data)
    ensures done + WorkFrom(data, PhdrCount(data)) == done
  {
    hide SegmentPages, FieldAt;
  }

  lemma LoadingRun(vm: AddressSpaces, root: nat, work: seq<PageLoad>, done: seq<PageLoad>, data: seq<Byte>, a: Snapshot, all: bool)
    requires Loading(vm, root, work, done, data, a, all)
    ensures all <==> LoadRun(root, vm.pmm.totalFrames, Ledger(a.tree, a.used), done).Some?
  {
    hide AddressSpaces.Valid, Progress, UpperTablesDirect, TookLow, PageLoadOk, LoadRun, WithoutRoot, Avoids511;
  }

  lemma StartLoading(vm: AddressSpaces, root: nat, work: seq<PageLoad>, data: seq<Byte>)
    requires vm.Valid() && Pml4(root) in vm.tree && root != vm.kroot
    requires Avoids511(vm.pmm.used, vm.pmm.totalFrames, 4 * |work|)
    ensures Loading(vm, root, work, [], data, Snap(vm), true)
  {
    hide AddressSpaces.Valid, Progress, Avoids511, TablesOk, Held, TookLow;
    NothingDone(vm, root, data);
    TookNone(vm.pmm.used, 0);
    vm.Parts();
    RootFrame(vm.mem, vm.kroot, vm.ptHi, vm.tree, vm.kroot);
  }

  lemma StopLoading(vm: AddressSpaces, root: nat, work: seq<PageLoad>, done: seq<PageLoad>, data: seq<Byte>,
                    a: Snapshot, all: bool)
    requires Loading(vm, root, work, done, data, a, all)
    ensures GaveUp(vm, root, work, a)
  {
    hide AddressSpaces.Valid, Progress, Abandoned, UpperTablesDirect, TookLow, PageLoadOk, LoadRun, Avoids511, WithoutRoot;
    TookFewer(a.used, vm.pmm.used, 4 * |done|, 4 * |work|);
    GiveUp(root, done, work, data, a, Snap(vm), all);
  }

  lemma NothingDone(vm: AddressSpaces, root: nat, data: seq<Byte>)
    requires vm.Valid()
    ensures Progress(root, [], data, Snap(vm), Snap(vm), true)
  {
    hide LeafEntry, TablesOk, Held, Encodes;
    TablesHaveWindow(vm.mem, vm.kroot, vm.ptHi, vm.tree);
  }
}
