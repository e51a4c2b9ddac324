/** The virtual memory manager (src/mm/paging.c) over physical memory. */
module Paging {
  import opened Wrappers
  import opened Pmm
  import opened PageTables
  import opened Window
  import opened BootTables
  import opened Bytes
  import opened Leaves
  import opened Subtrees
  import opened Walks

  /** The address spaces are the same ones. */
  ghost predicate SameRoots(tree: Tree, tree': Tree) {
    forall r :: Pml4(r) in tree <==> Pml4(r) in tree'
  }

  /** Every table is where it was. */
  ghost predicate TreeGrows(tree: Tree, tree': Tree) {
    forall n :: n in tree ==> n in tree' && tree'[n] == tree[n]
  }

  /** The frames that no table occupies were not written. */
  ghost predicate FramesKept(mem: Memory, mem': Memory, keep: set<nat>) {
    |mem'| == |mem| && forall f :: f in keep && f < |mem| ==> mem'[f] == mem[f]
  }

  /** The pages of memory that user address spaces own have the contents they had. */
  ghost predicate OwnedKept(mem: Memory, mem': Memory, tree: Tree) {
    forall n :: n in tree && n.Leaf? ==> tree[n] < |mem| == |mem'| && mem'[tree[n]] == mem[tree[n]]
  }

  lemma OwnedWritten(mem: Memory, mem1: Memory, kroot: nat, ptHi: nat, tree: Tree, tree1: Tree, f: nat, i: Index, w: Word)
    requires OwnedKept(mem, mem1, tree) && Shaped(kroot, tree1) && TreeGrows(tree, tree1) && f < |mem1|
    requires (exists n :: n in tree1 && !n.Leaf? && tree1[n] == f) || f !in tree1.Values
    ensures OwnedKept(mem, Put(mem1, f, i, w), tree)
  {
    forall n | n in tree && n.Leaf? ensures tree[n] != f { assert tree1[n] in tree1.Values; }
  }

  lemma ScratchOnlyTwice(ptHi: nat, m0: Memory, m1: Memory, m2: Memory)
    requires ScratchOnly(ptHi, m0, m1) && ScratchOnly(ptHi, m1, m2)
    ensures ScratchOnly(ptHi, m0, m2)
  {
  }

  /** The kernel root's entry 511, which every other root copies, is as it was. */
  ghost predicate KernelEntryKept(mem: Memory, mem': Memory, kroot: nat) {
    kroot < |mem| && kroot < |mem'| && mem'[kroot][511] == mem[kroot][511]
  }

  lemma OwnedExtends(mem: Memory, mem': Memory, kroot: nat, ptHi: nat, tree: Tree, tree': Tree, keep: set<nat>)
    requires TablesOk(mem, kroot, ptHi, tree) && Extends(ptHi, mem, tree, keep, mem', tree')
    ensures OwnedKept(mem, mem', tree)
  {
    hide Linked;
    assert Pt(kroot, 511, 510, 0) in tree;
    forall n | n in tree && n.Leaf? ensures mem'[tree[n]] == mem[tree[n]] {
      forall i: Index ensures mem'[tree[n]][i] == mem[tree[n]][i] { }
    }
  }

  lemma ShapedTables(mem: Memory, kroot: nat, ptHi: nat, tree: Tree)
    requires TablesOk(mem, kroot, ptHi, tree)
    ensures Shaped(kroot, tree)
  {
  }

  /** What a walk that only added tables leaves alone. */
  lemma ExtendsKeeps(mem: Memory, mem': Memory, kroot: nat, ptHi: nat, tree: Tree, tree': Tree, keep: set<nat>)
    requires TablesOk(mem, kroot, ptHi, tree) && TablesOk(mem', kroot, ptHi, tree')
    requires Extends(ptHi, mem, tree, keep, mem', tree')
    ensures LeavesKept(mem, mem', tree) && SameRoots(tree, tree') && FramesKept(mem, mem', keep)
    ensures KernelEntryKept(mem, mem', kroot)
    ensures TreeGrows(tree, tree') && OwnedKept(mem, mem', tree)
  {
    OwnedExtends(mem, mem', kroot, ptHi, tree, tree', keep);
    ExtendsKeepsLeaves(mem, mem', kroot, ptHi, tree, tree', keep);
    RootShown(mem, kroot, ptHi, tree);
    assert EntryLinks(kroot, mem[tree[Pml4(kroot)]][511], tree, Child(Pml4(kroot), 511));
  }

  /** The state from which a walk that adds tables is measured, and the frames it must not write. */
  datatype Origin = Origin(mem: Memory, tree: Tree, keep: set<nat>)

  lemma WriteKeepsFrames(mem: Memory, mem': Memory, keep: set<nat>, f: nat, i: Index, w: Word)
    requires FramesKept(mem, mem', keep) && f < |mem'| && f !in keep
    ensures FramesKept(mem, Put(mem', f, i, w), keep)
  {
  }

  lemma StrayWrite(o: Origin, mem: Memory, kroot: nat, ptHi: nat, tree: Tree, lost: set<nat>, used: set<nat>,
                   stray: set<nat>, f: nat, i: Index, w: Word)
    requires TablesOk(mem, kroot, ptHi, tree) && Held(tree, lost, used)
    requires Extends(ptHi, o.mem, o.tree, o.keep, mem, tree)
    requires f in stray && stray <= lost && o.keep !! stray && f < |mem|
    requires forall n :: n in tree && n !in o.tree ==> tree[n] != ptHi
    ensures TablesOk(Put(mem, f, i, w), kroot, ptHi, tree)
    ensures Extends(ptHi, o.mem, o.tree, o.keep, Put(mem, f, i, w), tree)
  {
    hide TablesOk, Held, Extends;
    HeldApart(tree, lost, used);
    TablesHaveWindow(mem, kroot, ptHi, tree);
    OutsideKeepsTables(mem, kroot, ptHi, tree, f, mem[f][i := w]);
    OutsideExtends(ptHi, mem, tree, o.keep, f, mem[f][i := w]);
    ExtendsTwice(ptHi, o.mem, o.tree, o.keep, mem, tree, o.keep, Put(mem, f, i, w), tree);
  }

  lemma UnreachedLeaf(mem: Memory, kroot: nat, ptHi: nat, tree: Tree, s: Slot)
    requires TablesOk(mem, kroot, ptHi, tree) && PtOf(kroot, s) !in tree
    ensures LeafEntry(mem, kroot, s) == 0
  {
    WalkFollowsTree(mem, kroot, tree, kroot, s);
  }

  /** The identity half and the higher half together are the boot tables. */
  lemma HalvesLink(half: Memory, mem: Memory, t: Statics)
    requires 512 <= |half| == |mem| && StaticsDistinct(t)
    requires forall i: Index :: half[t.pml4][i] == if i == 0 then Entry(t.pdptId, RW) else 0
    requires forall i: Index :: half[t.pdptId][i] == if i == 0 then Entry(t.pdId, RW) else 0
    requires forall i: Index :: half[t.pdId][i] == if i == 0 then Entry(t.ptId0, RW) else if i == 1 then Entry(t.ptId1, RW) else 0
    requires forall i: Index :: mem[t.pml4][i] == if i == 511 then Entry(t.pdptHi, RW_USER) else half[t.pml4][i]
    requires forall i: Index :: mem[t.pdptHi][i] == if i == 510 then Entry(t.pdHi, RW_USER) else 0
    requires forall i: Index :: mem[t.pdHi][i] == if i == 0 then Entry(t.ptHi, RW_USER) else 0
    requires mem[t.pdptId] == half[t.pdptId] && mem[t.pdId] == half[t.pdId]
    ensures BootLinks(mem, t)
  {
    hide Entry;
  }

  class AddressSpaces {
    const pmm: FrameAllocator
    /** The frames of the static tables pml4_new and pt_hi_kernel. */
    const kroot: nat
    const ptHi: nat

    var mem: Memory
    /** The root the CPU currently translates through, as a frame. */
    var cr3: nat

    ghost var tree: Tree
    /** Frames still marked in use that no table refers to any more. */
    ghost var lost: set<nat>

    ghost predicate Valid()
      reads this, pmm, pmm.bitmap
    {
      && pmm.Valid() && pmm.totalFrames <= |mem| <= 0x10_0000_0000
      && 0 in pmm.used
      && TablesOk(mem, kroot, ptHi, tree)
      && Held(tree, lost, pmm.used)
    }

    /** What a valid state says about its parts. */
    lemma Parts()
      requires Valid()
      ensures TablesOk(mem, kroot, ptHi, tree) && Held(tree, lost, pmm.used) && Pml4(kroot) in tree
      ensures pmm.Valid() && 0 in pmm.used && pmm.totalFrames <= |mem| <= 0x10_0000_0000
    {
      hide Encodes, Held;
    }

    /** paging_init: the identity and higher-half maps of the first 2 MiB. */
    constructor (pmm: FrameAllocator, ram: Memory, t: Statics)
      requires pmm.Valid() && pmm.totalFrames <= |ram| <= 0x10_0000_0000 && 512 <= |ram|
      requires 0 in pmm.used
      requires StaticsOk(t, pmm.used)
      ensures Valid() && this.pmm == pmm && kroot == t.pml4 && ptHi == t.ptHi
      ensures tree == BootTree(t) && lost == {} && cr3 == kroot
      ensures |mem| == |ram| && forall f :: 0 <= f < |ram| && f !in StaticFrames(t) ==> mem[f] == ram[f]
      ensures forall va: nat {:trigger Translate(mem, kroot, va)} :: va < IDENTITY_BYTES ==> Translate(mem, kroot, va) == Some(va)
      ensures forall s: Slot, w: bool {:trigger UserMay(mem, kroot, s, w)} :: s.pi < 511 ==> !UserMay(mem, kroot, s, w)
      ensures forall va: nat {:trigger Translate(mem, kroot, va)} :: HIGHER_HALF_BASE <= va < HIGHER_HALF_BASE + WINDOW_BYTES ==>
                Translate(mem, kroot, va) == Some(va - HIGHER_HALF_BASE)
      ensures forall va: nat {:trigger Translate(mem, kroot, va)} ::
                IDENTITY_BYTES <= va < USER_ADDR_LIMIT
                || (UPPER_HALF <= va < U64_LIMIT && !(HIGHER_HALF_BASE <= va < HIGHER_HALF_BASE + WINDOW_BYTES)) ==>
                Translate(mem, kroot, va) == None
    {
      hide LeafEntry, Entry, TablesOk, Held, BootLinks, BootPages, BootTree, StaticsDistinct, StaticFrames, Encodes, Translate, UserMay, SlotOf;
      this.pmm := pmm;
      kroot := t.pml4;
      ptHi := t.ptHi;
      mem := ram;
      lost := {};
      tree := BootTree(t);
      cr3 := 0;
      new;
      BuildTables(t);
      BootIsTree(mem, t, pmm.used);
      cr3 := t.pml4;
      BootTranslates(mem, t);
    }

    method BuildTables(t: Statics)
      requires 512 <= |mem| && StaticsDistinct(t)
      modifies this`mem
      ensures |mem| == old(|mem|) && t.ptHi < |mem| && BootLinks(mem, t) && BootPages(mem, t)
      ensures forall f :: 0 <= f < |mem| && f !in StaticFrames(t) ==> mem[f] == old(mem)[f]
    {
      hide Entry, BootLinks;
      ClearTables(t);
      StaticFramesAre(t);
      LinkIdentity(t);
      ghost var half := mem;
      LinkHigherHalf(t);
      HalvesLink(half, mem, t);
    }

    method ClearTables(t: Statics)
      requires 512 <= |mem| && StaticsDistinct(t)
      modifies this`mem
      ensures |mem| == old(|mem|)
      ensures forall j :: 0 <= j < 8 ==> mem[StaticFrames(t)[j]] == ZeroFrame()
      ensures forall f :: 0 <= f < |mem| && f !in StaticFrames(t) ==> mem[f] == old(mem)[f]
    {
      var s := StaticFrames(t);
      for k := 0 to 8
        invariant |mem| == old(|mem|)
        invariant forall j :: 0 <= j < k ==> mem[s[j]] == ZeroFrame()
        invariant forall f :: 0 <= f < |mem| && f !in s ==> mem[f] == old(mem)[f]
      {
        mem := mem[s[k] := ZeroFrame()];
      }
    }

    /** PML4[0]: the identity map of the first 2 MiB (src/mm/paging.c:86-95). */
    method LinkIdentity(t: Statics)
      requires 512 <= |mem| && StaticsDistinct(t)
      requires forall j :: 0 <= j < 8 ==> mem[StaticFrames(t)[j]] == ZeroFrame()
      modifies this`mem
      ensures |mem| == old(|mem|)
      ensures forall i: Index :: mem[t.pml4][i] == if i == 0 then Entry(t.pdptId, RW) else 0
      ensures forall i: Index :: mem[t.pdptId][i] == if i == 0 then Entry(t.pdId, RW) else 0
      ensures forall i: Index :: mem[t.pdId][i] == if i == 0 then Entry(t.ptId0, RW) else if i == 1 then Entry(t.ptId1, RW) else 0
      ensures forall i: Index :: mem[t.ptId0][i] == Entry(i, RW) && mem[t.ptId1][i] == Entry(512 + i, RW)
      ensures forall f :: 0 <= f < |mem| && f !in [t.pml4, t.pdptId, t.pdId, t.ptId0, t.ptId1] ==> mem[f] == old(mem)[f]
    {
      hide Entry;
      StaticFramesAre(t);
      mem := Put(mem, t.pml4, 0, Entry(t.pdptId, RW));
      mem := Put(mem, t.pdptId, 0, Entry(t.pdId, RW));
      mem := Put(mem, t.pdId, 0, Entry(t.ptId0, RW));
      mem := Put(mem, t.pdId, 1, Entry(t.ptId1, RW));
      FillTable(t.ptId0, 0, RW);
      FillTable(t.ptId1, 512, RW);
    }

    /** PML4[511]: the window at HIGHER_HALF_BASE (src/mm/paging.c:97-111). */
    method LinkHigherHalf(t: Statics)
      requires 512 <= |mem| && StaticsDistinct(t)
      requires mem[t.pdptHi] == ZeroFrame() && mem[t.pdHi] == ZeroFrame() && mem[t.ptHi] == ZeroFrame()
      modifies this`mem
      ensures |mem| == old(|mem|)
      ensures forall i: Index :: mem[t.pml4][i] == if i == 511 then Entry(t.pdptHi, RW_USER) else old(mem)[t.pml4][i]
      ensures forall i: Index :: mem[t.pdptHi][i] == if i == 510 then Entry(t.pdHi, RW_USER) else 0
      ensures forall i: Index :: mem[t.pdHi][i] == if i == 0 then Entry(t.ptHi, RW_USER) else 0
      ensures forall i: Index :: mem[t.ptHi][i] == Entry(i, RW_USER)
      ensures forall f :: 0 <= f < |mem| && f !in [t.pml4, t.pdptHi, t.pdHi, t.ptHi] ==> mem[f] == old(mem)[f]
    {
      hide Entry;
      StaticFramesAre(t);
      mem := Put(mem, t.pml4, 511, Entry(t.pdptHi, RW_USER));
      mem := Put(mem, t.pdptHi, 510, Entry(t.pdHi, RW_USER));
      mem := Put(mem, t.pdHi, 0, Entry(t.ptHi, RW_USER));
      FillTable(t.ptHi, 0, RW_USER);
    }

    /** The loops that map consecutive frames through one page table (src/mm/paging.c:92-95, 109-111). */
    method FillTable(f: nat, base: nat, flags: nat)
      requires f < |mem| && base <= 512 && flags < 8
      modifies this`mem
      ensures |mem| == old(|mem|)
      ensures forall i: Index :: mem[f][i] == Entry(base + i, flags)
      ensures forall g :: 0 <= g < |mem| && g != f ==> mem[g] == old(mem)[g]
    {
      for i := 0 to 512
        invariant |mem| == old(|mem|)
        invariant forall j: Index :: j < i ==> mem[f][j] == Entry(base + j, flags)
        invariant forall g :: 0 <= g < |mem| && g != f ==> mem[g] == old(mem)[g]
      {
        mem := Put(mem, f, i, Entry(base + i, flags));
      }
    }

    /** scratch_map: page 511 of the window now shows the frame at `pa`. */
    method ScratchMap(pa: nat) returns (h: Index)
      requires TablesOk(mem, kroot, ptHi, tree) && pa < U64_LIMIT
      modifies this`mem
      ensures TablesOk(mem, kroot, ptHi, tree) && ScratchOnly(ptHi, old(mem), mem)
      ensures h == SCRATCH && Shown(mem, ptHi, h) == pa / FRAME_SIZE
      ensures HiddenThroughout(mem, tree)
    {
      hide Entry;
      ScratchKeepsTables(mem, kroot, ptHi, tree, Entry(pa / FRAME_SIZE, RW));
      mem := Put(mem, ptHi, SCRATCH, Entry(pa / FRAME_SIZE, RW));
      ScratchEntryIsHidden(mem, kroot, ptHi, tree);
      return SCRATCH;
    }

    /** virt_for_phys: the page that shows the frame at `pa`, unless that is frame 511, whose
        page shows whatever frame was mapped there last. */
    method VirtForPhys(pa: nat) returns (h: Index)
      requires TablesOk(mem, kroot, ptHi, tree) && pa < U64_LIMIT
      modifies this`mem
      ensures TablesOk(mem, kroot, ptHi, tree) && ScratchOnly(ptHi, old(mem), mem)
      ensures h == WindowPage(pa / FRAME_SIZE)
      ensures h != SCRATCH ==> mem == old(mem)
      ensures pa >= 512 * FRAME_SIZE ==> HiddenThroughout(mem, tree)
      ensures Shown(mem, ptHi, h) ==
        if pa / FRAME_SIZE == 511 then Shown(old(mem), ptHi, SCRATCH) else pa / FRAME_SIZE
      ensures Shown(mem, ptHi, h) == pa / FRAME_SIZE <==> pa / FRAME_SIZE != 511 || Shown(old(mem), ptHi, SCRATCH) == 511
    {
      if pa < WINDOW_BYTES {
        assert pa / FRAME_SIZE != 511 ==> Shown(mem, ptHi, WindowPage(pa / FRAME_SIZE)) == pa / FRAME_SIZE;
        return pa / FRAME_SIZE;
      }
      h := ScratchMap(pa);
    }

    /** A read, a write and a memset through page h of the window. */
    method Load(h: Index, i: Index) returns (w: Word)
      requires ptHi < |mem| <= NOWHERE && Shown(mem, ptHi, h) < |mem|
      ensures w == mem[Shown(mem, ptHi, h)][i]
    {
      w := mem[Shown(mem, ptHi, h)][i];
    }

    method Store(h: Index, i: Index, w: Word)
      requires ptHi < |mem| <= NOWHERE && Shown(mem, ptHi, h) < |mem|
      modifies this`mem
      ensures mem == Put(old(mem), Shown(old(mem), ptHi, h), i, w)
    {
      mem := Put(mem, Shown(mem, ptHi, h), i, w);
    }

    method Clear(h: Index)
      requires ptHi < |mem| <= NOWHERE && Shown(mem, ptHi, h) < |mem|
      modifies this`mem
      ensures mem == old(mem)[Shown(old(mem), ptHi, h) := ZeroFrame()]
    {
      mem := mem[Shown(mem, ptHi, h) := ZeroFrame()];
    }

    /** memcpy of `src` to the start of page h. */
    method CopyIn(h: Index, src: seq<Byte>)
      requires ptHi < |mem| <= NOWHERE && Shown(mem, ptHi, h) < |mem| && |src| <= FRAME_SIZE
      modifies this`mem
      ensures var f := Shown(old(mem), ptHi, h); mem == old(mem)[f := Overlay(old(mem)[f], src)]
    {
      var f := Shown(mem, ptHi, h);
      mem := mem[f := Overlay(mem[f], src)];
    }

    /** Page h of the window shows the table at node `at`, or, when there is none, a stray frame. */
    ghost predicate Stands(h: Index, at: Option<Node>, stray: set<nat>)
      reads this
    {
      && ptHi < |mem| && Shown(mem, ptHi, h) < |mem| && stray <= lost && StrayIn(mem, stray)
      && match at
         case Some(n) => n in tree && stray == {} && h == WindowPage(tree[n]) && Shown(mem, ptHi, h) == tree[n]
         case None => Shown(mem, ptHi, h) in stray
    }

    /** Since `o`, tables were only added, and the frames o.keep were not written. */
    ghost predicate Grown(o: Origin, stray: set<nat>)
      reads this, pmm
    {
      && Extends(ptHi, o.mem, o.tree, o.keep, mem, tree)
      && o.keep <= pmm.used && o.keep !! tree.Values && o.keep !! stray
      && (forall n :: n in tree && n !in o.tree ==> tree[n] != ptHi)
    }

    /** Entry e names the table at node `at`, or a stray frame. */
    ghost predicate Names(e: Word, at: Option<Node>, stray: set<nat>)
      reads this
    {
      && stray <= lost && StrayIn(mem, stray) && FrameOf(e) < |mem| && FrameOf(e) != 511
      && match at
         case Some(n) => n in tree && tree[n] == FrameOf(e) && stray == {}
         case None => FrameOf(e) in stray
    }

    /** One level of a table walk that creates the missing table: allocate, zero, link, follow.
        With `viaScratch` the new table is zeroed through the scratch page whatever its address
        (paging_map_page); without it, through virt_for_phys (elf_load). */
    method EnsureChild(h: Index, i: Index, flags: nat, viaScratch: bool, ghost at: Option<Node>, ghost stray: set<nat>, ghost o: Origin)
      returns (ok: bool, next: Index, ghost at': Option<Node>, ghost stray': set<nat>)
      requires Valid() && Stands(h, at, stray) && Grown(o, stray) && flags in {RW, RW_USER}
      requires at.Some? ==> Owned(kroot, at.value, i) && !at.value.Pt? && flags == (if UserSide(kroot, Child(at.value, i)) then RW_USER else RW)
      requires MayStep(pmm.totalFrames, i, WalkState(tree, lost, pmm.used, at, stray))
      modifies this, pmm, pmm.bitmap
      ensures Valid() && cr3 == old(cr3) && Grown(o, stray')
      ensures Foreign(tree, lost, pmm.used) == old(Foreign(tree, lost, pmm.used))
      ensures ok ==> Stands(next, at', stray')
      ensures StepTo(pmm.totalFrames, i, viaScratch, old(WalkState(tree, lost, pmm.used, at, stray)),
                     WalkState(tree, lost, pmm.used, at', stray'), ok)
      ensures TookLow(old(pmm.used), pmm.used, 1)
      ensures !ok ==> Exhausted(pmm.used, pmm.totalFrames) && pmm.used == old(pmm.used)
    {
      hide Encodes, TablesOk, Held, Extends, Foreign, StepTo, TookLow, MayStep, Exhausted, Grown, Stands;
      var e;
      next := 0;
      ok, e, at', stray' := OpenChild(h, i, flags, viaScratch, at, stray, o);
      if ok { next := Follow(e, at', stray', o); }
    }

    /** The entry for the next level, made if it is missing. */
    method OpenChild(h: Index, i: Index, flags: nat, viaScratch: bool, ghost at: Option<Node>, ghost stray: set<nat>, ghost o: Origin)
      returns (ok: bool, e: Word, ghost at': Option<Node>, ghost stray': set<nat>)
      requires Valid() && Stands(h, at, stray) && Grown(o, stray) && flags in {RW, RW_USER}
      requires at.Some? ==> Owned(kroot, at.value, i) && !at.value.Pt? && flags == (if UserSide(kroot, Child(at.value, i)) then RW_USER else RW)
      requires MayStep(pmm.totalFrames, i, WalkState(tree, lost, pmm.used, at, stray))
      modifies this, pmm, pmm.bitmap
      ensures Valid() && cr3 == old(cr3) && Grown(o, stray')
      ensures Foreign(tree, lost, pmm.used) == old(Foreign(tree, lost, pmm.used))
      ensures ok ==> Names(e, at', stray')
      ensures StepTo(pmm.totalFrames, i, viaScratch, old(WalkState(tree, lost, pmm.used, at, stray)),
                     WalkState(tree, lost, pmm.used, at', stray'), ok)
      ensures TookLow(old(pmm.used), pmm.used, 1)
      ensures !ok ==> Exhausted(pmm.used, pmm.totalFrames) && pmm.used == old(pmm.used)
    {
      hide Encodes, TablesOk, Held, Extends, Foreign, StrayIn, NextFrame, Shown, TookLow, Avoids511, StepTo, Grown;
      ok, at', stray' := true, at, stray;
      ghost var a := WalkState(tree, lost, pmm.used, at, stray);
      TookNone(pmm.used, 1);
      NoStray(mem);
      if at.Some? { FollowLink(mem, kroot, ptHi, tree, at.value, i); }
      e := Load(h, i);
      if !Present(e) {
        ok, at', stray' := CreateChild(h, i, flags, viaScratch, at, stray, o);
        if !ok {
          at', stray' := at, stray;
          StepFailed(pmm.totalFrames, i, viaScratch, a);
          return;
        }
        NoStray(mem);
        TookNext(a.used, pmm.totalFrames);
        StepMade(pmm.totalFrames, i, viaScratch, a, WalkState(tree, lost, pmm.used, at', stray'), at'.Some?);
        e := Load(h, i);
      } else {
        if at.None? { StrayEntry(mem, stray, Shown(mem, ptHi, h), i); }
        at' := if at.Some? then Some(Child(at.value, i)) else None;
        StepFound(pmm.totalFrames, i, viaScratch, a, at');
      }
    }

    /** The pointer to the table that entry e names. */
    method Follow(e: Word, ghost at: Option<Node>, ghost stray: set<nat>, ghost o: Origin) returns (next: Index)
      requires TablesOk(mem, kroot, ptHi, tree) && Held(tree, lost, pmm.used) && Grown(o, stray) && Names(e, at, stray)
      modifies this`mem
      ensures TablesOk(mem, kroot, ptHi, tree) && Grown(o, stray) && |mem| == old(|mem|)
      ensures Stands(next, at, stray)
    {
      hide TablesOk, Held, Extends, StrayIn, Shown;
      TablesHaveWindow(mem, kroot, ptHi, tree);
      HeldApart(tree, lost, pmm.used);
      next := VirtForPhys(FrameOf(e) * FRAME_SIZE);
      ScratchExtends(ptHi, old(mem), tree, o.keep, mem);
      ScratchKeepsStray(ptHi, old(mem), mem, stray);
      ExtendsTwice(ptHi, o.mem, o.tree, o.keep, old(mem), tree, o.keep, mem, tree);
    }

    /** The entry that page h of the window shows at i links to frame f. */
    ghost predicate LinkTo(h: Index, i: Index, f: nat)
      reads `mem
    {
      && ptHi < |mem| && Shown(mem, ptHi, h) < |mem| && f < |mem| && f != 511
      && FrameOf(mem[Shown(mem, ptHi, h)][i]) == f && Present(mem[Shown(mem, ptHi, h)][i])
    }

    /** Where the link to a new table f went. */
    ghost predicate Created(h: Index, i: Index, f: nat, viaScratch: bool, at: Option<Node>, stray: set<nat>,
                            tree0: Tree, lost0: set<nat>, at': Option<Node>, stray': set<nat>)
      reads this
    {
      if at.Some? && !at.value.Leaf? && (h != SCRATCH || (!viaScratch && f < 512)) then
        at' == Some(Child(at.value, i)) && stray' == stray && tree == tree0[at'.value := f] && lost == lost0
      else
        at' == None && stray' == stray + {f} && tree == tree0 && lost == lost0 + {f} && StrayIn(mem, stray')
    }

    /** The missing table of one level.  The new table is linked into node `at` unless the
        parent is itself reached through the scratch page and zeroing the new table took the
        scratch page away: then the link is written into the new table instead. */
    method CreateChild(h: Index, i: Index, flags: nat, viaScratch: bool, ghost at: Option<Node>, ghost stray: set<nat>, ghost o: Origin)
      returns (ok: bool, ghost at': Option<Node>, ghost stray': set<nat>)
      requires Valid() && Stands(h, at, stray) && Grown(o, stray) && flags in {RW, RW_USER}
      requires !Present(mem[Shown(mem, ptHi, h)][i])
      requires at.Some? ==> Owned(kroot, at.value, i) && !at.value.Pt? && flags == (if UserSide(kroot, Child(at.value, i)) then RW_USER else RW)
      requires Avoids511(pmm.used, pmm.totalFrames, 1)
      modifies this, pmm, pmm.bitmap
      ensures Valid() && cr3 == old(cr3)
      ensures Foreign(tree, lost, pmm.used) == old(Foreign(tree, lost, pmm.used))
      ensures var f := NextFrame(old(pmm.used), pmm.totalFrames);
        if f == pmm.totalFrames then
          !ok && pmm.used == old(pmm.used) && tree == old(tree) && lost == old(lost) && mem == old(mem)
        else
          ok && pmm.used == old(pmm.used) + {f} && LinkTo(h, i, f)
      ensures ok ==> Created(h, i, NextFrame(old(pmm.used), pmm.totalFrames), viaScratch, at, stray, old(tree), old(lost), at', stray')
      ensures Grown(o, if ok then stray' else stray)
    {
      hide Encodes, TablesOk, Held, Extends, Entry, Foreign, StrayIn, NextFrame, Avoids511;
      ok, at', stray' := false, at, stray;
      ghost var keep := o.keep;
      ghost var f := NextFrame(pmm.used, pmm.totalFrames);
      hide WithNewTable, Put;
      ghost var mapped, parent;
      ok, mapped, parent := StoreNewTable(h, i, flags, viaScratch);
      if !ok { return; }
      if at.Some? && (h != SCRATCH || (!viaScratch && f < 512)) {
        ghost var n := at.value;
        NewTableLinked(kroot, ptHi, old(mem), mapped, tree, lost, old(pmm.used), keep, n, i, f, flags);
        assert LinkTo(h, i, f);
        tree := tree[Child(n, i) := f];
        at' := Some(Child(n, i));
        LinkValues(old(tree), Child(n, i), f);
        ExtendsTwice(ptHi, o.mem, o.tree, o.keep, old(mem), old(tree), keep, mem, tree);
      } else {
        NewTableStray(kroot, ptHi, old(mem), mapped, tree, lost, old(pmm.used), keep, stray, parent, i, f, flags);
        assert LinkTo(h, i, f);
        lost := lost + {f};
        at', stray' := None, stray + {f};
        ExtendsTwice(ptHi, o.mem, o.tree, o.keep, old(mem), tree, keep, mem, tree);
      }
      hide LinkTo, Shown;
    }

    /** A zeroed table, and the link to it through page h, wherever that page leads by then. */
    method StoreNewTable(h: Index, i: Index, flags: nat, viaScratch: bool) returns (ok: bool, ghost mapped: Memory, ghost parent: nat)
      requires Valid() && Avoids511(pmm.used, pmm.totalFrames, 1) && flags in {RW, RW_USER}
      requires Shown(mem, ptHi, h) < |mem|
      modifies this`mem, pmm, pmm.bitmap
      ensures pmm.Valid() && TablesOk(mapped, kroot, ptHi, tree) && ScratchOnly(ptHi, old(mem), mapped)
      ensures var f := NextFrame(old(pmm.used), pmm.totalFrames);
        if f == pmm.totalFrames then !ok && pmm.used == old(pmm.used) && mem == old(mem)
        else
          && ok && 0 < f < |mapped| && f != 511 && f !in old(pmm.used) && f != ptHi && pmm.used == old(pmm.used) + {f}
          && parent == (if h == SCRATCH && (viaScratch || f >= 512) then f else Shown(old(mem), ptHi, h))
          && parent < |mapped| && parent == Shown(mapped, ptHi, h)
          && mem == WithNewTable(mapped, f, parent, i, flags) && |mem| == |mapped| && mem[parent][i] == Entry(f, flags)
    {
      hide Encodes, TablesOk, Held, Entry, NextFrame, Avoids511;
      ghost var f := NextFrame(pmm.used, pmm.totalFrames);
      var pa;
      pa, mapped := AllocZeroed(viaScratch);
      parent := 0;
      ok := pa != 0;
      if !ok { return; }
      parent := Shown(mem, ptHi, h);
      assert parent == Shown(mapped, ptHi, h);
      Store(h, i, Entry(pa / FRAME_SIZE, flags));
    }

    /** Take a frame for a table and zero it; `mapped` is the memory just before it was zeroed. */
    method AllocZeroed(viaScratch: bool) returns (pa: nat, ghost mapped: Memory)
      requires Valid() && Avoids511(pmm.used, pmm.totalFrames, 1)
      modifies this`mem, pmm, pmm.bitmap
      ensures pmm.Valid() && TablesOk(mapped, kroot, ptHi, tree) && ScratchOnly(ptHi, old(mem), mapped)
      ensures var f := NextFrame(old(pmm.used), pmm.totalFrames);
        if f == pmm.totalFrames then pa == 0 && pmm.used == old(pmm.used) && mem == old(mem)
        else
          && pa == f * FRAME_SIZE && 0 < f < |mapped| && f != 511 && f !in old(pmm.used) && f != ptHi
          && pmm.used == old(pmm.used) + {f}
          && mem == mapped[f := ZeroFrame()]
          && (forall h: Index :: Shown(mapped, ptHi, h) ==
                if h == SCRATCH && (viaScratch || f >= 512) then f else Shown(old(mem), ptHi, h))
    {
      hide Encodes, Held, TablesOk, Avoids511, NextFrame;
      ghost var f := NextFrame(pmm.used, pmm.totalFrames);
      mapped := mem;
      pa := pmm.AllocFrame();
      TablesHaveWindow(mem, kroot, ptHi, tree);
      if pa == 0 { return; }
      NextIsNot511(old(pmm.used), pmm.totalFrames);
      FreshFrame(mem, kroot, ptHi, tree, lost, old(pmm.used), f);
      var z;
      if viaScratch { z := ScratchMap(pa); } else { z := VirtForPhys(pa); }
      mapped := mem;
      Clear(z);
    }

    /** The walk of paging_map_page: to the page table of the slot, making what is missing. */
    method EnsurePath(s: Slot, flags: nat, ghost o: Origin)
      returns (ok: bool, h: Index, ghost at: Option<Node>, ghost stray: set<nat>)
      requires Valid() && flags == (if s.pi == 511 then RW_USER else RW) && Grown(o, {})
      requires Avoids511(pmm.used, pmm.totalFrames, Missing(tree, kroot, s))
      modifies this, pmm, pmm.bitmap
      ensures TookLow(old(pmm.used), pmm.used, old(Missing(tree, kroot, s)))
      ensures !ok ==> old(Missing(tree, kroot, s)) > 0 && TookLow(old(pmm.used), pmm.used, old(Missing(tree, kroot, s)) - 1)
      ensures WithoutRoot(tree, kroot) == old(WithoutRoot(tree, kroot))
      ensures Valid() && cr3 == old(cr3) && Grown(o, stray)
      ensures Foreign(tree, lost, pmm.used) == old(Foreign(tree, lost, pmm.used))
      ensures ok ==> Stands(h, at, stray)
      ensures ok ==> at == if old(MapReaches(tree, kroot, pmm.used, pmm.totalFrames, s)) then Some(PtOf(kroot, s)) else None
      ensures ok && at.None? ==> PtOf(kroot, s) !in tree
      ensures !ok ==> Exhausted(pmm.used, pmm.totalFrames)
      ensures !ok && old(Pd(kroot, s.pi, s.pdi) in tree) ==>
        tree == old(tree) && lost == old(lost) && pmm.used == old(pmm.used)
      ensures ok && at.Some? ==> lost == old(lost)
      ensures old(lost) <= lost
    {
      hide Encodes, TablesOk, Held, Extends, Foreign, StrayIn, Shown, NextFrame, Grown, WindowPage, StepTo, TookLow, MapReaches;
      RootShown(mem, kroot, ptHi, tree);
      TreePathClosed(mem, kroot, ptHi, tree, kroot, s);
      assert Stands(kroot, Some(Pml4(kroot)), {});
      hide Valid, Stands;
      ghost var a := WalkState(tree, lost, pmm.used, Some(Pml4(kroot)), {});
      FirstStepMay(pmm.totalFrames, kroot, s, a);
      ghost var m := Missing(tree, kroot, s);
      ok, h, at, stray := EnsureChild(kroot, s.pi, flags, true, Some(Pml4(kroot)), {}, o);
      ghost var b := WalkState(tree, lost, pmm.used, at, stray);
      StepAt(pmm.totalFrames, s.pi, true, a, b, ok);
      StepElsewhere(pmm.totalFrames, s.pi, true, kroot, a, b, ok);
      if !ok {
        MissingTable(pmm.totalFrames, s.pi, true, a, b);
        FirstMissing(a.tree, kroot, s);
        TookNone(a.used, 2);
        TookFewer(a.used, b.used, 2, 3);
        return;
      }
      SecondStepMay(pmm.totalFrames, true, kroot, s, a, b);
      ok, h, at, stray := EnsureChild(h, s.pdi, flags, true, at, stray, o);
      ghost var c := WalkState(tree, lost, pmm.used, at, stray);
      StepAt(pmm.totalFrames, s.pdi, true, b, c, ok);
      StepElsewhere(pmm.totalFrames, s.pdi, true, kroot, b, c, ok);
      if !ok {
        SecondTableMissing(pmm.totalFrames, kroot, s, a, b, c);
        SecondMissing(a.tree, kroot, s);
        TookFewer(a.used, c.used, FirstLevel(m), m - 1);
        TookFewer(a.used, c.used, FirstLevel(m), m);
        return;
      }
      ThirdStepMay(pmm.totalFrames, true, kroot, s, a, b, c);
      ok, h, at, stray := EnsureChild(h, s.pdi2, flags, true, at, stray, o);
      ghost var d := WalkState(tree, lost, pmm.used, at, stray);
      StepAt(pmm.totalFrames, s.pdi2, true, c, d, ok);
      StepElsewhere(pmm.totalFrames, s.pdi2, true, kroot, c, d, ok);
      WalkTakes(pmm.totalFrames, true, kroot, s, a, c, d, ok);
      if !ok && Pd(kroot, s.pi, s.pdi) in a.tree { KernelWalkFails(pmm.totalFrames, kroot, s, a, b, c, d); }
      if ok { KernelWalkEnds(pmm.totalFrames, kroot, s, a, b, c, d); }
    }

    /** paging_map_page.  A result of 0 means the page is mapped exactly when the walk reached the
        page table; otherwise the entry went into a frame that no root reaches. */
    method MapPage(virt: nat, phys: nat, flags: nat) returns (rc: int)
      requires Valid() && virt < U64_LIMIT && phys < U64_LIMIT && flags < FRAME_SIZE
      requires Avoids511(pmm.used, pmm.totalFrames, Missing(tree, kroot, SlotOf(virt)))
      modifies this, pmm, pmm.bitmap
      ensures rc == 0 || rc == -1
      ensures TookLow(old(pmm.used), pmm.used, old(Missing(tree, kroot, SlotOf(virt))))
      ensures rc == -1 ==>
        old(Missing(tree, kroot, SlotOf(virt))) > 0 && TookLow(old(pmm.used), pmm.used, old(Missing(tree, kroot, SlotOf(virt))) - 1)
      ensures WithoutRoot(tree, kroot) == old(WithoutRoot(tree, kroot))
      ensures cr3 == old(cr3) && pmm.Valid()
      ensures KeepsWindow(SlotOf(virt), Entry(phys / FRAME_SIZE, flags)) || rc == -1 ==> Valid()
      ensures Mapped(old(mem), old(tree), old(pmm.used), SlotOf(virt), Entry(phys / FRAME_SIZE, flags), rc)
      ensures SameRoots(old(tree), tree) && FramesKept(old(mem), mem, old(pmm.used) - old(tree).Values)
      ensures OwnedKept(old(mem), mem, old(tree))
      ensures TreeGrows(old(tree), tree)
      ensures rc == -1 ==> Exhausted(pmm.used, pmm.totalFrames)
      ensures rc == -1 && old(Pd(kroot, SlotOf(virt).pi, SlotOf(virt).pdi) in tree) ==>
        tree == old(tree) && lost == old(lost) && pmm.used == old(pmm.used)
      ensures KernelEntryKept(old(mem), mem, kroot)
      ensures Foreign(tree, lost, pmm.used) == old(Foreign(tree, lost, pmm.used))
      ensures rc == 0 && old(MapReaches(tree, kroot, pmm.used, pmm.totalFrames, SlotOf(virt))) ==> lost == old(lost)
    {
      hide Encodes, TablesOk, Held, Extends, Foreign, StrayIn, NextFrame, Exhausted, MapReaches, Avoids511, TookLow, Missing, WithoutRoot;
      var s := SlotOf(virt);
      ghost var o := Origin(mem, tree, pmm.used - tree.Values);
      NothingExtends(kroot, ptHi, mem, tree, o.keep);
      var ok, h;
      ghost var at, stray;
      ok, h, at, stray := EnsurePath(s, if s.pi == 511 then RW_USER else RW, o);
      ExtendsKeeps(o.mem, mem, kroot, ptHi, o.tree, tree, o.keep);
      if !ok { return -1; }
      ghost var walked := mem;
      Store(h, s.pti, Entry(phys / FRAME_SIZE, flags));
      if at.Some? {
        assert tree[at.value] in tree.Values;
        WriteKeepsFrames(o.mem, walked, o.keep, tree[at.value], s.pti, Entry(phys / FRAME_SIZE, flags));
        KernelLeafWritten(walked, kroot, ptHi, tree, s, Entry(phys / FRAME_SIZE, flags));
        ShapedTables(walked, kroot, ptHi, tree);
        OwnedWritten(o.mem, walked, kroot, ptHi, o.tree, tree, tree[at.value], s.pti, Entry(phys / FRAME_SIZE, flags));
        KeptThenSet(o.mem, walked, mem, kroot, o.tree, tree, kroot, s, Entry(phys / FRAME_SIZE, flags));
      } else {
        StrayWrite(o, walked, kroot, ptHi, tree, lost, pmm.used, stray, Shown(walked, ptHi, h), s.pti, Entry(phys / FRAME_SIZE, flags));
        ExtendsKeeps(o.mem, mem, kroot, ptHi, o.tree, tree, o.keep);
        UnreachedLeaf(mem, kroot, ptHi, tree, s);
      }
      return 0;
    }

    ghost predicate Mapped(mem0: Memory, tree0: Tree, used0: set<nat>, s: Slot, w: Word, rc: int)
      reads this
    {
      if rc == 0 && MapReaches(tree0, kroot, used0, pmm.totalFrames, s)
      then LeafSet(mem0, mem, kroot, tree0, kroot, s, w)
      else LeavesKept(mem0, mem, tree0) && (rc == 0 ==> LeafEntry(mem, kroot, s) == 0)
    }

    /** The next table of a read-only walk: the entry is read before the window is remapped. */
    method NextTable(h: Index, i: Index, ghost f: nat, ghost c: Node) returns (found: bool, next: Index)
      requires TablesOk(mem, kroot, ptHi, tree) && ptHi < |mem| && Shown(mem, ptHi, h) == f && f < |mem|
      requires EntryLinks(kroot, mem[f][i], tree, c)
      requires forall n :: n in tree ==> tree[n] < |mem| && tree[n] != 511
      modifies this`mem
      ensures TablesOk(mem, kroot, ptHi, tree) && ScratchOnly(ptHi, old(mem), mem)
      ensures found <==> c in tree
      ensures found ==> Shown(mem, ptHi, next) == tree[c]
    {
      hide TablesOk, Shown;
      DirectPage(mem, kroot, ptHi, tree, 0);
      var e := Load(h, i);
      if !Present(e) { return false, h; }
      next := VirtForPhys(FrameOf(e) * FRAME_SIZE);
      return true, next;
    }

    /** The read-only walk from `root` to the page table of a slot. */
    method FindTable(root: nat, s: Slot) returns (found: bool, h: Index)
      requires TablesOk(mem, kroot, ptHi, tree) && Pml4(root) in tree && root * FRAME_SIZE < U64_LIMIT
      modifies this`mem
      ensures TablesOk(mem, kroot, ptHi, tree) && ScratchOnly(ptHi, old(mem), mem)
      ensures found <==> PtOf(HomeRoot(kroot, root, s), s) in tree
      ensures found ==> Shown(mem, ptHi, h) == tree[PtOf(HomeRoot(kroot, root, s), s)]
    {
      hide TablesOk, LeafEntry, EntryLinks, Shown;
      ghost var home := HomeRoot(kroot, root, s);
      WalkLinks(mem, kroot, ptHi, tree, root, s);
      h := VirtForPhys(root * FRAME_SIZE);
      WalkLinks(mem, kroot, ptHi, tree, root, s);
      found, h := NextTable(h, s.pi, root, Pdpt(home, s.pi));
      if !found { return; }
      WalkLinks(mem, kroot, ptHi, tree, root, s);
      found, h := NextTable(h, s.pdi, tree[Pdpt(home, s.pi)], Pd(home, s.pi, s.pdi));
      if !found { return; }
      WalkLinks(mem, kroot, ptHi, tree, root, s);
      found, h := NextTable(h, s.pdi2, tree[Pd(home, s.pi, s.pdi)], PtOf(home, s));
    }

    /** paging_unmap_page: afterwards the page has no entry, and no other page changed. */
    method UnmapPage(virt: nat)
      requires Valid() && virt < U64_LIMIT
      modifies this`mem
      ensures KeepsWindow(SlotOf(virt), 0) ==> Valid()
      ensures LeafSet(old(mem), mem, kroot, tree, kroot, SlotOf(virt), 0)
      ensures FramesKept(old(mem), mem, pmm.used - tree.Values) && OwnedKept(old(mem), mem, tree)
      ensures KernelEntryKept(old(mem), mem, kroot)
    {
      hide Encodes, TablesOk, Held, LeafEntry;
      var s := SlotOf(virt);
      RootShown(mem, kroot, ptHi, tree);
      var found, h := FindTable(kroot, s);
      ScratchKeepsLeaves(old(mem), mem, kroot, ptHi, tree);
      TablesHaveWindow(mem, kroot, ptHi, tree);
      ScratchExtends(ptHi, old(mem), tree, {}, mem);
      OwnedExtends(old(mem), mem, kroot, ptHi, tree, tree, {});
      if !found {
        MissingIsUnset(old(mem), mem, kroot, ptHi, tree, s);
        return;
      }
      ghost var walked := mem;
      Store(h, s.pti, 0);
      KernelLeafWritten(walked, kroot, ptHi, tree, s, 0);
      ShapedTables(walked, kroot, ptHi, tree);
      OwnedWritten(old(mem), walked, kroot, ptHi, tree, tree, tree[PtOf(kroot, s)], s.pti, 0);
      KeptThenSet(old(mem), walked, mem, kroot, tree, tree, kroot, s, 0);
    }

    /** paging_virt_to_phys_cr3: the translation through `root`, or 0. */
    method VirtToPhys(root: nat, virt: nat) returns (pa: nat)
      requires Valid() && Pml4(root) in tree && virt < U64_LIMIT && SlotOf(virt) != SCRATCH_SLOT
      modifies this`mem
      ensures Valid() && LeavesKept(old(mem), mem, tree) && ScratchOnly(ptHi, old(mem), mem)
      ensures pa == match Translate(old(mem), root, virt) case None => 0 case Some(a) => a
    {
      hide Encodes, TablesOk, Held, LeafEntry;
      var s := SlotOf(virt);
      WalkLinks(mem, kroot, ptHi, tree, root, s);
      var found, h := FindTable(root, s);
      ScratchKeepsLeaves(old(mem), mem, kroot, ptHi, tree);
      WalkLinks(mem, kroot, ptHi, tree, root, s);
      if !found { return 0; }
      var e := Load(h, s.pti);
      if !Present(e) { return 0; }
      return FrameOf(e) * FRAME_SIZE + virt % FRAME_SIZE;
    }

    /** One page of user_mem_check's second pass: the leaf entry, or 0 when a table is missing. */
    method LeafOf(root: nat, s: Slot) returns (e: Word)
      requires Valid() && Pml4(root) in tree && s != SCRATCH_SLOT
      modifies this`mem
      ensures Valid() && LeavesKept(old(mem), mem, tree) && ScratchOnly(ptHi, old(mem), mem)
      ensures e == LeafEntry(old(mem), root, s)
    {
      hide Encodes, TablesOk, Held, LeafEntry;
      WalkLinks(mem, kroot, ptHi, tree, root, s);
      var found, h := FindTable(root, s);
      ScratchKeepsLeaves(old(mem), mem, kroot, ptHi, tree);
      WalkLinks(mem, kroot, ptHi, tree, root, s);
      if !found { return 0; }
      e := Load(h, s.pti);
    }

    lemma ScratchSelf()
      requires Valid()
      ensures ScratchOnly(ptHi, mem, mem)
    {
      hide Valid, TablesOk, Held;
      Parts();
      TablesHaveWindow(mem, kroot, ptHi, tree);
    }

    /** user_mem_check against the loaded address space. */
    method UserMemCheck(addr: nat, len: nat, writable: bool) returns (ok: bool)
      requires Valid() && Pml4(cr3) in tree && addr < U64_LIMIT && len < U64_LIMIT
      modifies this`mem
      ensures Valid() && LeavesKept(old(mem), mem, tree) && ScratchOnly(ptHi, old(mem), mem)
      ensures ok <==> BufferAccessible(old(mem), cr3, addr, len, writable)
    {
      hide Valid, LeavesKept, AllBacked, AllPermitted, ScratchOnly;
      KeptSelf(mem, tree);
      ScratchSelf();
      if addr >= USER_ADDR_LIMIT { return false; }
      if len == 0 { return true; }
      if (addr + len) % U64_LIMIT < addr { return false; }
      if addr + len > USER_ADDR_LIMIT { return false; }
      ghost var mem0 := mem;
      TwoPasses(mem0, cr3, addr, len, writable);
      ok := MappedPass(addr, len);
      if !ok { return; }
      ok := FlagsPass(addr, len, writable, mem0);
    }

    method MappedPass(addr: nat, len: nat) returns (ok: bool)
      requires Valid() && Pml4(cr3) in tree && len > 0 && addr + len <= USER_ADDR_LIMIT
      modifies this`mem
      ensures Valid() && LeavesKept(old(mem), mem, tree) && ScratchOnly(ptHi, old(mem), mem)
      ensures ok <==> AllBacked(old(mem), cr3, addr, addr + len)
    {
      hide Valid, LeavesKept, AllBacked, LeafEntry, SlotOf, Present, ScratchOnly;
      KeptSelf(mem, tree);
      ScratchSelf();
      NoBytes(mem, cr3, addr, addr / FRAME_SIZE * FRAME_SIZE, false);
      var va := addr / FRAME_SIZE * FRAME_SIZE;
      while va < addr + len
        invariant Valid() && LeavesKept(old(mem), mem, tree) && ScratchOnly(ptHi, old(mem), mem)
        invariant va % FRAME_SIZE == 0 && addr / FRAME_SIZE * FRAME_SIZE <= va
        invariant AllBacked(old(mem), cr3, addr, Min(va, addr + len))
      {
        ghost var before := mem;
        BackedPage(old(mem), cr3, addr, len, va);
        KeptAt(old(mem), mem, tree, cr3, SlotOf(va));
        var pa := VirtToPhys(cr3, va);
        KeptTwice(old(mem), before, mem, tree, tree);
        ScratchOnlyTwice(ptHi, old(mem), before, mem);
        if pa == 0 { return false; }
        va := va + FRAME_SIZE;
      }
      return true;
    }

    method FlagsPass(addr: nat, len: nat, writable: bool, ghost mem0: Memory) returns (ok: bool)
      requires Valid() && Pml4(cr3) in tree && len > 0 && addr + len <= USER_ADDR_LIMIT
      requires LeavesKept(mem0, mem, tree) && ScratchOnly(ptHi, mem0, mem)
      modifies this`mem
      ensures Valid() && LeavesKept(mem0, mem, tree) && ScratchOnly(ptHi, mem0, mem)
      ensures ok <==> AllPermitted(mem0, cr3, addr, addr + len, writable)
    {
      hide Valid, LeavesKept, AllPermitted, LeafEntry, SlotOf, Present, Writable, User, ScratchOnly;
      NoBytes(mem0, cr3, addr, addr / FRAME_SIZE * FRAME_SIZE, writable);
      var va := addr / FRAME_SIZE * FRAME_SIZE;
      while va < addr + len
        invariant Valid() && LeavesKept(mem0, mem, tree) && ScratchOnly(ptHi, mem0, mem)
        invariant va % FRAME_SIZE == 0 && addr / FRAME_SIZE * FRAME_SIZE <= va
        invariant AllPermitted(mem0, cr3, addr, Min(va, addr + len), writable)
      {
        ghost var before := mem;
        PermittedPage(mem0, cr3, addr, len, writable, va);
        KeptAt(mem0, mem, tree, cr3, SlotOf(va));
        var e := LeafOf(cr3, SlotOf(va));
        KeptTwice(mem0, before, mem, tree, tree);
        ScratchOnlyTwice(ptHi, mem0, before, mem);
        if !Present(e) { return false; }
        if writable && !Writable(e) { return false; }
        if !User(e) { return false; }
        va := va + FRAME_SIZE;
      }
      return true;
    }

    /** mov to CR3: the loaded address space changes. */
    method LoadCr3(root: nat)
      requires Valid() && Pml4(root) in tree
      modifies this`cr3
      ensures Valid() && cr3 == root
    {
      hide Encodes, TablesOk, Held;
      cr3 := root;
    }

    /** paging_create_user_space: a new root that shares the kernel's entry 511.  The entry is
        copied through two window pages; when both roots need the scratch page the second mapping
        replaces the first, and the new root is left without a kernel half. */
    method CreateUserSpace() returns (pa: nat)
      requires Valid() && Pml4(cr3) in tree && Avoids511(pmm.used, pmm.totalFrames, 1)
      modifies this, pmm, pmm.bitmap
      ensures Valid() && cr3 == old(cr3) && TookLow(old(pmm.used), pmm.used, 1)
      ensures Foreign(tree, lost, pmm.used) == old(Foreign(tree, lost, pmm.used))
      ensures LeavesKept(old(mem), mem, old(tree))
      ensures |mem| == |old(mem)|
      ensures forall g :: 0 <= g < |mem| && g != ptHi && g != NextFrame(old(pmm.used), pmm.totalFrames) ==> mem[g] == old(mem)[g]
      ensures KernelEntryKept(old(mem), mem, kroot)
      ensures var f := NextFrame(old(pmm.used), pmm.totalFrames);
        if f == pmm.totalFrames then
          pa == 0 && pmm.used == old(pmm.used) && tree == old(tree) && lost == old(lost)
        else
          && pa == f * FRAME_SIZE && pmm.used == old(pmm.used) + {f} && f < |mem|
          && if f < 511 || cr3 < 511
             then tree == old(tree)[Pml4(f) := f] && Pml4(f) !in old(tree) && lost == old(lost)
             else tree == old(tree) && lost == old(lost) + {f} && mem[f] == ZeroFrame()
    {
      hide Encodes, TablesOk, Held, LeafEntry, LeavesKept, Foreign, NextFrame, Avoids511, TookLow;
      KeptSelf(mem, tree);
      RootFrame(mem, kroot, ptHi, tree, cr3);
      TookNone(pmm.used, 1);
      pa := pmm.AllocFrame();
      if pa == 0 { return 0; }
      TookNext(old(pmm.used), pmm.totalFrames);
      NextIsNot511(old(pmm.used), pmm.totalFrames);
      ghost var f := pa / FRAME_SIZE;
      ghost var copied := CopyKernelEntry(pa, old(pmm.used));
      if f < 511 || cr3 < 511 {
        CopiedRoot(old(mem), copied, kroot, ptHi, tree, lost, old(pmm.used), f);
        tree := tree[Pml4(f) := f];
      } else {
        HeldLose(tree, lost, old(pmm.used), f);
        lost := lost + {f};
      }
    }

    /** Zero the new root and copy the kernel's entry 511 through the two window pages
        (src/mm/paging.c:220-231); `copied` is the memory just before the copy. */
    method CopyKernelEntry(pa: nat, ghost used0: set<nat>) returns (ghost copied: Memory)
      requires TablesOk(mem, kroot, ptHi, tree) && Held(tree, lost, used0) && Pml4(cr3) in tree
      requires pa < U64_LIMIT && pa % FRAME_SIZE == 0 && |mem| <= 0x10_0000_0000
      requires 0 < pa / FRAME_SIZE < |mem| && pa / FRAME_SIZE != 511 && pa / FRAME_SIZE !in used0
      modifies this`mem
      ensures TablesOk(copied, kroot, ptHi, tree) && LeavesKept(old(mem), copied, tree)
      ensures var f := pa / FRAME_SIZE;
        && |copied| == |old(mem)| && copied[f] == ZeroFrame() && f !in tree.Values && f != kroot
        && kroot < |copied| && copied[kroot] == old(mem)[kroot]
        && (forall g :: 0 <= g < |copied| && g != f && g != ptHi ==> copied[g] == old(mem)[g])
        && mem == (if f < 511 || cr3 < 511 then Put(copied, f, 511, copied[kroot][511]) else copied)
    {
      hide TablesOk, Held, LeavesKept;
      ghost var f := pa / FRAME_SIZE;
      FreshFrame(mem, kroot, ptHi, tree, lost, used0, f);
      TablesHaveWindow(mem, kroot, ptHi, tree);
      RootFrame(mem, kroot, ptHi, tree, cr3);
      var user := VirtForPhys(pa);
      ghost var mapped := mem;
      OutsideKeepsTables(mapped, kroot, ptHi, tree, f, ZeroFrame());
      Clear(user);
      var kernel := VirtForPhys(cr3 * FRAME_SIZE);
      copied := mem;
      ZeroedRoot(old(mem), mapped, copied, kroot, ptHi, tree, lost, used0, f);
      RootFrame(mem, kroot, ptHi, tree, cr3);
      var e := Load(kernel, 511);
      Store(user, 511, e);
      if f >= 511 && cr3 >= 511 { PutSame(copied, cr3, 511); }
    }

    /** The innermost loop of paging_free_user_space: the pages of one page table, which may be
        reached through the scratch page because nothing below it remaps the window. */
    method FreePages(h: Index, ghost n: Node)
      requires pmm.Valid() && TablesOk(mem, kroot, ptHi, tree) && ptHi < |mem|
      requires n in tree && n.Pt? && n.root != kroot && tree[n] < |mem| && Shown(mem, ptHi, h) == tree[n]
      modifies pmm, pmm.bitmap
      ensures pmm.Valid() && pmm.used == old(pmm.used) - Below(tree, n, 512)
    {
      hide Encodes, TablesOk, Below, Whole, Shown;
      WholeIsAll(tree, n);
      for i := 0 to 512
        invariant pmm.Valid() && pmm.used == old(pmm.used) - Below(tree, n, i)
      {
        BelowNext(tree, n, i);
        FreePage(h, i, n);
      }
    }

    /** One round of the innermost loop. */
    method FreePage(h: Index, i: Index, ghost n: Node)
      requires pmm.Valid() && TablesOk(mem, kroot, ptHi, tree) && ptHi < |mem|
      requires n in tree && n.Pt? && n.root != kroot && tree[n] < |mem| && Shown(mem, ptHi, h) == tree[n]
      modifies pmm, pmm.bitmap
      ensures pmm.Valid() && pmm.used == old(pmm.used) - Whole(tree, Child(n, i))
    {
      hide Encodes, TablesOk, Below, Whole, Shown, Present;
      DirectPage(mem, kroot, ptHi, tree, 0);
      FreeRound(mem, kroot, ptHi, tree, n, i);
      var e := Load(h, i);
      if Present(e) {
        LeafWhole(tree, Child(n, i));
        pmm.FreeFrame(FrameOf(e) * FRAME_SIZE);
      }
    }

    /** The table itself that entry i of page h names, its entry read once more. */
    method FreeTable(h: Index, i: Index, ghost n: Node)
      requires pmm.Valid() && TablesOk(mem, kroot, ptHi, tree) && h < 511
      requires n in tree && Owned(kroot, n, i) && Child(n, i) in tree && h == tree[n]
      modifies pmm, pmm.bitmap
      ensures pmm.Valid() && pmm.used == old(pmm.used) - {tree[Child(n, i)]}
    {
      hide FrameAllocator.Valid, TablesOk, Below, Whole, Present, Shown;
      DirectPage(mem, kroot, ptHi, tree, h);
      FreeRound(mem, kroot, ptHi, tree, n, i);
      var e := Load(h, i);
      pmm.FreeFrame(FrameOf(e) * FRAME_SIZE);
    }

    /** One page table: its pages, then itself. */
    method FreePageTable(h: Index, i: Index, ghost n: Node)
      requires pmm.Valid() && TablesOk(mem, kroot, ptHi, tree)
      requires n in tree && n.Pd? && n.root != kroot && tree[n] < 511 && h == tree[n]
      modifies this`mem, pmm, pmm.bitmap
      ensures TablesOk(mem, kroot, ptHi, tree) && ScratchOnly(ptHi, old(mem), mem)
      ensures pmm.Valid() && pmm.used == old(pmm.used) - Whole(tree, Child(n, i))
    {
      hide FrameAllocator.Valid, TablesOk, Below, Whole, Present, Shown;
      DirectPage(mem, kroot, ptHi, tree, h);
      FreeRound(mem, kroot, ptHi, tree, n, i);
      var e := Load(h, i);
      if !Present(e) { return; }
      var below := VirtForPhys(FrameOf(e) * FRAME_SIZE);
      FreePages(below, Child(n, i));
      FreeTable(h, i, n);
    }

    /** The page tables of one page directory. */
    method FreePageTables(h: Index, ghost n: Node)
      requires pmm.Valid() && TablesOk(mem, kroot, ptHi, tree)
      requires n in tree && n.Pd? && n.root != kroot && tree[n] < 511 && h == tree[n]
      modifies this`mem, pmm, pmm.bitmap
      ensures TablesOk(mem, kroot, ptHi, tree) && ScratchOnly(ptHi, old(mem), mem)
      ensures pmm.Valid() && pmm.used == old(pmm.used) - Below(tree, n, 512)
    {
      hide Encodes, TablesOk, Below, Whole;
      TablesHaveWindow(mem, kroot, ptHi, tree);
      WholeIsAll(tree, n);
      for i := 0 to 512
        invariant pmm.Valid() && pmm.used == old(pmm.used) - Below(tree, n, i)
        invariant TablesOk(mem, kroot, ptHi, tree) && ScratchOnly(ptHi, old(mem), mem)
      {
        BelowNext(tree, n, i);
        FreePageTable(h, i, n);
      }
    }

    /** One page directory: what is below it, then itself. */
    method FreeDirectory(h: Index, i: Index, ghost n: Node)
      requires pmm.Valid() && TablesOk(mem, kroot, ptHi, tree)
      requires n in tree && n.Pdpt? && n.root != kroot && tree[n] < 511 && h == tree[n]
      requires UpperTablesDirect(tree, n.root)
      modifies this`mem, pmm, pmm.bitmap
      ensures TablesOk(mem, kroot, ptHi, tree) && ScratchOnly(ptHi, old(mem), mem)
      ensures pmm.Valid() && pmm.used == old(pmm.used) - Whole(tree, Child(n, i))
    {
      hide FrameAllocator.Valid, TablesOk, Below, Whole, Present, Shown;
      DirectPage(mem, kroot, ptHi, tree, h);
      FreeRound(mem, kroot, ptHi, tree, n, i);
      var e := Load(h, i);
      if !Present(e) { return; }
      var below := VirtForPhys(FrameOf(e) * FRAME_SIZE);
      FreePageTables(below, Child(n, i));
      FreeTable(h, i, n);
    }

    /** The page directories of one page-directory-pointer table. */
    method FreeDirectories(h: Index, ghost n: Node)
      requires pmm.Valid() && TablesOk(mem, kroot, ptHi, tree)
      requires n in tree && n.Pdpt? && n.root != kroot && tree[n] < 511 && h == tree[n]
      requires UpperTablesDirect(tree, n.root)
      modifies this`mem, pmm, pmm.bitmap
      ensures TablesOk(mem, kroot, ptHi, tree) && ScratchOnly(ptHi, old(mem), mem)
      ensures pmm.Valid() && pmm.used == old(pmm.used) - Below(tree, n, 512)
    {
      hide Encodes, TablesOk, Below, Whole;
      TablesHaveWindow(mem, kroot, ptHi, tree);
      WholeIsAll(tree, n);
      for i := 0 to 512
        invariant pmm.Valid() && pmm.used == old(pmm.used) - Below(tree, n, i)
        invariant TablesOk(mem, kroot, ptHi, tree) && ScratchOnly(ptHi, old(mem), mem)
      {
        BelowNext(tree, n, i);
        FreeDirectory(h, i, n);
      }
    }

    /** One page-directory-pointer table: what is below it, then itself. */
    method FreeLowerEntry(h: Index, i: Index, ghost n: Node)
      requires i != 511 && pmm.Valid() && TablesOk(mem, kroot, ptHi, tree)
      requires n in tree && n.Pml4? && n.root != kroot && tree[n] < 511 && h == tree[n]
      requires UpperTablesDirect(tree, n.root)
      modifies this`mem, pmm, pmm.bitmap
      ensures TablesOk(mem, kroot, ptHi, tree) && ScratchOnly(ptHi, old(mem), mem)
      ensures pmm.Valid() && pmm.used == old(pmm.used) - Whole(tree, Child(n, i))
    {
      hide FrameAllocator.Valid, TablesOk, Below, Whole, Present, Shown;
      DirectPage(mem, kroot, ptHi, tree, h);
      FreeRound(mem, kroot, ptHi, tree, n, i);
      var e := Load(h, i);
      if !Present(e) { return; }
      var below := VirtForPhys(FrameOf(e) * FRAME_SIZE);
      FreeDirectories(below, Child(n, i));
      FreeTable(h, i, n);
    }

    /** The page-directory-pointer tables of a user root: entry 511 is the kernel's and stays. */
    method FreeLowerEntries(h: Index, ghost n: Node)
      requires pmm.Valid() && TablesOk(mem, kroot, ptHi, tree)
      requires n in tree && n.Pml4? && n.root != kroot && tree[n] < 511 && h == tree[n]
      requires UpperTablesDirect(tree, n.root)
      modifies this`mem, pmm, pmm.bitmap
      ensures TablesOk(mem, kroot, ptHi, tree) && ScratchOnly(ptHi, old(mem), mem)
      ensures pmm.Valid() && pmm.used == old(pmm.used) - Below(tree, n, 512)
    {
      hide Encodes, TablesOk, Below, Whole;
      TablesHaveWindow(mem, kroot, ptHi, tree);
      WholeIsAll(tree, n);
      for i := 0 to 511
        invariant pmm.Valid() && pmm.used == old(pmm.used) - Below(tree, n, i)
        invariant TablesOk(mem, kroot, ptHi, tree) && ScratchOnly(ptHi, old(mem), mem)
      {
        BelowNext(tree, n, i);
        FreeLowerEntry(h, i, n);
      }
      BorrowedEntryIsEmpty(mem, kroot, ptHi, tree, n.root);
    }

    /** paging_free_user_space: exactly the frames of one address space become free. */
    method FreeUserSpace(pa: nat)
      requires Valid() && pa < U64_LIMIT && pa % FRAME_SIZE == 0
      requires Pml4(pa / FRAME_SIZE) in tree && pa / FRAME_SIZE != kroot
      requires UpperTablesDirect(tree, pa / FRAME_SIZE)
      modifies this, pmm, pmm.bitmap
      ensures Valid() && cr3 == old(cr3) && lost == old(lost)
      ensures tree == WithoutRoot(old(tree), pa / FRAME_SIZE)
      ensures pmm.used == old(pmm.used) - Whole(old(tree), Pml4(pa / FRAME_SIZE)) && 511 !in Whole(old(tree), Pml4(pa / FRAME_SIZE))
      ensures KernelEntryKept(old(mem), mem, kroot)
      ensures Foreign(tree, lost, pmm.used) == old(Foreign(tree, lost, pmm.used))
      ensures ScratchOnly(ptHi, old(mem), mem) && LeavesKept(old(mem), mem, tree)
    {
      hide Encodes, TablesOk, Whole, Held, LeavesKept, Foreign;
      ghost var root := pa / FRAME_SIZE;
      FreeFramesOf(pa);
      TablesHaveWindow(mem, kroot, ptHi, tree);
      RootFrame(mem, kroot, ptHi, tree, kroot);
      ScratchKeepsLeaves(old(mem), mem, kroot, ptHi, tree);
      RootRemoved(mem, kroot, ptHi, tree, lost, old(pmm.used), root);
      tree := WithoutRoot(tree, root);
      FewerRoots(old(mem), mem, old(tree), root);
    }

    method FreeFramesOf(pa: nat)
      requires pmm.Valid() && TablesOk(mem, kroot, ptHi, tree) && pa < U64_LIMIT && pa % FRAME_SIZE == 0
      requires Pml4(pa / FRAME_SIZE) in tree && pa / FRAME_SIZE != kroot
      requires UpperTablesDirect(tree, pa / FRAME_SIZE)
      modifies this`mem, pmm, pmm.bitmap
      ensures TablesOk(mem, kroot, ptHi, tree) && ScratchOnly(ptHi, old(mem), mem)
      ensures pmm.Valid() && pmm.used == old(pmm.used) - Whole(tree, Pml4(pa / FRAME_SIZE))
    {
      hide Encodes, TablesOk, Below, Whole;
      ghost var root := pa / FRAME_SIZE;
      RootFrame(mem, kroot, ptHi, tree, root);
      WholeIsAll(tree, Pml4(root));
      RootIsOwnFrame(mem, kroot, ptHi, tree, root);
      var h := VirtForPhys(pa);
      FreeLowerEntries(h, Pml4(root));
      pmm.FreeFrame(pa);
    }

    /** The walk of elf_load to the page table of a user slot (src/fs/elf.c:153-181). */
    method EnsureUserPath(root: nat, s: Slot, ghost o: Origin)
      returns (ok: bool, h: Index, ghost at: Option<Node>, ghost stray: set<nat>)
      requires Valid() && Grown(o, {}) && Pml4(root) in tree && root != kroot && s.pi != 511
      requires Avoids511(pmm.used, pmm.totalFrames, Missing(tree, root, s))
      modifies this, pmm, pmm.bitmap
      ensures Valid() && cr3 == old(cr3) && Grown(o, stray)
      ensures Foreign(tree, lost, pmm.used) == old(Foreign(tree, lost, pmm.used))
      ensures ok ==> Stands(h, at, stray)
      ensures ok ==> at == if old(UserReaches(tree, root, pmm.used, pmm.totalFrames, s)) then Some(PtOf(root, s)) else None
      ensures ok && at.Some? ==> tree == old(WalkTree(tree, root, pmm.used, pmm.totalFrames, s))
      ensures ok && at.Some? ==> pmm.used == old(WalkUsed(tree, root, pmm.used, pmm.totalFrames, s))
      ensures old(lost) <= lost && (ok && at.Some? ==> lost == old(lost))
      ensures UpperTablesDirect(tree, root) ==> lost == old(lost) && (ok ==> at.Some?)
      ensures WithoutRoot(tree, root) == old(WithoutRoot(tree, root))
      ensures TookLow(old(pmm.used), pmm.used, 3)
      ensures !ok ==> Exhausted(pmm.used, pmm.totalFrames)
    {
      hide Encodes, TablesOk, Held, Extends, Foreign, Shown, NextFrame, Exhausted, Grown, TookLow, Stands, UpperTablesDirect, UserReaches, WithoutRoot,
           Avoids511, Missing, WalkTree, WalkUsed;
      RootIsOwnFrame(mem, kroot, ptHi, tree, root);
      h := EnterRoot(root, o);
      ok, h, at, stray := UserWalk(h, root, s, o);
    }

    method UserWalk(root0: Index, root: nat, s: Slot, ghost o: Origin)
      returns (ok: bool, h: Index, ghost at: Option<Node>, ghost stray: set<nat>)
      requires Valid() && Grown(o, {}) && root != kroot && s.pi != 511 && Stands(root0, Some(Pml4(root)), {})
      requires Pml4(root) in tree && tree[Pml4(root)] == root
      requires Avoids511(pmm.used, pmm.totalFrames, Missing(tree, root, s))
      modifies this, pmm, pmm.bitmap
      ensures Valid() && cr3 == old(cr3) && Grown(o, stray)
      ensures Foreign(tree, lost, pmm.used) == old(Foreign(tree, lost, pmm.used))
      ensures ok ==> Stands(h, at, stray)
      ensures ok ==> at == if old(UserReaches(tree, root, pmm.used, pmm.totalFrames, s)) then Some(PtOf(root, s)) else None
      ensures ok && at.Some? ==> tree == old(WalkTree(tree, root, pmm.used, pmm.totalFrames, s))
      ensures ok && at.Some? ==> pmm.used == old(WalkUsed(tree, root, pmm.used, pmm.totalFrames, s))
      ensures old(lost) <= lost && (ok && at.Some? ==> lost == old(lost))
      ensures UpperTablesDirect(tree, root) ==> lost == old(lost) && (ok ==> at.Some?)
      ensures WithoutRoot(tree, root) == old(WithoutRoot(tree, root))
      ensures TookLow(old(pmm.used), pmm.used, 3)
      ensures !ok ==> Exhausted(pmm.used, pmm.totalFrames)
    {
      hide Encodes, TablesOk, Held, Extends, Foreign, StrayIn, Shown, NextFrame, Exhausted, Grown, WindowPage, TookLow, Stands,
           StepTo, UserReaches, UpperTablesDirect, WithoutRoot, Avoids511, MayStep, Missing, WalkTree, WalkUsed;
      TreePathClosed(mem, kroot, ptHi, tree, root, s);
      hide Valid;
      ghost var a := WalkState(tree, lost, pmm.used, Some(Pml4(root)), {});
      FirstStepMay(pmm.totalFrames, root, s, a);
      ok, h, at, stray := EnsureChild(root0, s.pi, RW_USER, false, Some(Pml4(root)), {}, o);
      ghost var b := WalkState(tree, lost, pmm.used, at, stray);
      StepAt(pmm.totalFrames, s.pi, false, a, b, ok);
      StepNotAstray(pmm.totalFrames, s.pi, root, a.lost, a, b, ok);
      StepElsewhere(pmm.totalFrames, s.pi, false, root, a, b, ok);
      TookFewer(a.used, b.used, 1, 3);
      if !ok { return; }
      SecondStepMay(pmm.totalFrames, false, root, s, a, b);
      ok, h, at, stray := EnsureChild(h, s.pdi, RW_USER, false, at, stray, o);
      ghost var c := WalkState(tree, lost, pmm.used, at, stray);
      StepAt(pmm.totalFrames, s.pdi, false, b, c, ok);
      StepNotAstray(pmm.totalFrames, s.pdi, root, a.lost, b, c, ok);
      StepElsewhere(pmm.totalFrames, s.pdi, false, root, b, c, ok);
      TookTwice(a.used, b.used, c.used, 1, 1);
      TookFewer(a.used, c.used, 2, 3);
      if !ok { return; }
      ThirdStepMay(pmm.totalFrames, false, root, s, a, b, c);
      ok, h, at, stray := EnsureChild(h, s.pdi2, RW_USER, false, at, stray, o);
      ghost var d := WalkState(tree, lost, pmm.used, at, stray);
      StepAt(pmm.totalFrames, s.pdi2, false, c, d, ok);
      StepNotAstray(pmm.totalFrames, s.pdi2, root, a.lost, c, d, ok);
      StepElsewhere(pmm.totalFrames, s.pdi2, false, root, c, d, ok);
      TookTwice(a.used, c.used, d.used, 2, 1);
      if ok { UserWalkEnds(pmm.totalFrames, root, s, a, b, c, d); }
    }

    method EnterRoot(root: nat, ghost o: Origin) returns (h: Index)
      requires Valid() && Grown(o, {}) && Pml4(root) in tree
      modifies this`mem
      ensures Valid() && Grown(o, {}) && Stands(h, Some(Pml4(root)), {})
    {
      hide Encodes, Held, TablesOk, Extends, Shown;
      RootFrame(mem, kroot, ptHi, tree, root);
      RootIsOwnFrame(mem, kroot, ptHi, tree, root);
      TablesHaveWindow(mem, kroot, ptHi, tree);
      HeldApart(tree, lost, pmm.used);
      h := VirtForPhys(root * FRAME_SIZE);
      NoStray(mem);
      ScratchExtends(ptHi, old(mem), tree, o.keep, mem);
      ExtendsTwice(ptHi, o.mem, o.tree, o.keep, old(mem), tree, o.keep, mem, tree);
    }
  }
}
