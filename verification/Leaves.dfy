/** What the elementary table changes mean for address translation. */
module Leaves {
  import opened Wrappers
  import opened Pmm
  import opened PageTables
  import opened Window

  /** What becomes of the leaf entry of a page that nobody maps anew: it stays, or it is the scratch
      page's and now lets no user code through. */
  predicate EntryKept(s: Slot, e: Word, e': Word) {
    if s == SCRATCH_SLOT then KeptOrHidden(e, e') else e' == e
  }

  /** Every page of every address space, the scratch page apart, has the leaf entry it had. */
  ghost predicate LeavesKept(mem: Memory, mem': Memory, tree: Tree) {
    forall r, s {:trigger LeafEntry(mem', r, s)} :: Pml4(r) in tree ==>
      EntryKept(s, LeafEntry(mem, r, s), LeafEntry(mem', r, s))
  }

  /** The page at `slot` of root `home` has leaf entry w, through every root that shares it, and
      every other page, the scratch page apart, has the leaf entry it had. */
  ghost predicate LeafSet(mem: Memory, mem': Memory, kroot: nat, tree: Tree, home: nat, slot: Slot, w: Word) {
    forall r, s {:trigger LeafEntry(mem', r, s)} :: Pml4(r) in tree ==>
      if s == slot && HomeRoot(kroot, r, s) == home then LeafEntry(mem', r, s) == w
      else EntryKept(s, LeafEntry(mem, r, s), LeafEntry(mem', r, s))
  }

  lemma ExtendsKeepsLeaves(mem: Memory, mem': Memory, kroot: nat, ptHi: nat, tree: Tree, tree': Tree, keep: set<nat>)
    requires TablesOk(mem, kroot, ptHi, tree) && TablesOk(mem', kroot, ptHi, tree')
    requires Extends(ptHi, mem, tree, keep, mem', tree')
    ensures LeavesKept(mem, mem', tree)
  {
    hide EntryLinks, LeafEntry;
    forall r, s | Pml4(r) in tree
      ensures EntryKept(s, LeafEntry(mem, r, s), LeafEntry(mem', r, s))
    {
      WalkFollowsTree(mem, kroot, tree, r, s);
      WalkFollowsTree(mem', kroot, tree', r, s);
      var p := PtOf(HomeRoot(kroot, r, s), s);
      if p in tree {
        if tree[p] == ptHi { assert p == Pt(kroot, 511, 510, 0); }
        assert s != SCRATCH_SLOT ==> mem'[tree[p]][s.pti] == mem[tree[p]][s.pti];
      }
    }
  }

  lemma KeptTwice(m0: Memory, m1: Memory, m2: Memory, t0: Tree, t1: Tree)
    requires LeavesKept(m0, m1, t0) && LeavesKept(m1, m2, t1)
    requires forall r :: Pml4(r) in t0 ==> Pml4(r) in t1
    ensures LeavesKept(m0, m2, t0)
  {
    hide LeafEntry;
    forall r, s | Pml4(r) in t0
      ensures EntryKept(s, LeafEntry(m0, r, s), LeafEntry(m2, r, s))
    {
      assert EntryKept(s, LeafEntry(m0, r, s), LeafEntry(m1, r, s));
    }
  }

  lemma KeptThenSet(m0: Memory, m1: Memory, m2: Memory, kroot: nat, t0: Tree, t1: Tree, home: nat, slot: Slot, w: Word)
    requires LeavesKept(m0, m1, t0) && LeafSet(m1, m2, kroot, t1, home, slot, w)
    requires forall r :: Pml4(r) in t0 ==> Pml4(r) in t1
    ensures LeafSet(m0, m2, kroot, t0, home, slot, w)
  {
    hide LeafEntry;
    forall r, s | Pml4(r) in t0
      ensures if s == slot && HomeRoot(kroot, r, s) == home then LeafEntry(m2, r, s) == w
              else EntryKept(s, LeafEntry(m0, r, s), LeafEntry(m2, r, s))
    {
      assert EntryKept(s, LeafEntry(m0, r, s), LeafEntry(m1, r, s));
    }
  }

  /** The window still shows frame i at page i, to loads and to stores, after entry i of its page
      table becomes w. */
  predicate KeepsWindow(slot: Slot, w: Word) {
    slot.pi == 511 && slot.pdi == 510 && slot.pdi2 == 0 && slot.pti != SCRATCH ==>
      FrameOf(w) == slot.pti && Present(w) && Writable(w)
  }

  /** Writing the leaf entry of a kernel page sets exactly that page. */
  lemma KernelLeafWritten(mem: Memory, kroot: nat, ptHi: nat, tree: Tree, slot: Slot, w: Word)
    requires TablesOk(mem, kroot, ptHi, tree) && PtOf(kroot, slot) in tree
    ensures tree[PtOf(kroot, slot)] < |mem|
    ensures var mem' := Put(mem, tree[PtOf(kroot, slot)], slot.pti, w);
            && LeafSet(mem, mem', kroot, tree, kroot, slot, w)
            && mem'[kroot] == mem[kroot]
            && Shaped(kroot, tree) && Linked(mem', kroot, tree)
            && (KeepsWindow(slot, w) ==> TablesOk(mem', kroot, ptHi, tree))
  {
    hide EntryLinks, LeafEntry;
    var p := PtOf(kroot, slot);
    var mem' := Put(mem, tree[p], slot.pti, w);
    forall n, i: Index | n in tree && Owned(kroot, n, i) ensures mem'[tree[n]][i] == mem[tree[n]][i] {
      assert tree[n] == tree[p] ==> n == p;
    }
    forall n | n in tree && n != p ensures tree[n] != tree[p] {
    }
    LinkedFrame(mem, mem', kroot, tree);
    forall r, s | Pml4(r) in tree
      ensures if s == slot && HomeRoot(kroot, r, s) == kroot then LeafEntry(mem', r, s) == w
              else EntryKept(s, LeafEntry(mem, r, s), LeafEntry(mem', r, s))
    {
      WalkFollowsTree(mem, kroot, tree, r, s);
      WalkFollowsTree(mem', kroot, tree, r, s);
    }
    if KeepsWindow(slot, w) {
      forall i: Index | i != SCRATCH ensures Shown(mem', ptHi, i) == i {
        assert Shown(mem, ptHi, i) == i;
      }
    }
  }

  /** Remapping the scratch page changes no translation but its own. */
  lemma ScratchKeepsLeaves(mem: Memory, mem': Memory, kroot: nat, ptHi: nat, tree: Tree)
    requires TablesOk(mem, kroot, ptHi, tree) && TablesOk(mem', kroot, ptHi, tree)
    requires ScratchOnly(ptHi, mem, mem')
    ensures LeavesKept(mem, mem', tree)
  {
    hide TablesOk, LeavesKept;
    TablesHaveWindow(mem, kroot, ptHi, tree);
    ScratchExtends(ptHi, mem, tree, {}, mem');
    ExtendsKeepsLeaves(mem, mem', kroot, ptHi, tree, tree, {});
  }

  /** What the walk reads at its three table links. */
  lemma WalkLinks(mem: Memory, kroot: nat, ptHi: nat, tree: Tree, root: nat, s: Slot)
    requires TablesOk(mem, kroot, ptHi, tree) && Pml4(root) in tree
    ensures root < |mem| && root != 511
    ensures var home := HomeRoot(kroot, root, s);
            && EntryLinks(kroot, mem[root][s.pi], tree, Pdpt(home, s.pi))
            && (forall n :: n in tree ==> tree[n] < |mem| && tree[n] != 511)
            && (Pdpt(home, s.pi) in tree ==> EntryLinks(kroot, mem[tree[Pdpt(home, s.pi)]][s.pdi], tree, Pd(home, s.pi, s.pdi)))
            && (Pd(home, s.pi, s.pdi) in tree ==> EntryLinks(kroot, mem[tree[Pd(home, s.pi, s.pdi)]][s.pdi2], tree, PtOf(home, s)))
            && (PtOf(home, s) in tree ==> Pd(home, s.pi, s.pdi) in tree)
            && (Pd(home, s.pi, s.pdi) in tree ==> Pdpt(home, s.pi) in tree)
            && (PtOf(home, s) in tree ==> LeafEntry(mem, root, s) == mem[tree[PtOf(home, s)]][s.pti])
            && (PtOf(home, s) !in tree ==> LeafEntry(mem, root, s) == 0)
  {
    hide EntryLinks, LeafEntry;
    var home := HomeRoot(kroot, root, s);
    FirstLink(mem, kroot, tree, root, s);
    PathClosed(kroot, tree, home, s);
    WalkFollowsTree(mem, kroot, tree, root, s);
    if Pdpt(home, s.pi) in tree {
      assert Child(Pdpt(home, s.pi), s.pdi) == Pd(home, s.pi, s.pdi);
    }
    if Pd(home, s.pi, s.pdi) in tree {
      assert Child(Pd(home, s.pi, s.pdi), s.pdi2) == PtOf(home, s);
    }
  }

  /** Where there is no page table, the page already has no entry. */
  lemma MissingIsUnset(mem: Memory, mem': Memory, kroot: nat, ptHi: nat, tree: Tree, slot: Slot)
    requires TablesOk(mem, kroot, ptHi, tree) && TablesOk(mem', kroot, ptHi, tree)
    requires LeavesKept(mem, mem', tree) && PtOf(kroot, slot) !in tree
    ensures LeafSet(mem, mem', kroot, tree, kroot, slot, 0)
  {
    hide LeafEntry;
    forall r, s | Pml4(r) in tree
      ensures if s == slot && HomeRoot(kroot, r, s) == kroot then LeafEntry(mem', r, s) == 0
              else EntryKept(s, LeafEntry(mem, r, s), LeafEntry(mem', r, s))
    {
      WalkLinks(mem', kroot, ptHi, tree, r, s);
      assert Pt(kroot, 511, 510, 0) in tree;
    }
  }

  const USER_ADDR_LIMIT := 0x0000_8000_0000_0000

  /** What user_mem_check demands of the leaf entry behind a byte. */
  predicate ByteAccessible(e: Word, writable: bool) {
    Present(e) && User(e) && (writable ==> Writable(e)) && FrameOf(e) != 0
  }

  /** The buffer lies below the user limit and every byte of it is accessible from `root`. */
  ghost predicate BufferAccessible(mem: Memory, root: nat, addr: nat, len: nat, writable: bool) {
    && addr < USER_ADDR_LIMIT
    && (len > 0 ==>
          && addr + len <= USER_ADDR_LIMIT
          && forall b {:trigger SlotOf(b)} :: addr <= b < addr + len ==> ByteAccessible(LeafEntry(mem, root, SlotOf(b)), writable))
  }

  lemma SlotOfPage(b: nat)
    ensures SlotOf(b) == SlotOf(b / FRAME_SIZE * FRAME_SIZE)
  {
    var p := b / FRAME_SIZE;
    SlotFromPage(b, p);
    SlotFromPage(p * FRAME_SIZE, p);
  }

  lemma SlotFromPage(b: nat, p: nat)
    requires p == b / FRAME_SIZE
    ensures SlotOf(b) == Slot(p / 0x800_0000 % 512, p / 0x4_0000 % 512, p / 0x200 % 512, p % 512)
  {
    assert b / 0x1000 == p;
    assert b / 0x20_0000 == p / 0x200;
    assert b / 0x4000_0000 == p / 0x4_0000;
    assert b / 0x80_0000_0000 == p / 0x800_0000;
  }

  /** The entry checks of the second pass of user_mem_check. */
  predicate Permits(e: Word, writable: bool) {
    Present(e) && (writable ==> Writable(e)) && User(e)
  }

  /** What the processor demands of all four entries on the way to a page that user code accesses. */
  predicate UserMay(mem: Memory, root: nat, s: Slot, writable: bool) {
    var e4 := Cell(mem, root, s.pi);
    var e3 := Cell(mem, FrameOf(e4), s.pdi);
    var e2 := Cell(mem, FrameOf(e3), s.pdi2);
    Permits(e4, writable) && Permits(e3, writable) && Permits(e2, writable) && Permits(LeafEntry(mem, root, s), writable)
  }

  /** The leaf entry alone decides, except in the kernel's own address space, whose lower half lets
      no user code through. */
  lemma UserMayExactly(mem: Memory, kroot: nat, ptHi: nat, tree: Tree, root: nat, s: Slot, writable: bool)
    requires TablesOk(mem, kroot, ptHi, tree) && Pml4(root) in tree
    ensures UserMay(mem, root, s, writable) <==>
            (root != kroot || s.pi == 511) && Permits(LeafEntry(mem, root, s), writable)
  {
    hide TablesOk, LeafEntry, Present, Writable, User, Huge;
    NullPermitsNothing();
    WalkLinks(mem, kroot, ptHi, tree, root, s);
  }

  lemma NullPermitsNothing()
    ensures !Present(0) && !User(0)
  {
  }

  /** Through every root the scratch page is there for the kernel, to read and to write, and closed to
      user code. */
  ghost predicate HiddenThroughout(mem: Memory, tree: Tree) {
    forall r {:trigger LeafEntry(mem, r, SCRATCH_SLOT)} :: Pml4(r) in tree ==>
      var e := LeafEntry(mem, r, SCRATCH_SLOT);
      && Present(e) && Writable(e) && !User(e)
      && !UserMay(mem, r, SCRATCH_SLOT, false) && !UserMay(mem, r, SCRATCH_SLOT, true)
  }

  lemma ScratchEntry(mem: Memory, kroot: nat, ptHi: nat, tree: Tree, r: nat)
    requires TablesOk(mem, kroot, ptHi, tree) && Pml4(r) in tree
    ensures ptHi < |mem| && LeafEntry(mem, r, SCRATCH_SLOT) == mem[ptHi][SCRATCH]
  {
    hide LeafEntry, EntryLinks;
    WalkLinks(mem, kroot, ptHi, tree, r, SCRATCH_SLOT);
    assert PtOf(kroot, SCRATCH_SLOT) == Pt(kroot, 511, 510, 0);
  }

  lemma ScratchEntryIsHidden(mem: Memory, kroot: nat, ptHi: nat, tree: Tree)
    requires TablesOk(mem, kroot, ptHi, tree) && ptHi < |mem|
    requires var e := mem[ptHi][SCRATCH]; Present(e) && Writable(e) && !User(e)
    ensures HiddenThroughout(mem, tree)
  {
    hide LeafEntry, TablesOk;
    forall r | Pml4(r) in tree ensures LeafEntry(mem, r, SCRATCH_SLOT) == mem[ptHi][SCRATCH] {
      ScratchEntry(mem, kroot, ptHi, tree, r);
    }
  }

  /** The scratch page's entry through root r is as it was, or closed to user code. */
  predicate ScratchStays(mem: Memory, mem': Memory, r: nat) {
    KeptOrHidden(LeafEntry(mem, r, SCRATCH_SLOT), LeafEntry(mem', r, SCRATCH_SLOT))
  }

  lemma KeptScratch(mem: Memory, mem': Memory, tree: Tree, r: nat)
    requires LeavesKept(mem, mem', tree) && Pml4(r) in tree
    ensures ScratchStays(mem, mem', r)
  {
    hide LeafEntry;
    assert EntryKept(SCRATCH_SLOT, LeafEntry(mem, r, SCRATCH_SLOT), LeafEntry(mem', r, SCRATCH_SLOT));
  }

  lemma SetScratch(mem: Memory, mem': Memory, kroot: nat, tree: Tree, home: nat, slot: Slot, w: Word, r: nat)
    requires LeafSet(mem, mem', kroot, tree, home, slot, w) && Pml4(r) in tree
    requires slot != SCRATCH_SLOT || !User(w)
    ensures ScratchStays(mem, mem', r)
  {
    hide LeafEntry;
    assert LeafEntry(mem', r, SCRATCH_SLOT) == LeafEntry(mem', r, SCRATCH_SLOT);
  }

  /** Once closed to user code the scratch page stays closed. */
  lemma StaysHidden(mem: Memory, mem': Memory, r: nat)
    requires ScratchStays(mem, mem', r) && !User(LeafEntry(mem, r, SCRATCH_SLOT))
    ensures !User(LeafEntry(mem', r, SCRATCH_SLOT))
    ensures !UserMay(mem', r, SCRATCH_SLOT, false) && !UserMay(mem', r, SCRATCH_SLOT, true)
  {
    hide LeafEntry, User;
  }

  /** What user_mem_check accepts user code can access if and only if the loaded address space is
      not the kernel's own; and it accepts everything user code can access but frame 0. */
  lemma CheckAgainstProcessor(mem: Memory, kroot: nat, ptHi: nat, tree: Tree, root: nat, addr: nat, len: nat, writable: bool)
    requires TablesOk(mem, kroot, ptHi, tree) && Pml4(root) in tree && len > 0 && addr + len <= USER_ADDR_LIMIT
    ensures BufferAccessible(mem, root, addr, len, writable) ==>
            ((forall b {:trigger SlotOf(b)} :: addr <= b < addr + len ==> UserMay(mem, root, SlotOf(b), writable)) <==> root != kroot)
    ensures (forall b {:trigger SlotOf(b)} :: addr <= b < addr + len ==>
               UserMay(mem, root, SlotOf(b), writable) && FrameOf(LeafEntry(mem, root, SlotOf(b))) != 0) ==>
            BufferAccessible(mem, root, addr, len, writable)
  {
    hide TablesOk, LeafEntry, SlotOf, UserMay;
    forall b {:trigger SlotOf(b)} | addr <= b < addr + len
      ensures UserMay(mem, root, SlotOf(b), writable) <==> root != kroot && Permits(LeafEntry(mem, root, SlotOf(b)), writable)
    {
      UserMayExactly(mem, kroot, ptHi, tree, root, SlotOf(b), writable);
      UserSlot(b);
    }
    var first := SlotOf(addr);
  }

  /** Every byte from addr up to hi has a non-zero translation. */
  ghost predicate AllBacked(mem: Memory, root: nat, addr: nat, hi: nat) {
    forall b {:trigger SlotOf(b)} :: addr <= b < hi ==>
      Present(LeafEntry(mem, root, SlotOf(b))) && FrameOf(LeafEntry(mem, root, SlotOf(b))) != 0
  }

  /** Every byte from addr up to hi has an entry that permits the access. */
  ghost predicate AllPermitted(mem: Memory, root: nat, addr: nat, hi: nat, writable: bool) {
    forall b {:trigger SlotOf(b)} :: addr <= b < hi ==> Permits(LeafEntry(mem, root, SlotOf(b)), writable)
  }

  lemma BackedPage(mem: Memory, root: nat, addr: nat, len: nat, va: nat)
    requires len > 0 && addr + len <= USER_ADDR_LIMIT
    requires va % FRAME_SIZE == 0 && addr / FRAME_SIZE * FRAME_SIZE <= va < addr + len
    requires AllBacked(mem, root, addr, Min(va, addr + len))
    ensures SlotOf(va) != SCRATCH_SLOT
    ensures var e := LeafEntry(mem, root, SlotOf(va));
            if Present(e) && FrameOf(e) != 0 then AllBacked(mem, root, addr, Min(va + FRAME_SIZE, addr + len))
            else !AllBacked(mem, root, addr, addr + len)
  {
    hide LeafEntry;
    PageOfBuffer(addr, len, va);
  }

  lemma PermittedPage(mem: Memory, root: nat, addr: nat, len: nat, writable: bool, va: nat)
    requires len > 0 && addr + len <= USER_ADDR_LIMIT
    requires va % FRAME_SIZE == 0 && addr / FRAME_SIZE * FRAME_SIZE <= va < addr + len
    requires AllPermitted(mem, root, addr, Min(va, addr + len), writable)
    ensures SlotOf(va) != SCRATCH_SLOT
    ensures var e := LeafEntry(mem, root, SlotOf(va));
            if Permits(e, writable) then AllPermitted(mem, root, addr, Min(va + FRAME_SIZE, addr + len), writable)
            else !AllPermitted(mem, root, addr, addr + len, writable)
  {
    hide LeafEntry;
    PageOfBuffer(addr, len, va);
  }

  /** The two passes together demand exactly an accessible buffer. */
  lemma TwoPasses(mem: Memory, root: nat, addr: nat, len: nat, writable: bool)
    requires len > 0 && addr + len <= USER_ADDR_LIMIT
    ensures BufferAccessible(mem, root, addr, len, writable) <==>
            AllBacked(mem, root, addr, addr + len) && AllPermitted(mem, root, addr, addr + len, writable)
  {
    hide LeafEntry;
  }

  /** All bytes of a buffer in one page share the page's leaf entry, and some byte is there. */
  lemma PageOfBuffer(addr: nat, len: nat, va: nat)
    requires len > 0 && addr + len <= USER_ADDR_LIMIT
    requires va % FRAME_SIZE == 0 && addr / FRAME_SIZE * FRAME_SIZE <= va < addr + len
    ensures SlotOf(va) != SCRATCH_SLOT && va % FRAME_SIZE == 0
    ensures forall b {:trigger SlotOf(b)} :: addr <= b < addr + len && va <= b < va + FRAME_SIZE ==> SlotOf(b) == SlotOf(va)
    ensures exists b {:trigger SlotOf(b)} :: addr <= b < addr + len && va <= b < va + FRAME_SIZE && SlotOf(b) == SlotOf(va)
  {
    forall b {:trigger SlotOf(b)} | va <= b < va + FRAME_SIZE ensures SlotOf(b) == SlotOf(va) {
      assert b / FRAME_SIZE * FRAME_SIZE == va;
      SlotOfPage(b);
    }
    UserSlot(va);
    var b := if va < addr then addr else va;
    assert SlotOf(b) == SlotOf(va);
  }

  lemma NoBytes(mem: Memory, root: nat, addr: nat, hi: nat, writable: bool)
    requires hi <= addr
    ensures AllBacked(mem, root, addr, hi) && AllPermitted(mem, root, addr, hi, writable)
  {
  }

  lemma KeptSelf(mem: Memory, tree: Tree)
    ensures LeavesKept(mem, mem, tree)
  {
  }

  lemma KeptAt(mem: Memory, mem': Memory, tree: Tree, root: nat, s: Slot)
    requires LeavesKept(mem, mem', tree) && Pml4(root) in tree && s != SCRATCH_SLOT
    ensures LeafEntry(mem', root, s) == LeafEntry(mem, root, s)
  {
  }

  lemma UserSlot(b: nat)
    requires b < USER_ADDR_LIMIT
    ensures SlotOf(b).pi < 256 && SlotOf(b) != SCRATCH_SLOT
  {
  }

  /** The user limit is where the lower half of the top-level table ends. */
  lemma LimitIsLowerHalf(b: nat)
    requires b < 0x1_0000_0000_0000
    ensures b < USER_ADDR_LIMIT <==> SlotOf(b).pi < 256
  {
  }

  /** In user memory the slot determines the page. */
  lemma SlotDeterminesPage(u: nat, v: nat)
    requires u < USER_ADDR_LIMIT && v < USER_ADDR_LIMIT && u % FRAME_SIZE == 0 && v % FRAME_SIZE == 0
    requires SlotOf(u) == SlotOf(v)
    ensures u == v
  {
    SlotDigits(u);
    SlotDigits(v);
  }

  lemma SlotDigits(u: nat)
    requires u < USER_ADDR_LIMIT && u % FRAME_SIZE == 0
    ensures var s := SlotOf(u);
            u == s.pi * 0x80_0000_0000 + s.pdi * 0x4000_0000 + s.pdi2 * 0x20_0000 + s.pti * 0x1000
  {
    var p := u / FRAME_SIZE;
    SlotFromPage(u, p);
    assert p / 0x800_0000 < 512;
    SplitDigit(p, 0x200, 1);
    SplitDigit(p, 0x200, 2);
  }

  lemma SplitDigit(p: nat, base: nat, level: nat)
    requires base == 0x200 && level in {1, 2}
    ensures level == 1 ==> p == p / 0x200 * 0x200 + p % 0x200
    ensures level == 2 ==> p / 0x200 == p / 0x4_0000 * 0x200 + p / 0x200 % 0x200
    ensures level == 2 ==> p / 0x4_0000 == p / 0x800_0000 * 0x200 + p / 0x4_0000 % 0x200
  {
  }
}
