/** Four-level page tables in physical memory, and the ghost tree that says which frame plays
    which part in which address space.  Nothing here changes state: the module defines what a
    table walk reads and what it means for the tables to form a tree. */
module PageTables {
  import opened Wrappers
  import opened Pmm

  type Word = w: int | 0 <= w < U64_LIMIT
  type Frame = s: seq<Word> | |s| == 512 witness seq(512, _ => 0)
  type Memory = seq<Frame>
  type Index = i: int | 0 <= i < 512

  /** The page of the 2 MiB window that is remapped on demand (src/mm/paging.c:36-37). */
  const SCRATCH: Index := 511

  function ZeroFrame(): Frame {
    seq(512, _ => 0)
  }

  predicate Present(e: Word) { e % 2 == 1 }
  predicate Writable(e: Word) { e / 2 % 2 == 1 }
  predicate User(e: Word) { e / 4 % 2 == 1 }
  predicate Huge(e: Word) { e / 128 % 2 == 1 }

  /** The frame number in an entry: the entry without its low twelve bits. */
  function FrameOf(e: Word): nat { e / FRAME_SIZE }

  /** frame | flags for a frame-aligned address and flags below one page. */
  function Entry(f: nat, flags: nat): (e: Word)
    requires f * FRAME_SIZE < U64_LIMIT && flags < FRAME_SIZE
    ensures FrameOf(e) == f && e % FRAME_SIZE == flags
    ensures Present(e) == (flags % 2 == 1) && Writable(e) == (flags / 2 % 2 == 1)
    ensures User(e) == (flags / 4 % 2 == 1) && Huge(e) == (flags / 128 % 2 == 1)
  {
    EntryBits(f, flags);
    EntryFits(f, flags);
    f * FRAME_SIZE + flags
  }

  lemma EntryBits(f: nat, flags: nat)
    requires flags < FRAME_SIZE
    ensures var e := f * FRAME_SIZE + flags;
            && e / FRAME_SIZE == f && e % FRAME_SIZE == flags
            && e % 2 == flags % 2 && e / 2 % 2 == flags / 2 % 2
            && e / 4 % 2 == flags / 4 % 2 && e / 128 % 2 == flags / 128 % 2
  {
    BitOfSum(2048 * f, flags, 2);
    BitOfSum(1024 * f, flags, 4);
    BitOfSum(32 * f, flags, 128);
  }

  lemma BitOfSum(high: nat, flags: nat, unit: nat)
    requires unit in {2, 4, 128} && high % 2 == 0
    ensures (unit * high + flags) / unit % 2 == flags / unit % 2
  {
    assert (unit * high + flags) / unit == high + flags / unit;
  }

  lemma EntryFits(f: nat, flags: nat)
    requires f * FRAME_SIZE < U64_LIMIT && flags < FRAME_SIZE
    ensures f * FRAME_SIZE + flags < U64_LIMIT
  {
    assert f <= 0xF_FFFF_FFFF_FFFF;
  }

  /** The four table indices of a virtual address. */
  datatype Slot = Slot(pi: Index, pdi: Index, pdi2: Index, pti: Index)

  function SlotOf(va: nat): Slot {
    Slot(va / 0x80_0000_0000 % 512, va / 0x4000_0000 % 512, va / 0x20_0000 % 512, va / 0x1000 % 512)
  }

  const SCRATCH_SLOT := Slot(511, 510, 0, 511)

  /** The word a walk reads from table frame f. */
  function Cell(mem: Memory, f: nat, i: Index): Word {
    if f < |mem| then mem[f][i] else 0
  }

  /** The leaf entry the four-level walk from `root` reaches, or 0 when a table is missing. */
  function LeafEntry(mem: Memory, root: nat, s: Slot): Word {
    var e4 := Cell(mem, root, s.pi);
    if !Present(e4) then 0 else
    var e3 := Cell(mem, FrameOf(e4), s.pdi);
    if !Present(e3) then 0 else
    var e2 := Cell(mem, FrameOf(e3), s.pdi2);
    if !Present(e2) then 0 else Cell(mem, FrameOf(e2), s.pti)
  }

  /** The physical address that `va` translates to from `root`. */
  function Translate(mem: Memory, root: nat, va: nat): Option<nat> {
    var e := LeafEntry(mem, root, SlotOf(va));
    if Present(e) then Some(FrameOf(e) * FRAME_SIZE + va % FRAME_SIZE) else None
  }

  /** A position in an address space, named by the frame of its PML4 and the indices that
      lead to it.  A Leaf is a page of memory that a user address space owns. */
  datatype Node =
    | Pml4(root: nat)
    | Pdpt(root: nat, pi: Index)
    | Pd(root: nat, pi: Index, pdi: Index)
    | Pt(root: nat, pi: Index, pdi: Index, pdi2: Index)
    | Leaf(root: nat, pi: Index, pdi: Index, pdi2: Index, pti: Index)

  type Tree = map<Node, nat>

  function Child(n: Node, i: Index): Node
    requires !n.Leaf?
  {
    match n
    case Pml4(r) => Pdpt(r, i)
    case Pdpt(r, a) => Pd(r, a, i)
    case Pd(r, a, b) => Pt(r, a, b, i)
    case Pt(r, a, b, c) => Leaf(r, a, b, c, i)
  }

  function Parent(n: Node): Node
    requires !n.Pml4?
  {
    match n
    case Pdpt(r, a) => Pml4(r)
    case Pd(r, a, b) => Pdpt(r, a)
    case Pt(r, a, b, c) => Pd(r, a, b)
    case Leaf(r, a, b, c, d) => Pt(r, a, b, c)
  }

  function Position(n: Node): Index
    requires !n.Pml4?
  {
    match n
    case Pdpt(r, a) => a
    case Pd(r, a, b) => b
    case Pt(r, a, b, c) => c
    case Leaf(r, a, b, c, d) => d
  }

  function PtOf(root: nat, s: Slot): Node { Pt(root, s.pi, s.pdi, s.pdi2) }

  /** The root whose tree holds the tables for slot s: slot 511 of every root is the kernel's. */
  function HomeRoot(kroot: nat, root: nat, s: Slot): nat {
    if s.pi == 511 then kroot else root
  }

  /** Whether entry i of n is part of n's own tree.  User roots borrow entry 511 from the
      kernel, and the kernel's leaf entries map memory that the tree does not own. */
  predicate Owned(kroot: nat, n: Node, i: Index) {
    match n
    case Pml4(r) => r == kroot || i != 511
    case Pt(r, _, _, _) => r != kroot
    case Leaf(_, _, _, _, _) => false
    case _ => true
  }

  predicate Placed(kroot: nat, tree: Tree, n: Node)
    requires n in tree
  {
    if n.Pml4? then tree[n] == n.root
    else Parent(n) in tree && Owned(kroot, Parent(n), Position(n))
  }

  /** Every node but a root hangs below a node of the tree, and no frame plays two parts. */
  ghost predicate Shaped(kroot: nat, tree: Tree) {
    && Pml4(kroot) in tree
    && (forall n :: n in tree ==> Placed(kroot, tree, n))
    && (forall m, n :: m in tree && n in tree && tree[m] == tree[n] ==> m == n)
  }

  /** User code gets through the entry for node c: everything but what the kernel root has outside
      the kernel's half. */
  predicate UserSide(kroot: nat, c: Node) {
    c.Pml4? || c.root != kroot || c.pi == 511
  }

  predicate EntryLinks(kroot: nat, e: Word, tree: Tree, c: Node) {
    && (Present(e) <==> c in tree)
    && (c in tree ==> FrameOf(e) == tree[c] && !Huge(e) && Writable(e) && (UserSide(kroot, c) <==> User(e)))
  }

  /** Flags for the link to c: present, writable, and for user code where c is on its side. */
  predicate LinkFlags(kroot: nat, c: Node, flags: nat) {
    flags < 8 && flags % 2 == 1 && flags / 2 % 2 == 1 && (UserSide(kroot, c) <==> flags / 4 % 2 == 1)
  }

  /** The entries in memory are exactly the edges of the tree. */
  ghost predicate Linked(mem: Memory, kroot: nat, tree: Tree) {
    && (forall n :: n in tree ==> tree[n] < |mem|)
    && (forall n, i: Index {:trigger Child(n, i)} :: n in tree && Owned(kroot, n, i) ==>
          EntryLinks(kroot, mem[tree[n]][i], tree, Child(n, i)))
    && Pml4(kroot) in tree
    && (forall r :: Pml4(r) in tree ==> mem[tree[Pml4(r)]][511] == mem[tree[Pml4(kroot)]][511])
  }

  lemma PathClosed(kroot: nat, tree: Tree, root: nat, s: Slot)
    requires Shaped(kroot, tree)
    ensures PtOf(root, s) in tree ==> Pd(root, s.pi, s.pdi) in tree
    ensures Pd(root, s.pi, s.pdi) in tree ==> Pdpt(root, s.pi) in tree
    ensures Pdpt(root, s.pi) in tree ==> Pml4(root) in tree && (root == kroot || s.pi != 511)
  {
    assert PtOf(root, s) in tree ==> Placed(kroot, tree, PtOf(root, s));
    assert Pd(root, s.pi, s.pdi) in tree ==> Placed(kroot, tree, Pd(root, s.pi, s.pdi));
    assert Pdpt(root, s.pi) in tree ==> Placed(kroot, tree, Pdpt(root, s.pi));
  }

  /** What the tree says the walk from `root` finds. */
  function TreeEntry(mem: Memory, kroot: nat, tree: Tree, root: nat, s: Slot): Word {
    var p := PtOf(HomeRoot(kroot, root, s), s);
    if p in tree then Cell(mem, tree[p], s.pti) else 0
  }

  /** The walk through memory agrees with the tree. */
  lemma WalkFollowsTree(mem: Memory, kroot: nat, tree: Tree, root: nat, s: Slot)
    requires Shaped(kroot, tree) && Linked(mem, kroot, tree) && Pml4(root) in tree
    ensures LeafEntry(mem, root, s) == TreeEntry(mem, kroot, tree, root, s)
  {
    var home := HomeRoot(kroot, root, s);
    assert Placed(kroot, tree, Pml4(root)) && Placed(kroot, tree, Pml4(kroot));
    assert Cell(mem, root, s.pi) == Cell(mem, home, s.pi);
    assert Owned(kroot, Pml4(home), s.pi);
    var p3 := Child(Pml4(home), s.pi);
    if p3 in tree {
      var p2 := Child(p3, s.pdi);
      if p2 in tree {
        var p1 := Child(p2, s.pdi2);
        assert p1 == PtOf(home, s);
      } else {
        assert PtOf(home, s) in tree ==> Placed(kroot, tree, PtOf(home, s));
      }
    } else {
      var p2 := Child(p3, s.pdi);
      assert PtOf(home, s) in tree ==> Placed(kroot, tree, PtOf(home, s));
      assert p2 in tree ==> Placed(kroot, tree, p2);
    }
  }

  /** Write one word of one frame. */
  function Put(mem: Memory, f: nat, i: Index, w: Word): Memory
    requires f < |mem|
  {
    mem[f := mem[f][i := w]]
  }

  /** The first link of a walk: through entry 511 every root continues in the kernel's tree. */
  lemma FirstLink(mem: Memory, kroot: nat, tree: Tree, root: nat, s: Slot)
    requires Shaped(kroot, tree) && Linked(mem, kroot, tree) && Pml4(root) in tree
    ensures root < |mem| && tree[Pml4(root)] == root
    ensures EntryLinks(kroot, mem[root][s.pi], tree, Pdpt(HomeRoot(kroot, root, s), s.pi))
  {
    var home := HomeRoot(kroot, root, s);
    assert Placed(kroot, tree, Pml4(root)) && Placed(kroot, tree, Pml4(home));
    assert mem[root][s.pi] == mem[home][s.pi];
    assert Owned(kroot, Pml4(home), s.pi);
    assert Child(Pml4(home), s.pi) == Pdpt(home, s.pi);
  }

  lemma PutSame(mem: Memory, f: nat, i: Index)
    requires f < |mem|
    ensures Put(mem, f, i, mem[f][i]) == mem
  {
    assert mem[f][i := mem[f][i]] == mem[f];
  }

  lemma NewEntryLinks(kroot: nat, tree: Tree, c: Node, f: nat, flags: nat)
    requires c in tree && tree[c] == f && f * FRAME_SIZE < U64_LIMIT && LinkFlags(kroot, c, flags)
    ensures EntryLinks(kroot, Entry(f, flags), tree, c)
  {
    hide Entry;
  }

  /** Giving node n a zeroed table f as its missing child i keeps the tree. */
  lemma LinkChild(mem: Memory, kroot: nat, tree: Tree, n: Node, i: Index, f: nat, flags: nat)
    requires Shaped(kroot, tree) && Linked(mem, kroot, tree)
    requires n in tree && Owned(kroot, n, i) && !n.Pt? && Child(n, i) !in tree
    requires Pdpt(kroot, 511) in tree
    requires f < |mem| && f !in tree.Values && mem[f] == ZeroFrame()
    requires f * FRAME_SIZE < U64_LIMIT && LinkFlags(kroot, Child(n, i), flags)
    ensures tree[n] < |mem|
    ensures var mem' := Put(mem, tree[n], i, Entry(f, flags));
            var tree' := tree[Child(n, i) := f];
            Shaped(kroot, tree') && Linked(mem', kroot, tree')
  {
    var c := Child(n, i);
    var mem' := Put(mem, tree[n], i, Entry(f, flags));
    var tree' := tree[c := f];
    LinkChildShaped(kroot, tree, n, i, f);
    forall m, j: Index | m in tree' && Owned(kroot, m, j)
      ensures tree'[m] < |mem'| && EntryLinks(kroot, mem'[tree'[m]][j], tree', Child(m, j))
    {
      hide Entry, EntryLinks, Shaped;
      LinkChildEntry(mem, kroot, tree, n, i, f, flags, m, j);
    }
    hide Entry, EntryLinks;
    assert n == Pml4(kroot) ==> i != 511;
    forall m | m in tree' ensures tree'[m] < |mem'| { }
    forall r | Pml4(r) in tree' ensures mem'[tree'[Pml4(r)]][511] == mem'[tree'[Pml4(kroot)]][511] {
      assert Pml4(r) in tree && mem[tree[Pml4(r)]][511] == mem[tree[Pml4(kroot)]][511];
      assert f !in tree.Values && tree[Pml4(r)] in tree.Values && tree[Pml4(kroot)] in tree.Values;
    }
  }

  lemma LinkChildShaped(kroot: nat, tree: Tree, n: Node, i: Index, f: nat)
    requires Shaped(kroot, tree) && n in tree && Owned(kroot, n, i) && Child(n, i) !in tree && f !in tree.Values
    ensures Shaped(kroot, tree[Child(n, i) := f])
  {
    var c := Child(n, i);
    var tree' := tree[c := f];
    assert Parent(c) == n && Position(c) == i;
    forall m | m in tree' ensures Placed(kroot, tree', m) {
      if m != c { assert Placed(kroot, tree, m); }
    }
    forall m | m in tree ensures tree[m] != f { assert tree[m] in tree.Values; }
  }

  lemma LinkChildEntry(mem: Memory, kroot: nat, tree: Tree, n: Node, i: Index, f: nat, flags: nat, m: Node, j: Index)
    requires Shaped(kroot, tree) && Linked(mem, kroot, tree)
    requires n in tree && Owned(kroot, n, i) && Child(n, i) !in tree
    requires f < |mem| && f !in tree.Values && mem[f] == ZeroFrame()
    requires f * FRAME_SIZE < U64_LIMIT && LinkFlags(kroot, Child(n, i), flags)
    requires m in tree[Child(n, i) := f] && Owned(kroot, m, j)
    ensures tree[n] < |mem|
    ensures var tree' := tree[Child(n, i) := f];
            tree'[m] < |mem| && EntryLinks(kroot, Put(mem, tree[n], i, Entry(f, flags))[tree'[m]][j], tree', Child(m, j))
  {
    hide Entry, Present, Huge, Writable, User, UserSide;
    var c, d := Child(n, i), Child(m, j);
    var mem' := Put(mem, tree[n], i, Entry(f, flags));
    var tree' := tree[c := f];
    assert tree[n] in tree.Values;
    assert Parent(d) == m && Position(d) == j && Parent(c) == n && Position(c) == i;
    if m == c {
      assert d in tree ==> Placed(kroot, tree, d);
      assert mem'[f][j] == 0;
      ZeroEntryLinks(kroot, tree', d);
    } else if m == n && j == i {
      NewEntryLinks(kroot, tree', c, f, flags);
    } else {
      assert EntryLinks(kroot, mem[tree[m]][j], tree, d);
      assert tree[m] in tree.Values;
    }
  }

  lemma ZeroEntryLinks(kroot: nat, tree: Tree, c: Node)
    requires c !in tree
    ensures EntryLinks(kroot, 0, tree, c)
  {
  }

  /** Tables that agree on every entry of the tree are both linked. */
  lemma LinkedFrame(mem: Memory, mem': Memory, kroot: nat, tree: Tree)
    requires Shaped(kroot, tree) && Linked(mem, kroot, tree) && |mem'| == |mem|
    requires forall n, i: Index {:trigger Child(n, i)} :: n in tree && Owned(kroot, n, i) ==>
               mem'[tree[n]][i] == mem[tree[n]][i]
    requires forall r :: Pml4(r) in tree ==> mem'[tree[Pml4(r)]][511] == mem[tree[Pml4(r)]][511]
    ensures Linked(mem', kroot, tree)
  {
    forall n, i: Index | n in tree && Owned(kroot, n, i)
      ensures EntryLinks(kroot, mem'[tree[n]][i], tree, Child(n, i))
    {
      var c := Child(n, i);
      assert EntryLinks(kroot, mem[tree[n]][i], tree, c);
    }
    forall r | Pml4(r) in tree ensures mem'[tree[Pml4(r)]][511] == mem'[tree[Pml4(kroot)]][511] {
      assert Pml4(kroot) in tree;
    }
  }
}
