/** Adding an address space to the tree, and the frames that one address space owns. */
module Subtrees {
  import opened Wrappers
  import opened Pmm
  import opened PageTables
  import opened Window
  import opened Leaves

  /** m is n or lies below n. */
  predicate Within(n: Node, m: Node) {
    && m.root == n.root
    && match n
       case Pml4(_) => true
       case Pdpt(_, a) => !m.Pml4? && m.pi == a
       case Pd(_, a, b) => !m.Pml4? && !m.Pdpt? && m.pi == a && m.pdi == b
       case Pt(_, a, b, c) => (m.Pt? || m.Leaf?) && m.pi == a && m.pdi == b && m.pdi2 == c
       case Leaf(_, a, b, c, d) => m == n
  }

  /** The entry of n through which a node strictly below n is reached. */
  function Branch(n: Node, m: Node): Index
    requires Within(n, m) && m != n
  {
    match n
    case Pml4(_) => m.pi
    case Pdpt(_, _) => m.pdi
    case Pd(_, _, _) => m.pdi2
    case Pt(_, _, _, _) => m.pti
  }

  /** The frames of n and of everything below it. */
  ghost function Whole(tree: Tree, n: Node): set<nat> {
    set m | m in tree && Within(n, m) :: tree[m]
  }

  /** The frames below the first i entries of n. */
  ghost function Below(tree: Tree, n: Node, i: nat): set<nat> {
    set m | m in tree && Within(n, m) && m != n && Branch(n, m) < i :: tree[m]
  }

  lemma BelowNext(tree: Tree, n: Node, i: Index)
    requires !n.Leaf?
    ensures Below(tree, n, i + 1) == Below(tree, n, i) + Whole(tree, Child(n, i))
  {
    var c := Child(n, i);
    forall m ensures Within(c, m) <==> Within(n, m) && m != n && Branch(n, m) == i {
    }
  }

  lemma WholeIsAll(tree: Tree, n: Node)
    requires n in tree
    ensures Whole(tree, n) == Below(tree, n, 512) + {tree[n]}
    ensures Below(tree, n, 0) == {}
  {
    forall f | f in Whole(tree, n) ensures f in Below(tree, n, 512) + {tree[n]} {
      var m :| m in tree && Within(n, m) && tree[m] == f;
      if m != n { assert Branch(n, m) < 512; }
    }
    assert Within(n, n);
  }

  /** Nothing hangs below a node that is not there. */
  lemma WholeOfMissing(kroot: nat, tree: Tree, c: Node)
    requires Shaped(kroot, tree) && c !in tree
    ensures Whole(tree, c) == {}
  {
    forall m | Within(c, m) ensures m !in tree {
      if m in tree { AncestorsPresent(kroot, tree, c, m); }
    }
  }

  lemma AncestorsPresent(kroot: nat, tree: Tree, c: Node, m: Node)
    requires Shaped(kroot, tree) && Within(c, m) && m in tree
    ensures c in tree
    decreases if m.Pml4? then 0 else if m.Pdpt? then 1 else if m.Pd? then 2 else if m.Pt? then 3 else 4
  {
    assert Placed(kroot, tree, m);
    if m != c {
      assert Within(c, Parent(m));
      AncestorsPresent(kroot, tree, c, Parent(m));
    }
  }

  /** The tree without one address space. */
  function WithoutRoot(tree: Tree, root: nat): Tree {
    map m | m in tree && m.root != root :: tree[m]
  }

  lemma RemoveRoot(mem: Memory, kroot: nat, ptHi: nat, tree: Tree, root: nat)
    requires TablesOk(mem, kroot, ptHi, tree) && root != kroot
    ensures TablesOk(mem, kroot, ptHi, WithoutRoot(tree, root))
  {
    RemoveRootShaped(kroot, tree, root);
    RemoveRootLinked(mem, kroot, tree, root);
    hide Shaped, Linked;
  }

  lemma RemoveRootShaped(kroot: nat, tree: Tree, root: nat)
    requires Shaped(kroot, tree) && root != kroot
    ensures Shaped(kroot, WithoutRoot(tree, root))
  {
    var tree' := WithoutRoot(tree, root);
    forall m | m in tree' ensures Placed(kroot, tree', m) {
      assert Placed(kroot, tree, m);
    }
  }

  lemma RemoveRootLinked(mem: Memory, kroot: nat, tree: Tree, root: nat)
    requires Linked(mem, kroot, tree) && root != kroot
    ensures Linked(mem, kroot, WithoutRoot(tree, root))
  {
    hide EntryLinks;
    var tree' := WithoutRoot(tree, root);
    forall n, i: Index | n in tree' && Owned(kroot, n, i)
      ensures EntryLinks(kroot, mem[tree'[n]][i], tree', Child(n, i))
    {
      assert EntryLinks(kroot, mem[tree[n]][i], tree, Child(n, i));
      SameLinks(kroot, mem[tree[n]][i], tree, tree', Child(n, i));
    }
  }

  lemma SameLinks(kroot: nat, e: Word, tree: Tree, tree': Tree, c: Node)
    requires EntryLinks(kroot, e, tree, c) && (c in tree <==> c in tree') && (c in tree ==> tree'[c] == tree[c])
    ensures EntryLinks(kroot, e, tree', c)
  {
  }

  lemma HeldWithoutRoot(kroot: nat, tree: Tree, lost: set<nat>, used: set<nat>, root: nat)
    requires Held(tree, lost, used) && Shaped(kroot, tree)
    ensures Held(WithoutRoot(tree, root), lost, used - Whole(tree, Pml4(root)))
    ensures Foreign(WithoutRoot(tree, root), lost, used - Whole(tree, Pml4(root))) == Foreign(tree, lost, used)
  {
    var tree' := WithoutRoot(tree, root);
    var w := Whole(tree, Pml4(root));
    forall n | n in tree' ensures tree'[n] !in w {
    }
    forall f | f in tree.Values ensures f in tree'.Values || f in w {
      var m :| m in tree && tree[m] == f;
      if m.root == root { assert Within(Pml4(root), m); } else { assert tree'[m] == f; }
    }
    forall f | f in tree'.Values ensures f in tree.Values {
      var m :| m in tree' && tree'[m] == f;
      assert tree[m] == f;
    }
    forall f | f in w ensures f in tree.Values {
    }
  }

  lemma AddRootShaped(kroot: nat, tree: Tree, f: nat)
    requires Shaped(kroot, tree) && f !in tree.Values && f != kroot
    ensures Pml4(f) !in tree && Shaped(kroot, tree[Pml4(f) := f])
  {
    var tree' := tree[Pml4(f) := f];
    assert Pml4(f) in tree ==> Placed(kroot, tree, Pml4(f));
    forall m | m in tree ensures tree[m] != f { assert tree[m] in tree.Values; }
    forall m | m in tree' ensures Placed(kroot, tree', m) {
      if m != Pml4(f) { assert Placed(kroot, tree, m); }
    }
  }

  /** Entry i below node n of the tree with the new root. */
  lemma AddRootEntry(mem: Memory, kroot: nat, tree: Tree, f: nat, n: Node, i: Index)
    requires Shaped(kroot, tree) && Linked(mem, kroot, tree) && Pml4(f) !in tree && f < |mem|
    requires forall j: Index :: j != 511 ==> mem[f][j] == 0
    requires n in tree[Pml4(f) := f] && Owned(kroot, n, i) && f != kroot
    ensures tree[Pml4(f) := f][n] < |mem| && EntryLinks(kroot, mem[tree[Pml4(f) := f][n]][i], tree[Pml4(f) := f], Child(n, i))
  {
    hide EntryLinks;
    var tree', c := tree[Pml4(f) := f], Child(n, i);
    if n == Pml4(f) {
      assert c in tree ==> Placed(kroot, tree, c);
      ZeroEntryLinks(kroot, tree', c);
    } else {
      assert EntryLinks(kroot, mem[tree[n]][i], tree, c);
      SameLinks(kroot, mem[tree[n]][i], tree, tree', c);
    }
  }

  /** A zeroed frame whose entry 511 is the kernel's becomes an empty address space. */
  lemma AddRoot(mem: Memory, kroot: nat, ptHi: nat, tree: Tree, f: nat)
    requires TablesOk(mem, kroot, ptHi, tree) && f < |mem| && f != 511 && f !in tree.Values
    requires kroot < |mem| && mem[f] == ZeroFrame()[511 := mem[kroot][511]]
    ensures Pml4(f) !in tree && TablesOk(mem, kroot, ptHi, tree[Pml4(f) := f])
  {
    hide EntryLinks, Shaped, Shown;
    RootIs(kroot, tree);
    AddRootShaped(kroot, tree, f);
    var tree' := tree[Pml4(f) := f];
    forall n, i: Index | n in tree' && Owned(kroot, n, i)
      ensures EntryLinks(kroot, mem[tree'[n]][i], tree', Child(n, i))
    {
      AddRootEntry(mem, kroot, tree, f, n, i);
    }
  }

  lemma RootIs(kroot: nat, tree: Tree)
    requires Shaped(kroot, tree)
    ensures Pml4(kroot) in tree && tree[Pml4(kroot)] == kroot && kroot in tree.Values
  {
    assert Placed(kroot, tree, Pml4(kroot));
    assert tree[Pml4(kroot)] in tree.Values;
  }

  lemma RootFrame(mem: Memory, kroot: nat, ptHi: nat, tree: Tree, root: nat)
    requires TablesOk(mem, kroot, ptHi, tree) && Pml4(root) in tree
    ensures root < |mem| && kroot < |mem| && root != 511 && root != ptHi && root in tree.Values
    ensures mem[root][511] == mem[kroot][511]
  {
    assert Placed(kroot, tree, Pml4(root)) && Placed(kroot, tree, Pml4(kroot));
    assert Pt(kroot, 511, 510, 0) in tree;
  }

  /** paging_create_user_space on memory: m1 and m2 are the memory after each of the two window
      mappings, between which frame f was zeroed. */
  lemma ZeroedRoot(mem: Memory, m1: Memory, m2: Memory, kroot: nat, ptHi: nat, tree: Tree, lost: set<nat>, used: set<nat>, f: nat)
    requires TablesOk(mem, kroot, ptHi, tree) && TablesOk(m1, kroot, ptHi, tree) && TablesOk(m2, kroot, ptHi, tree)
    requires Held(tree, lost, used) && f !in used && f < |mem| == |m1|
    requires ScratchOnly(ptHi, mem, m1) && ScratchOnly(ptHi, m1[f := ZeroFrame()], m2)
    ensures |m2| == |mem| && m2[f] == ZeroFrame() && LeavesKept(mem, m2, tree)
    ensures f !in tree.Values && kroot < |mem| && f != kroot && m2[kroot] == mem[kroot]
  {
    hide TablesOk, Held, LeavesKept, Extends;
    FreshFrame(mem, kroot, ptHi, tree, lost, used, f);
    TablesHaveWindow(mem, kroot, ptHi, tree);
    RootFrame(mem, kroot, ptHi, tree, kroot);
    var z := m1[f := ZeroFrame()];
    ScratchExtends(ptHi, mem, tree, {}, m1);
    OutsideExtends(ptHi, m1, tree, {}, f, ZeroFrame());
    ExtendsTwice(ptHi, mem, tree, {}, m1, tree, {}, z, tree);
    ScratchExtends(ptHi, z, tree, {}, m2);
    ExtendsTwice(ptHi, mem, tree, {}, z, tree, {}, m2, tree);
    ExtendsKeepsLeaves(mem, m2, kroot, ptHi, tree, tree, {});
  }

  lemma CopiedRoot(mem: Memory, m2: Memory, kroot: nat, ptHi: nat, tree: Tree, lost: set<nat>, used: set<nat>, f: nat)
    requires TablesOk(mem, kroot, ptHi, tree) && TablesOk(m2, kroot, ptHi, tree) && LeavesKept(mem, m2, tree)
    requires Held(tree, lost, used) && f !in used && f !in tree.Values && f < |m2| && m2[f] == ZeroFrame()
    requires kroot < |m2| && f != 511 && f != 0
    ensures Pml4(f) !in tree
    ensures var mem' := Put(m2, f, 511, m2[kroot][511]);
            var tree' := tree[Pml4(f) := f];
            && TablesOk(mem', kroot, ptHi, tree') && Held(tree', lost, used + {f})
            && Foreign(tree', lost, used + {f}) == Foreign(tree, lost, used)
            && LeavesKept(mem, mem', tree) && |mem'| == |m2|
            && mem'[kroot] == m2[kroot]
  {
    hide TablesOk, Held, LeavesKept, Extends;
    var mem' := Put(m2, f, 511, m2[kroot][511]);
    TablesHaveWindow(m2, kroot, ptHi, tree);
    OutsideKeepsTables(m2, kroot, ptHi, tree, f, mem'[f]);
    OutsideExtends(ptHi, m2, tree, {}, f, mem'[f]);
    ExtendsKeepsLeaves(m2, mem', kroot, ptHi, tree, tree, {});
    KeptTwice(mem, m2, mem', tree, tree);
    assert kroot in tree.Values by { assert tree[Pml4(kroot)] == kroot; }
    AddRoot(mem', kroot, ptHi, tree, f);
    HeldLink(tree, lost, used, Pml4(f), f);
  }

  /** What the new address space translates: the kernel's half, and nothing else. */
  lemma NewRootLeaves(mem: Memory, kroot: nat, ptHi: nat, tree: Tree, f: nat, s: Slot)
    requires TablesOk(mem, kroot, ptHi, tree[Pml4(f) := f]) && Shaped(kroot, tree) && Pml4(f) !in tree
    ensures LeafEntry(mem, f, s) == if s.pi == 511 then LeafEntry(mem, kroot, s) else 0
  {
    hide LeafEntry;
    var tree' := tree[Pml4(f) := f];
    WalkFollowsTree(mem, kroot, tree', f, s);
    WalkFollowsTree(mem, kroot, tree', kroot, s);
    PathClosed(kroot, tree, f, s);
  }

  /** The tables of `root` above the page tables are visible at their own pages of the window,
      so walking below them leaves the walk's own pointers in place. */
  ghost predicate UpperTablesDirect(tree: Tree, root: nat) {
    forall n :: n in tree && n.root == root && !n.Pt? && !n.Leaf? ==> tree[n] < 511
  }

  /** The same, read from the entries of the root table and of the tables below it. */
  predicate TablesDirect(mem: Memory, root: nat) {
    root < 511
    && forall i: Index :: i != 511 && Present(Cell(mem, root, i)) ==>
         FrameOf(Cell(mem, root, i)) < 511
         && forall j: Index :: Present(Cell(mem, FrameOf(Cell(mem, root, i)), j)) ==>
              FrameOf(Cell(mem, FrameOf(Cell(mem, root, i)), j)) < 511
  }

  lemma DirectInMemory(mem: Memory, kroot: nat, ptHi: nat, tree: Tree, root: nat)
    requires TablesOk(mem, kroot, ptHi, tree) && Pml4(root) in tree && root != kroot
    ensures TablesDirect(mem, root) <==> UpperTablesDirect(tree, root)
  {
    hide TablesOk, Present;
    RootFrame(mem, kroot, ptHi, tree, root);
    RootIsOwnFrame(mem, kroot, ptHi, tree, root);
    forall i: Index | i != 511
      ensures Present(Cell(mem, root, i)) <==> Pdpt(root, i) in tree
      ensures Pdpt(root, i) in tree ==> FrameOf(Cell(mem, root, i)) == tree[Pdpt(root, i)]
    {
      FollowLink(mem, kroot, ptHi, tree, Pml4(root), i);
    }
    forall i: Index, j: Index | i != 511 && Pdpt(root, i) in tree
      ensures Present(Cell(mem, tree[Pdpt(root, i)], j)) <==> Pd(root, i, j) in tree
      ensures Pd(root, i, j) in tree ==> FrameOf(Cell(mem, tree[Pdpt(root, i)], j)) == tree[Pd(root, i, j)]
    {
      FollowLink(mem, kroot, ptHi, tree, Pdpt(root, i), j);
    }
    forall n | n in tree && n.root == root && !n.Pt? && !n.Leaf?
      ensures n == Pml4(root) || (n.Pdpt? && n.pi != 511) || (n.Pd? && n.pi != 511 && Pdpt(root, n.pi) in tree)
    {
      UserNode(mem, kroot, ptHi, tree, n);
    }
  }

  lemma UserNode(mem: Memory, kroot: nat, ptHi: nat, tree: Tree, n: Node)
    requires TablesOk(mem, kroot, ptHi, tree) && n in tree && n.root != kroot
    ensures n.Pdpt? || n.Pd? ==> n.pi != 511
    ensures n.Pd? ==> Pdpt(n.root, n.pi) in tree
  {
    assert Placed(kroot, tree, n);
    if n.Pd? { assert Placed(kroot, tree, Pdpt(n.root, n.pi)); }
  }

  /** One round of the loops of paging_free_user_space, for entry i of node n. */
  lemma FreeRound(mem: Memory, kroot: nat, ptHi: nat, tree: Tree, n: Node, i: Index)
    requires TablesOk(mem, kroot, ptHi, tree) && n in tree && Owned(kroot, n, i)
    ensures tree[n] < |mem| && Below(tree, n, i + 1) == Below(tree, n, i) + Whole(tree, Child(n, i))
    ensures Present(mem[tree[n]][i]) <==> Child(n, i) in tree
    ensures Child(n, i) in tree ==>
      && FrameOf(mem[tree[n]][i]) == tree[Child(n, i)]
      && tree[Child(n, i)] < |mem| && tree[Child(n, i)] != 511
      && Whole(tree, Child(n, i)) == Below(tree, Child(n, i), 512) + {tree[Child(n, i)]}
      && Below(tree, Child(n, i), 0) == {}
    ensures Child(n, i) !in tree ==> Whole(tree, Child(n, i)) == {}
  {
    hide Below, Whole;
    assert EntryLinks(kroot, mem[tree[n]][i], tree, Child(n, i));
    BelowNext(tree, n, i);
    if Child(n, i) in tree { WholeIsAll(tree, Child(n, i)); } else { WholeOfMissing(kroot, tree, Child(n, i)); }
  }

  lemma LeafWhole(tree: Tree, n: Node)
    requires n.Leaf? && n in tree
    ensures Below(tree, n, 512) == {}
  {
  }

  lemma BorrowedEntryIsEmpty(mem: Memory, kroot: nat, ptHi: nat, tree: Tree, root: nat)
    requires TablesOk(mem, kroot, ptHi, tree) && root != kroot
    ensures Below(tree, Pml4(root), 512) == Below(tree, Pml4(root), 511)
  {
    hide Below, Whole;
    BelowNext(tree, Pml4(root), 511);
    assert Pdpt(root, 511) in tree ==> Placed(kroot, tree, Pdpt(root, 511));
    WholeOfMissing(kroot, tree, Pdpt(root, 511));
  }

  lemma RootIsOwnFrame(mem: Memory, kroot: nat, ptHi: nat, tree: Tree, root: nat)
    requires TablesOk(mem, kroot, ptHi, tree) && Pml4(root) in tree
    ensures tree[Pml4(root)] == root
  {
    assert Placed(kroot, tree, Pml4(root));
  }

  lemma RootRemoved(mem: Memory, kroot: nat, ptHi: nat, tree: Tree, lost: set<nat>, used: set<nat>, root: nat)
    requires TablesOk(mem, kroot, ptHi, tree) && Held(tree, lost, used) && root != kroot
    ensures TablesOk(mem, kroot, ptHi, WithoutRoot(tree, root))
    ensures 0 !in Whole(tree, Pml4(root)) && 511 !in Whole(tree, Pml4(root))
    ensures Held(WithoutRoot(tree, root), lost, used - Whole(tree, Pml4(root)))
    ensures Foreign(WithoutRoot(tree, root), lost, used - Whole(tree, Pml4(root))) == Foreign(tree, lost, used)
  {
    RemoveRoot(mem, kroot, ptHi, tree, root);
    HeldWithoutRoot(kroot, tree, lost, used, root);
  }

  lemma FewerRoots(mem: Memory, mem': Memory, tree: Tree, root: nat)
    requires LeavesKept(mem, mem', tree)
    ensures LeavesKept(mem, mem', WithoutRoot(tree, root))
  {
    hide LeafEntry;
  }

  function LeafOfSlot(root: nat, s: Slot): Node { Leaf(root, s.pi, s.pdi, s.pdi2, s.pti) }

  /** The frame a user page had before, which nothing refers to once the page is remapped. */
  function Displaced(tree: Tree, leaf: Node): set<nat> {
    if leaf in tree then {tree[leaf]} else {}
  }

  /** Writing a leaf entry of a user address space hands frame f to that page. */
  lemma OwnLeaf(mem: Memory, kroot: nat, ptHi: nat, tree: Tree, root: nat, s: Slot, f: nat)
    requires TablesOk(mem, kroot, ptHi, tree) && root != kroot && s.pi != 511 && PtOf(root, s) in tree
    requires f < |mem| && f != 511 && f !in tree.Values && f * FRAME_SIZE < U64_LIMIT
    ensures tree[PtOf(root, s)] < |mem|
    ensures var mem' := Put(mem, tree[PtOf(root, s)], s.pti, Entry(f, RW_USER));
            var tree' := tree[LeafOfSlot(root, s) := f];
            && TablesOk(mem', kroot, ptHi, tree')
            && LeafSet(mem, mem', kroot, tree, root, s, Entry(f, RW_USER))
            && mem'[kroot] == mem[kroot]
  {
    hide Entry, EntryLinks, LeafEntry;
    var p, leaf := PtOf(root, s), LeafOfSlot(root, s);
    var e := Entry(f, RW_USER);
    OwnLeafTables(mem, kroot, ptHi, tree, root, s, f);
    var mem' := Put(mem, tree[p], s.pti, e);
    var tree' := tree[leaf := f];
    assert Placed(kroot, tree, Pml4(kroot));
    OnlyNode(mem, kroot, ptHi, tree, p);
    assert mem'[kroot] == mem[kroot];
    hide TablesOk;
    forall r, t | Pml4(r) in tree
      ensures LeafEntry(mem', r, t) == if t == s && HomeRoot(kroot, r, t) == root then e else LeafEntry(mem, r, t)
    {
      OwnLeafAt(mem, mem', kroot, ptHi, tree, root, s, f, r, t);
    }
  }

  /** The entry of page t through root r before and after. */
  lemma OwnLeafAt(mem: Memory, mem': Memory, kroot: nat, ptHi: nat, tree: Tree, root: nat, s: Slot, f: nat, r: nat, t: Slot)
    requires TablesOk(mem, kroot, ptHi, tree) && root != kroot && s.pi != 511 && PtOf(root, s) in tree && Pml4(r) in tree
    requires f * FRAME_SIZE < U64_LIMIT && tree[PtOf(root, s)] < |mem|
    requires mem' == Put(mem, tree[PtOf(root, s)], s.pti, Entry(f, RW_USER)) && TablesOk(mem', kroot, ptHi, tree[LeafOfSlot(root, s) := f])
    ensures LeafEntry(mem', r, t) == if t == s && HomeRoot(kroot, r, t) == root then Entry(f, RW_USER) else LeafEntry(mem, r, t)
  {
    hide Entry, EntryLinks, LeafEntry;
    var p := PtOf(root, s);
    OnlyNode(mem, kroot, ptHi, tree, p);
    WalkFollowsTree(mem, kroot, tree, r, t);
    WalkFollowsTree(mem', kroot, tree[LeafOfSlot(root, s) := f], r, t);
    hide TablesOk, Put;
    var q := PtOf(HomeRoot(kroot, r, t), t);
    if q in tree && q != p { assert mem'[tree[q]] == mem[tree[q]]; }
  }

  lemma OwnLeafTables(mem: Memory, kroot: nat, ptHi: nat, tree: Tree, root: nat, s: Slot, f: nat)
    requires TablesOk(mem, kroot, ptHi, tree) && root != kroot && s.pi != 511 && PtOf(root, s) in tree
    requires f < |mem| && f != 511 && f !in tree.Values && f * FRAME_SIZE < U64_LIMIT
    ensures tree[PtOf(root, s)] < |mem|
    ensures TablesOk(Put(mem, tree[PtOf(root, s)], s.pti, Entry(f, RW_USER)), kroot, ptHi, tree[LeafOfSlot(root, s) := f])
  {
    hide Entry, EntryLinks;
    var p, leaf := PtOf(root, s), LeafOfSlot(root, s);
    var mem' := Put(mem, tree[p], s.pti, Entry(f, RW_USER));
    var tree' := tree[leaf := f];
    OwnLeafShaped(kroot, tree, root, s, f);
    OwnLeafFrames(mem, kroot, ptHi, tree, root, s, f);
    assert Linked(mem', kroot, tree') by {
      hide Shaped, WindowOk, Put, TablesOk;
      forall n, i: Index | n in tree' && Owned(kroot, n, i)
        ensures EntryLinks(kroot, mem'[tree'[n]][i], tree', Child(n, i))
      {
        OwnLeafEntry(mem, kroot, ptHi, tree, root, s, f, n, i);
      }
    }
  }

  lemma OwnLeafFrames(mem: Memory, kroot: nat, ptHi: nat, tree: Tree, root: nat, s: Slot, f: nat)
    requires TablesOk(mem, kroot, ptHi, tree) && root != kroot && PtOf(root, s) in tree
    requires f < |mem| && f != 511 && f !in tree.Values && f * FRAME_SIZE < U64_LIMIT
    ensures tree[PtOf(root, s)] < |mem|
    ensures var mem' := Put(mem, tree[PtOf(root, s)], s.pti, Entry(f, RW_USER));
            var tree' := tree[LeafOfSlot(root, s) := f];
            && WindowOk(mem', kroot, ptHi, tree') && Pml4(kroot) in tree'
            && (forall n :: n in tree' ==> tree'[n] < |mem'|)
            && (forall r :: Pml4(r) in tree' ==> mem'[tree'[Pml4(r)]][511] == mem'[tree'[Pml4(kroot)]][511])
  {
    hide Entry, EntryLinks;
    var p := PtOf(root, s);
    var mem' := Put(mem, tree[p], s.pti, Entry(f, RW_USER));
    assert Pt(kroot, 511, 510, 0) in tree && Pml4(kroot) in tree;
    OnlyNode(mem, kroot, ptHi, tree, p);
    forall r | Pml4(r) in tree ensures mem'[tree[Pml4(r)]] == mem[tree[Pml4(r)]] { }
    forall i: Index | i != SCRATCH ensures Shown(mem', ptHi, i) == i {
      assert Shown(mem, ptHi, i) == i;
    }
  }

  lemma OwnLeafEntry(mem: Memory, kroot: nat, ptHi: nat, tree: Tree, root: nat, s: Slot, f: nat, n: Node, i: Index)
    requires TablesOk(mem, kroot, ptHi, tree) && root != kroot && PtOf(root, s) in tree
    requires f < |mem| && f !in tree.Values && f * FRAME_SIZE < U64_LIMIT
    requires n in tree[LeafOfSlot(root, s) := f] && Owned(kroot, n, i)
    ensures tree[PtOf(root, s)] < |mem|
    ensures var tree' := tree[LeafOfSlot(root, s) := f];
            tree'[n] < |mem| &&
            EntryLinks(kroot, Put(mem, tree[PtOf(root, s)], s.pti, Entry(f, RW_USER))[tree'[n]][i], tree', Child(n, i))
  {
    hide Entry, EntryLinks;
    var p, leaf := PtOf(root, s), LeafOfSlot(root, s);
    var tree' := tree[leaf := f];
    var c := Child(n, i);
    assert Parent(c) == n && Position(c) == i && Child(p, s.pti) == leaf;
    if n == p && i == s.pti {
      NewEntryLinks(kroot, tree', leaf, f, RW_USER);
    } else {
      assert EntryLinks(kroot, mem[tree[n]][i], tree, c);
      SameLinks(kroot, mem[tree[n]][i], tree, tree', c);
    }
  }

  lemma OwnLeafShaped(kroot: nat, tree: Tree, root: nat, s: Slot, f: nat)
    requires Shaped(kroot, tree) && root != kroot && PtOf(root, s) in tree && f !in tree.Values
    ensures Shaped(kroot, tree[LeafOfSlot(root, s) := f])
  {
    var leaf := LeafOfSlot(root, s);
    var tree' := tree[leaf := f];
    forall m | m in tree' ensures Placed(kroot, tree', m) {
      if m != leaf { assert Placed(kroot, tree, m); }
    }
    forall m | m in tree ensures tree[m] != f { assert tree[m] in tree.Values; }
  }

  lemma HeldLeaf(tree: Tree, lost: set<nat>, used: set<nat>, leaf: Node, f: nat)
    requires Held(tree, lost, used) && f in used && f != 0 && f !in tree.Values && f !in lost
    requires forall m, n :: m in tree && n in tree && tree[m] == tree[n] ==> m == n
    ensures Held(tree[leaf := f], lost + Displaced(tree, leaf), used)
    ensures Foreign(tree[leaf := f], lost + Displaced(tree, leaf), used) == Foreign(tree, lost, used) - {f}
  {
    var tree' := tree[leaf := f];
    assert tree'.Values == tree.Values - Displaced(tree, leaf) + {f} by {
      forall g | g in tree.Values - Displaced(tree, leaf) ensures g in tree'.Values {
        var n :| n in tree && tree[n] == g;
        assert tree'[n] == g;
      }
      assert tree'[leaf] == f;
      forall g | g in tree'.Values ensures g in tree.Values - Displaced(tree, leaf) + {f} {
        var n :| n in tree' && tree'[n] == g;
      }
    }
  }
}
