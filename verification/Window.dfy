/** The kernel's view of its page tables (src/mm/paging.c:31-57).

    The kernel reaches a table through the 2 MiB window at 0xFFFFFFFF80000000: page i of the
    window shows frame i, except page 511, whose entry is rewritten to show any frame on
    demand.  A "pointer" to a table is therefore a page number of the window, and what it
    points at is whatever the window's page table says at the moment of the access.

    This module says when the tables and the window are consistent, and what the elementary
    writes to physical memory do to them. */
module Window {
  import opened Wrappers
  import opened Pmm
  import opened PageTables

  const WINDOW_BYTES := 0x20_0000
  const RW := 3
  const RW_USER := 7

  /** No frame: a frame number has at most 52 bits. */
  const NOWHERE := 0x10_0000_0000_0000

  /** The frame that page h of the window shows, or NOWHERE when a load or store through the page
      would fault. */
  function Shown(mem: Memory, ptHi: nat, h: Index): nat
    requires ptHi < |mem|
  {
    ShownBy(mem[ptHi][h])
  }

  function ShownBy(e: Word): (f: nat)
    ensures Present(e) && Writable(e) ==> f == FrameOf(e)
    ensures f < NOWHERE ==> Present(e) && Writable(e)
  {
    if Present(e) && Writable(e) then FrameOf(e) else NOWHERE
  }

  /** The window page through which virt_for_phys reaches frame f. */
  function WindowPage(f: nat): Index {
    if f < 512 then f else SCRATCH
  }

  /** The window is one page table of the kernel's tree, and shows frame i at page i < 511, to loads
      and to stores. */
  ghost predicate WindowOk(mem: Memory, kroot: nat, ptHi: nat, tree: Tree) {
    && Pdpt(kroot, 511) in tree && Pd(kroot, 511, 510) in tree && Pt(kroot, 511, 510, 0) in tree
    && tree[Pt(kroot, 511, 510, 0)] == ptHi && tree[Pd(kroot, 511, 510)] < 511
    && kroot < 511 && ptHi < 511 && 512 <= |mem| <= NOWHERE
    && (forall i: Index :: i != SCRATCH ==> Shown(mem, ptHi, i) == i)
    && (forall n :: n in tree ==> tree[n] != 511)
  }

  ghost predicate TablesOk(mem: Memory, kroot: nat, ptHi: nat, tree: Tree) {
    Shaped(kroot, tree) && Linked(mem, kroot, tree) && WindowOk(mem, kroot, ptHi, tree)
  }

  /** Rewriting the scratch entry disturbs no table. */
  lemma ScratchKeepsTables(mem: Memory, kroot: nat, ptHi: nat, tree: Tree, e: Word)
    requires TablesOk(mem, kroot, ptHi, tree)
    ensures ptHi < |mem| && TablesOk(Put(mem, ptHi, SCRATCH, e), kroot, ptHi, tree)
  {
    hide EntryLinks;
    var mem' := Put(mem, ptHi, SCRATCH, e);
    var p := Pt(kroot, 511, 510, 0);
    assert p in tree && tree[p] == ptHi;
    forall n, i: Index | n in tree && Owned(kroot, n, i) ensures mem'[tree[n]][i] == mem[tree[n]][i] {
      assert tree[n] != ptHi;
    }
    forall r | Pml4(r) in tree ensures mem'[tree[Pml4(r)]][511] == mem[tree[Pml4(r)]][511] {
      assert tree[Pml4(r)] != tree[p];
    }
    LinkedFrame(mem, mem', kroot, tree);
    forall i: Index | i != SCRATCH ensures Shown(mem', ptHi, i) == i {
      assert Shown(mem, ptHi, i) == i;
    }
  }

  /** The scratch entry e may only give way to one that lets no user code through. */
  predicate KeptOrHidden(e: Word, e': Word) {
    e' == e || !User(e')
  }

  /** At most the scratch entry differs. */
  ghost predicate ScratchOnly(ptHi: nat, mem: Memory, mem': Memory) {
    && ptHi < |mem| && |mem'| == |mem|
    && (forall f :: 0 <= f < |mem| && f != ptHi ==> mem'[f] == mem[f])
    && (forall i: Index :: i != SCRATCH ==> mem'[ptHi][i] == mem[ptHi][i])
    && KeptOrHidden(mem[ptHi][SCRATCH], mem'[ptHi][SCRATCH])
  }

  /** Every frame of the tree is in use, and so is every lost frame; none is both.  Frame 0 is
      never a table: the allocator's 0 means failure. */
  ghost predicate Held(tree: Tree, lost: set<nat>, used: set<nat>) {
    && (forall n :: n in tree ==> tree[n] in used && tree[n] !in lost && tree[n] != 0)
    && lost <= used
  }

  /** The frames in use that belong to something other than the tables. */
  ghost function Foreign(tree: Tree, lost: set<nat>, used: set<nat>): set<nat> {
    used - tree.Values - lost
  }

  /** From (mem, tree) to (mem', tree') tables were added and nothing else changed: page tables
      and owned pages keep their contents apart from the scratch entry, new page tables are
      empty, a present entry of an upper table stays, no address space appeared, and the frames in `keep` were not written. */
  ghost predicate Extends(ptHi: nat, mem: Memory, tree: Tree, keep: set<nat>, mem': Memory, tree': Tree) {
    && |mem'| == |mem|
    && (forall n :: n in tree ==> tree[n] < |mem|)
    && (forall n :: n in tree' ==> tree'[n] < |mem|)
    && (forall n :: n in tree ==> n in tree' && tree'[n] == tree[n])
    && (forall n, i: Index {:trigger mem'[tree[n]][i]} :: n in tree && (n.Pt? || n.Leaf?) && !(tree[n] == ptHi && i == SCRATCH) ==>
          mem'[tree[n]][i] == mem[tree[n]][i])
    && (forall n, i: Index {:trigger mem'[tree[n]][i]} :: n in tree && !n.Pt? && Present(mem[tree[n]][i]) ==>
          mem'[tree[n]][i] == mem[tree[n]][i])
    && (forall n, i: Index {:trigger mem'[tree'[n]][i]} :: n in tree' && n !in tree && n.Pt? ==> mem'[tree'[n]][i] == 0)
    && (forall n :: n in tree' && n !in tree ==> !n.Pml4? && !n.Leaf?)
    && (forall f :: f in keep && f < |mem| ==> mem'[f] == mem[f])
    && (ptHi < |mem| ==> KeptOrHidden(mem[ptHi][SCRATCH], mem'[ptHi][SCRATCH]))
  }

  /** Writing a frame that is not in the tree disturbs no table. */
  lemma OutsideKeepsTables(mem: Memory, kroot: nat, ptHi: nat, tree: Tree, f: nat, contents: Frame)
    requires TablesOk(mem, kroot, ptHi, tree) && f < |mem| && f !in tree.Values
    ensures TablesOk(mem[f := contents], kroot, ptHi, tree)
  {
    hide EntryLinks;
    var mem' := mem[f := contents];
    forall n | n in tree ensures mem'[tree[n]] == mem[tree[n]] {
      assert tree[n] in tree.Values;
    }
    LinkedFrame(mem, mem', kroot, tree);
    assert ptHi in tree.Values by { assert Pt(kroot, 511, 510, 0) in tree; }
    forall i: Index | i != SCRATCH ensures Shown(mem', ptHi, i) == i {
      assert Shown(mem, ptHi, i) == i;
    }
  }

  /** Linking a fresh zeroed table keeps the tables. */
  lemma LinkKeepsTables(mem: Memory, kroot: nat, ptHi: nat, tree: Tree, n: Node, i: Index, f: nat, flags: nat)
    requires TablesOk(mem, kroot, ptHi, tree)
    requires n in tree && Owned(kroot, n, i) && !n.Pt? && Child(n, i) !in tree
    requires f < |mem| && f !in tree.Values && f != 511 && mem[f] == ZeroFrame()
    requires f * FRAME_SIZE < U64_LIMIT && LinkFlags(kroot, Child(n, i), flags)
    ensures tree[n] < |mem|
    ensures TablesOk(Put(mem, tree[n], i, Entry(f, flags)), kroot, ptHi, tree[Child(n, i) := f])
  {
    hide EntryLinks;
    LinkChild(mem, kroot, tree, n, i, f, flags);
    var mem' := Put(mem, tree[n], i, Entry(f, flags));
    assert tree[n] != ptHi by { assert Pt(kroot, 511, 510, 0) in tree; }
    forall j: Index | j != SCRATCH ensures Shown(mem', ptHi, j) == j {
      assert Shown(mem, ptHi, j) == j;
    }
  }

  lemma NothingExtends(kroot: nat, ptHi: nat, mem: Memory, tree: Tree, keep: set<nat>)
    requires TablesOk(mem, kroot, ptHi, tree)
    ensures Extends(ptHi, mem, tree, keep, mem, tree)
  {
  }

  /** A frame that is not in use is no table, and the window shows it at its own page. */
  lemma FreshFrame(mem: Memory, kroot: nat, ptHi: nat, tree: Tree, lost: set<nat>, used: set<nat>, f: nat)
    requires TablesOk(mem, kroot, ptHi, tree) && Held(tree, lost, used) && f !in used
    ensures f !in tree.Values && f !in lost && f != ptHi && ptHi in tree.Values && ptHi < |mem|
    ensures forall n :: n in tree ==> tree[n] < |mem| && tree[n] in used && (!n.Pt? ==> tree[n] != ptHi)
  {
    hide EntryLinks;
    assert Pt(kroot, 511, 510, 0) in tree;
  }

  lemma HeldApart(tree: Tree, lost: set<nat>, used: set<nat>)
    requires Held(tree, lost, used)
    ensures lost !! tree.Values && lost <= used && tree.Values <= used && 0 !in tree.Values
  {
  }

  lemma LinkValues(tree: Tree, c: Node, f: nat)
    requires c !in tree
    ensures tree[c := f].Values == tree.Values + {f}
  {
    forall g | g in tree.Values ensures g in tree[c := f].Values {
      var n :| n in tree && tree[n] == g;
      assert tree[c := f][n] == g;
    }
    assert tree[c := f][c] == f;
  }

  lemma HeldLink(tree: Tree, lost: set<nat>, used: set<nat>, c: Node, f: nat)
    requires Held(tree, lost, used) && f !in used && f != 0 && c !in tree
    ensures Held(tree[c := f], lost, used + {f})
    ensures Foreign(tree[c := f], lost, used + {f}) == Foreign(tree, lost, used)
  {
    LinkValues(tree, c, f);
  }

  lemma HeldMore(tree: Tree, lost: set<nat>, used: set<nat>, f: nat)
    requires Held(tree, lost, used) && f !in used
    ensures Held(tree, lost, used + {f}) && f !in tree.Values && f !in lost
    ensures Foreign(tree, lost, used + {f}) == Foreign(tree, lost, used) + {f}
    ensures Foreign(tree, lost, used + {f}) - {f} == Foreign(tree, lost, used)
  {
  }

  lemma HeldLoseForeign(tree: Tree, lost: set<nat>, used: set<nat>, f: nat)
    requires Held(tree, lost, used) && f in Foreign(tree, lost, used)
    ensures Held(tree, lost + {f}, used)
    ensures Foreign(tree, lost + {f}, used) == Foreign(tree, lost, used) - {f}
  {
  }

  lemma HeldLose(tree: Tree, lost: set<nat>, used: set<nat>, f: nat)
    requires Held(tree, lost, used) && f !in used
    ensures Held(tree, lost + {f}, used + {f})
    ensures Foreign(tree, lost + {f}, used + {f}) == Foreign(tree, lost, used)
  {
    assert forall g :: g in tree.Values ==> g in used;
  }

  lemma TablesHaveWindow(mem: Memory, kroot: nat, ptHi: nat, tree: Tree)
    requires TablesOk(mem, kroot, ptHi, tree)
    ensures ptHi < 511 && kroot < 511 && 512 <= |mem| <= NOWHERE && ptHi in tree.Values
    ensures Pml4(kroot) in tree && tree[Pml4(kroot)] == kroot
    ensures forall i: Index :: i != SCRATCH ==> Shown(mem, ptHi, i) == i
    ensures forall n :: n in tree ==> tree[n] < |mem| && tree[n] != 511 && (!n.Pt? ==> tree[n] != ptHi)
  {
    assert Pt(kroot, 511, 510, 0) in tree;
  }

  lemma RootShown(mem: Memory, kroot: nat, ptHi: nat, tree: Tree)
    requires TablesOk(mem, kroot, ptHi, tree)
    ensures ptHi < |mem| && kroot < 511 && kroot < |mem| && Pml4(kroot) in tree && tree[Pml4(kroot)] == kroot
    ensures WindowPage(kroot) == kroot && Shown(mem, ptHi, kroot) == kroot && StrayIn(mem, {})
  {
    assert Placed(kroot, tree, Pml4(kroot));
  }

  lemma TreePathClosed(mem: Memory, kroot: nat, ptHi: nat, tree: Tree, root: nat, s: Slot)
    requires TablesOk(mem, kroot, ptHi, tree)
    ensures PtOf(root, s) in tree ==> Pd(root, s.pi, s.pdi) in tree
    ensures Pd(root, s.pi, s.pdi) in tree ==> Pdpt(root, s.pi) in tree
    ensures Pdpt(root, s.pi) in tree ==> Pml4(root) in tree && (root == kroot || s.pi != 511)
  {
    PathClosed(kroot, tree, root, s);
  }

  /** A frame of the window below page 511 is shown at its own page. */
  lemma DirectPage(mem: Memory, kroot: nat, ptHi: nat, tree: Tree, h: Index)
    requires TablesOk(mem, kroot, ptHi, tree) && h != SCRATCH
    ensures ptHi < |mem| <= NOWHERE && h < |mem| && Shown(mem, ptHi, h) == h
  {
  }

  lemma FollowLink(mem: Memory, kroot: nat, ptHi: nat, tree: Tree, n: Node, i: Index)
    requires TablesOk(mem, kroot, ptHi, tree) && n in tree && Owned(kroot, n, i) && !n.Pt?
    ensures tree[n] < |mem| && (Present(mem[tree[n]][i]) <==> Child(n, i) in tree)
    ensures Child(n, i) in tree ==>
      FrameOf(mem[tree[n]][i]) == tree[Child(n, i)] && tree[Child(n, i)] < |mem| && tree[Child(n, i)] != 511
  {
    assert EntryLinks(kroot, mem[tree[n]][i], tree, Child(n, i));
  }

  lemma ScratchExtends(ptHi: nat, mem: Memory, tree: Tree, keep: set<nat>, mem': Memory)
    requires ScratchOnly(ptHi, mem, mem') && ptHi !in keep
    requires forall n :: n in tree ==> tree[n] < |mem| && (!n.Pt? ==> tree[n] != ptHi)
    ensures Extends(ptHi, mem, tree, keep, mem', tree)
  {
  }

  lemma OutsideExtends(ptHi: nat, mem: Memory, tree: Tree, keep: set<nat>, f: nat, contents: Frame)
    requires f < |mem| && f !in keep && f !in tree.Values && f != ptHi
    requires forall n :: n in tree ==> tree[n] < |mem|
    ensures Extends(ptHi, mem, tree, keep, mem[f := contents], tree)
  {
    forall n | n in tree ensures tree[n] != f { assert tree[n] in tree.Values; }
  }

  lemma LinkExtends(kroot: nat, ptHi: nat, mem: Memory, tree: Tree, keep: set<nat>, n: Node, i: Index, f: nat, flags: nat)
    requires TablesOk(mem, kroot, ptHi, tree)
    requires n in tree && Owned(kroot, n, i) && !n.Pt? && Child(n, i) !in tree
    requires f < |mem| && f !in tree.Values && mem[f] == ZeroFrame() && tree[n] !in keep
    requires f * FRAME_SIZE < U64_LIMIT && flags < 8
    ensures tree[n] < |mem|
    ensures Extends(ptHi, mem, tree, keep, Put(mem, tree[n], i, Entry(f, flags)), tree[Child(n, i) := f])
  {
    hide EntryLinks, Entry;
    FollowLink(mem, kroot, ptHi, tree, n, i);
    TablesHaveWindow(mem, kroot, ptHi, tree);
    hide TablesOk, Present, Shown, Owned;
    forall m | m in tree ensures tree[m] != f { assert tree[m] in tree.Values; }
    OnlyNode(mem, kroot, ptHi, tree, n);
    ChildExtends(ptHi, mem, tree, keep, Put(mem, tree[n], i, Entry(f, flags)), n, i, f);
  }

  /** One more child, an empty table, hung below node n in memory: nothing else changed. */
  lemma ChildExtends(ptHi: nat, mem: Memory, tree: Tree, keep: set<nat>, mem': Memory, n: Node, i: Index, f: nat)
    requires n in tree && !n.Pt? && !n.Leaf? && Child(n, i) !in tree && (n.Pml4? || n.Pdpt? || n.Pd?)
    requires |mem'| == |mem| && f < |mem| && mem[f] == ZeroFrame() && tree[n] != ptHi && tree[n] !in keep
    requires forall m :: m in tree ==> tree[m] < |mem| && tree[m] != f && (tree[m] == tree[n] ==> m == n)
    requires !Present(mem[tree[n]][i])
    requires forall g :: 0 <= g < |mem| && g != tree[n] ==> mem'[g] == mem[g]
    requires forall j: Index :: j != i ==> mem'[tree[n]][j] == mem[tree[n]][j]
    ensures Extends(ptHi, mem, tree, keep, mem', tree[Child(n, i) := f])
  {
    hide Present;
  }

  lemma OnlyNode(mem: Memory, kroot: nat, ptHi: nat, tree: Tree, n: Node)
    requires TablesOk(mem, kroot, ptHi, tree) && n in tree
    ensures forall m :: m in tree && tree[m] == tree[n] ==> m == n
  {
  }

  lemma ExtendsTwice(ptHi: nat, m0: Memory, t0: Tree, keep: set<nat>, m1: Memory, t1: Tree, keep1: set<nat>, m2: Memory, t2: Tree)
    requires Extends(ptHi, m0, t0, keep, m1, t1) && Extends(ptHi, m1, t1, keep1, m2, t2)
    requires keep <= keep1
    requires forall n :: n in t1 && n !in t0 ==> t1[n] != ptHi
    ensures Extends(ptHi, m0, t0, keep, m2, t2)
  {
    forall n, i: Index | n in t0 && (n.Pt? || n.Leaf?) && !(t0[n] == ptHi && i == SCRATCH)
      ensures m2[t0[n]][i] == m0[t0[n]][i]
    {
      assert m2[t1[n]][i] == m1[t1[n]][i];
    }
    forall n, i: Index | n in t0 && !n.Pt? && Present(m0[t0[n]][i]) ensures m2[t0[n]][i] == m0[t0[n]][i] {
      assert m1[t0[n]][i] == m0[t0[n]][i];
      assert m2[t1[n]][i] == m1[t1[n]][i];
    }
    forall n, i: Index | n in t2 && n !in t0 && n.Pt? ensures m2[t2[n]][i] == 0 {
      if n in t1 { assert m2[t1[n]][i] == m1[t1[n]][i]; }
    }
  }

  /** Memory after a new table f, already zeroed in `mapped`'s scratch state, got the entry that
      links it written into frame `parent`. */
  function WithNewTable(mapped: Memory, f: nat, parent: nat, i: Index, flags: nat): Memory
    requires f < |mapped| && parent < |mapped| && f * FRAME_SIZE < U64_LIMIT && flags < 8
  {
    Put(mapped[f := ZeroFrame()], parent, i, Entry(f, flags))
  }

  /** The link was written into the parent table: the tree gains a node. */
  lemma NewTableLinked(kroot: nat, ptHi: nat, mem: Memory, mapped: Memory, tree: Tree, lost: set<nat>,
                       used: set<nat>, keep: set<nat>, n: Node, i: Index, f: nat, flags: nat)
    requires TablesOk(mem, kroot, ptHi, tree) && TablesOk(mapped, kroot, ptHi, tree) && ScratchOnly(ptHi, mem, mapped)
    requires Held(tree, lost, used) && f !in used && 0 < f < |mem| && f != 511 && f * FRAME_SIZE < U64_LIMIT
    requires n in tree && Owned(kroot, n, i) && !n.Pt? && tree[n] < |mem| && !Present(mem[tree[n]][i])
    requires flags == (if UserSide(kroot, Child(n, i)) then RW_USER else RW) && keep <= used - tree.Values
    ensures var mem' := WithNewTable(mapped, f, tree[n], i, flags);
            var tree' := tree[Child(n, i) := f];
            && Child(n, i) !in tree
            && TablesOk(mem', kroot, ptHi, tree') && Held(tree', lost, used + {f})
            && Extends(ptHi, mem, tree, keep, mem', tree')
            && Foreign(tree', lost, used + {f}) == Foreign(tree, lost, used)
            && mem'[ptHi] == mapped[ptHi]
  {
    hide TablesOk, Held, Extends, Entry, Foreign;
    FreshFrame(mem, kroot, ptHi, tree, lost, used, f);
    FollowLink(mem, kroot, ptHi, tree, n, i);
    var cleared := mapped[f := ZeroFrame()];
    var mem' := WithNewTable(mapped, f, tree[n], i, flags);
    var tree' := tree[Child(n, i) := f];
    OutsideKeepsTables(mapped, kroot, ptHi, tree, f, ZeroFrame());
    LinkKeepsTables(cleared, kroot, ptHi, tree, n, i, f, flags);
    HeldLink(tree, lost, used, Child(n, i), f);
    ScratchExtends(ptHi, mem, tree, keep, mapped);
    OutsideExtends(ptHi, mapped, tree, keep, f, ZeroFrame());
    ExtendsTwice(ptHi, mem, tree, keep, mapped, tree, keep, cleared, tree);
    LinkExtends(kroot, ptHi, cleared, tree, keep, n, i, f, flags);
    ExtendsTwice(ptHi, mem, tree, keep, cleared, tree, keep, mem', tree');
    NoTableChildIsWindow(kroot, ptHi, mem, tree, n);
  }

  /** Only page tables sit at the level of the window's page table. */
  lemma NoTableChildIsWindow(kroot: nat, ptHi: nat, mem: Memory, tree: Tree, n: Node)
    requires TablesOk(mem, kroot, ptHi, tree) && n in tree && !n.Pt?
    ensures tree[n] != ptHi
  {
    assert Pt(kroot, 511, 510, 0) in tree;
  }

  /** The link was written into a frame no root reaches: nothing in the tree changes. */
  lemma NewTableStray(kroot: nat, ptHi: nat, mem: Memory, mapped: Memory, tree: Tree, lost: set<nat>,
                      used: set<nat>, keep: set<nat>, stray: set<nat>, parent: nat, i: Index, f: nat, flags: nat)
    requires TablesOk(mem, kroot, ptHi, tree) && TablesOk(mapped, kroot, ptHi, tree) && ScratchOnly(ptHi, mem, mapped)
    requires Held(tree, lost, used) && f !in used && f < |mem| && f != 511 && f * FRAME_SIZE < U64_LIMIT
    requires stray <= lost && StrayIn(mem, stray) && parent in stray + {f}
    requires flags in {RW, RW_USER} && keep <= used - tree.Values - stray
    ensures var mem' := WithNewTable(mapped, f, parent, i, flags);
            && TablesOk(mem', kroot, ptHi, tree) && Held(tree, lost + {f}, used + {f})
            && Extends(ptHi, mem, tree, keep, mem', tree)
            && Foreign(tree, lost + {f}, used + {f}) == Foreign(tree, lost, used)
            && StrayIn(mem', stray + {f})
            && mem'[ptHi] == mapped[ptHi]
  {
    hide TablesOk, Held, Extends, Entry, Foreign;
    FreshFrame(mem, kroot, ptHi, tree, lost, used, f);
    HeldApart(tree, lost, used);
    var cleared := mapped[f := ZeroFrame()];
    var mem' := WithNewTable(mapped, f, parent, i, flags);
    OutsideKeepsTables(mapped, kroot, ptHi, tree, f, ZeroFrame());
    OutsideKeepsTables(cleared, kroot, ptHi, tree, parent, mem'[parent]);
    HeldLose(tree, lost, used, f);
    ScratchExtends(ptHi, mem, tree, keep, mapped);
    OutsideExtends(ptHi, mapped, tree, keep, f, ZeroFrame());
    ExtendsTwice(ptHi, mem, tree, keep, mapped, tree, keep, cleared, tree);
    OutsideExtends(ptHi, cleared, tree, keep, parent, mem'[parent]);
    ExtendsTwice(ptHi, mem, tree, keep, cleared, tree, keep, mem', tree);
    forall g, j: Index | g in stray + {f} && Present(mem'[g][j]) ensures FrameOf(mem'[g][j]) in stray + {f} {
      if g != f && !(g == parent && j == i) { assert mem'[g][j] == mem[g][j]; }
    }
  }

  lemma NoStray(mem: Memory)
    ensures StrayIn(mem, {})
  {
  }

  lemma StrayEntry(mem: Memory, stray: set<nat>, f: nat, i: Index)
    requires StrayIn(mem, stray) && f in stray && f < |mem| && Present(mem[f][i])
    ensures FrameOf(mem[f][i]) in stray && FrameOf(mem[f][i]) < |mem| && FrameOf(mem[f][i]) != 511
  {
  }

  lemma ScratchKeepsStray(ptHi: nat, mem: Memory, mem': Memory, stray: set<nat>)
    requires StrayIn(mem, stray) && ScratchOnly(ptHi, mem, mem') && ptHi !in stray
    ensures StrayIn(mem', stray)
  {
  }

  /** The frames of `stray` refer only to each other. */
  ghost predicate StrayIn(mem: Memory, stray: set<nat>) {
    && (forall f :: f in stray ==> f < |mem| && f != 511)
    && (forall f, i: Index {:trigger mem[f][i]} :: f in stray && Present(mem[f][i]) ==> FrameOf(mem[f][i]) in stray)
  }
}
