/** Table-making walks: what each level does, and when a walk ends in a table of the tree. */
module Walks {
  import opened Wrappers
  import opened Pmm
  import opened PageTables
  import opened Window
  import opened Subtrees

  /** Where a table-making walk stands: at a node of the tree, or in a frame no root reaches. */
  datatype WalkState = WalkState(tree: Tree, lost: set<nat>, used: set<nat>, at: Option<Node>, stray: set<nat>)

  /** One level of the walk, from a to b, towards entry i. */
  ghost predicate StepTo(total: nat, i: Index, viaScratch: bool, a: WalkState, b: WalkState, ok: bool) {
    var f := NextFrame(a.used, total);
    && a.lost <= b.lost && a.used <= b.used
    && match a.at
       case None =>
         && b.at.None? && b.tree == a.tree && b.lost == a.lost + (b.used - a.used)
         && b.stray == a.stray + (b.used - a.used) && (ok || b.used == a.used)
       case Some(n) =>
         !n.Leaf? && n in a.tree ==>
           if Child(n, i) in a.tree then
             ok && b == a.(at := Some(Child(n, i)))
           else if f == total then
             !ok && b.tree == a.tree && b.lost == a.lost && b.used == a.used
           else if a.tree[n] < 511 || (!viaScratch && f < 511) then
             ok && b == a.(at := Some(Child(n, i)), tree := a.tree[Child(n, i) := f], used := a.used + {f})
           else
             ok && b == a.(at := None, lost := a.lost + {f}, used := a.used + {f}, stray := a.stray + {f})
  }

  /** A step along a link that is there. */
  lemma StepFound(total: nat, i: Index, viaScratch: bool, a: WalkState, at: Option<Node>)
    requires match a.at
             case None => at.None?
             case Some(n) => !n.Leaf? && n in a.tree && Child(n, i) in a.tree && at == Some(Child(n, i))
    ensures StepTo(total, i, viaScratch, a, a.(at := at), true)
  {
    hide NextFrame;
    assert a.used - a.used == {};
  }

  /** A step for which no frame was left. */
  lemma StepFailed(total: nat, i: Index, viaScratch: bool, a: WalkState)
    requires NextFrame(a.used, total) == total
    requires a.at.Some? ==> !a.at.value.Leaf? && a.at.value in a.tree && Child(a.at.value, i) !in a.tree
    ensures StepTo(total, i, viaScratch, a, a, false)
  {
    hide NextFrame;
    assert a.used - a.used == {};
  }

  /** A step for which a table was made: linked into its parent, or astray. */
  lemma StepMade(total: nat, i: Index, viaScratch: bool, a: WalkState, b: WalkState, linked: bool)
    requires a.at.Some? ==> !a.at.value.Leaf? && a.at.value in a.tree && Child(a.at.value, i) !in a.tree
    requires var f := NextFrame(a.used, total);
             && f < total
             && linked == (a.at.Some? && (a.tree[a.at.value] < 511 || (!viaScratch && f < 511)))
             && b == if linked then a.(at := Some(Child(a.at.value, i)), tree := a.tree[Child(a.at.value, i) := f], used := a.used + {f})
                     else a.(at := None, lost := a.lost + {f}, used := a.used + {f}, stray := a.stray + {f})
    ensures StepTo(total, i, viaScratch, a, b, true)
  {
    hide FirstFree;
    assert a.used + {NextFrame(a.used, total)} - a.used == {NextFrame(a.used, total)};
  }

  /** Whether paging_map_page, with memory to spare, ends up writing its entry into a table that
      the kernel root reaches.  Every new table is zeroed through the scratch page, so a table
      that gains a child must itself be visible at its own page of the window. */
  ghost predicate MapReaches(tree: Tree, kroot: nat, used: set<nat>, total: nat, s: Slot) {
    var f1 := NextFrame(used, total);
    var f2 := NextFrame(used + {f1}, total);
    if PtOf(kroot, s) in tree then true
    else if Pd(kroot, s.pi, s.pdi) in tree then tree[Pd(kroot, s.pi, s.pdi)] < 511
    else if Pdpt(kroot, s.pi) in tree then tree[Pdpt(kroot, s.pi)] < 511 && f1 < 511
    else f1 < 511 && f2 < 511
  }

  /** Whether the walk of elf_load, with memory to spare, ends in a table that `root` reaches.
      Here a new table is zeroed through virt_for_phys, so linking fails only when both the
      parent and the new table need the scratch page. */
  ghost predicate UserReaches(tree: Tree, root: nat, used: set<nat>, total: nat, s: Slot) {
    var f1 := NextFrame(used, total);
    var f2 := NextFrame(used + {f1}, total);
    var f3 := NextFrame(used + {f1} + {f2}, total);
    if PtOf(root, s) in tree then true
    else if Pd(root, s.pi, s.pdi) in tree then tree[Pd(root, s.pi, s.pdi)] < 511 || f1 < 511
    else if Pdpt(root, s.pi) in tree then (tree[Pdpt(root, s.pi)] < 511 || f1 < 511) && (f1 < 511 || f2 < 511)
    else (root < 511 || f1 < 511) && (f1 < 511 || f2 < 511) && (f2 < 511 || f3 < 511)
  }

  /** The tree and the frames in use after a walk that linked every table it had to make. */
  ghost function WalkTree(tree: Tree, root: nat, used: set<nat>, total: nat, s: Slot): Tree {
    var f1 := NextFrame(used, total);
    var f2 := NextFrame(used + {f1}, total);
    var f3 := NextFrame(used + {f1} + {f2}, total);
    if PtOf(root, s) in tree then tree
    else if Pd(root, s.pi, s.pdi) in tree then tree[PtOf(root, s) := f1]
    else if Pdpt(root, s.pi) in tree then tree[Pd(root, s.pi, s.pdi) := f1][PtOf(root, s) := f2]
    else tree[Pdpt(root, s.pi) := f1][Pd(root, s.pi, s.pdi) := f2][PtOf(root, s) := f3]
  }

  ghost function WalkUsed(tree: Tree, root: nat, used: set<nat>, total: nat, s: Slot): set<nat> {
    var f1 := NextFrame(used, total);
    var f2 := NextFrame(used + {f1}, total);
    var f3 := NextFrame(used + {f1} + {f2}, total);
    if PtOf(root, s) in tree then used
    else if Pd(root, s.pi, s.pdi) in tree then used + {f1}
    else if Pdpt(root, s.pi) in tree then used + {f1} + {f2}
    else used + {f1} + {f2} + {f3}
  }

  /** How many tables on the path to a slot are missing. */
  function Missing(tree: Tree, root: nat, s: Slot): nat {
    if PtOf(root, s) in tree then 0
    else if Pd(root, s.pi, s.pdi) in tree then 1
    else if Pdpt(root, s.pi) in tree then 2
    else 3
  }

  /** The step towards entry i finds its table, or may take a frame without meeting frame 511. */
  ghost predicate MayStep(total: nat, i: Index, a: WalkState) {
    || Avoids511(a.used, total, 1)
    || (a.at.Some? && !a.at.value.Leaf? && a.at.value in a.tree && Child(a.at.value, i) in a.tree)
  }

  lemma FirstStepMay(total: nat, root: nat, s: Slot, a: WalkState)
    requires PathInTree(a.tree, root, s) && a.at == Some(Pml4(root)) && Avoids511(a.used, total, Missing(a.tree, root, s))
    ensures MayStep(total, s.pi, a)
  {
    hide Spare;
  }

  /** How many of m missing tables the first level, or the first two, have to make. */
  function FirstLevel(m: nat): nat { if m >= 3 then 1 else 0 }

  function TwoLevels(m: nat): nat { if m >= 3 then 2 else if m == 2 then 1 else 0 }

  lemma FirstMissing(tree: Tree, root: nat, s: Slot)
    requires PathInTree(tree, root, s) && Pdpt(root, s.pi) !in tree
    ensures Missing(tree, root, s) == 3
  {
  }

  lemma SecondMissing(tree: Tree, root: nat, s: Slot)
    requires PathInTree(tree, root, s) && Pd(root, s.pi, s.pdi) !in tree
    ensures Missing(tree, root, s) >= 2
  {
  }

  /** After the first level, with what is left for the other two. */
  lemma SecondStepMay(total: nat, viaScratch: bool, root: nat, s: Slot, a: WalkState, b: WalkState)
    requires PathInTree(a.tree, root, s) && a.at == Some(Pml4(root)) && Avoids511(a.used, total, Missing(a.tree, root, s))
    requires StepTo(total, s.pi, viaScratch, a, b, true) && TookLow(a.used, b.used, 1)
    ensures MayStep(total, s.pdi, b)
    ensures if Missing(a.tree, root, s) == 3 then Avoids511(b.used, total, 2) else b == a.(at := Some(Pdpt(root, s.pi)))
    ensures TookLow(a.used, b.used, FirstLevel(Missing(a.tree, root, s)))
  {
    hide NextFrame, Avoids511, TookLow;
    TookNone(a.used, 0);
    if Missing(a.tree, root, s) == 3 {
      StillAvoids511(a.used, b.used, total, 1, 2);
      FewerAvoid511(b.used, total, 1, 2);
    } else if Missing(a.tree, root, s) == 2 {
      FewerAvoid511(b.used, total, 1, 2);
    }
  }

  /** After the second level. */
  lemma ThirdStepMay(total: nat, viaScratch: bool, root: nat, s: Slot, a: WalkState, b: WalkState, c: WalkState)
    requires PathInTree(a.tree, root, s) && a.at == Some(Pml4(root)) && Avoids511(a.used, total, Missing(a.tree, root, s))
    requires if Missing(a.tree, root, s) == 3 then Avoids511(b.used, total, 2) else b == a.(at := Some(Pdpt(root, s.pi)))
    requires TookLow(a.used, b.used, FirstLevel(Missing(a.tree, root, s)))
    requires StepTo(total, s.pdi, viaScratch, b, c, true) && TookLow(b.used, c.used, 1)
    ensures MayStep(total, s.pdi2, c)
    ensures TookLow(a.used, c.used, TwoLevels(Missing(a.tree, root, s)))
    ensures Missing(a.tree, root, s) <= 1 ==> c == a.(at := Some(Pd(root, s.pi, s.pdi)))
  {
    hide NextFrame, Avoids511, TookLow;
    var m := Missing(a.tree, root, s);
    TookNone(b.used, 0);
    TookTwice(a.used, b.used, c.used, FirstLevel(m), if m >= 2 then 1 else 0);
    if m >= 2 {
      StillAvoids511(b.used, c.used, total, 1, 1);
    }
  }

  /** All three levels take no more frames than tables were missing. */
  lemma WalkTakes(total: nat, viaScratch: bool, root: nat, s: Slot, a: WalkState, c: WalkState, d: WalkState, ok: bool)
    requires TookLow(a.used, c.used, TwoLevels(Missing(a.tree, root, s)))
    requires Missing(a.tree, root, s) <= 1 ==> c == a.(at := Some(Pd(root, s.pi, s.pdi)))
    requires PathInTree(a.tree, root, s)
    requires StepTo(total, s.pdi2, viaScratch, c, d, ok) && TookLow(c.used, d.used, 1) && (!ok ==> d.used == c.used)
    ensures TookLow(a.used, d.used, Missing(a.tree, root, s))
    ensures !ok ==> Missing(a.tree, root, s) > 0 && TookLow(a.used, d.used, Missing(a.tree, root, s) - 1)
  {
    hide NextFrame, Avoids511, TookLow;
    var m := Missing(a.tree, root, s);
    TookNone(c.used, 0);
    TookTwice(a.used, c.used, d.used, TwoLevels(m), if m >= 1 then 1 else 0);
  }

  /** The nodes on the path to a slot are present from the top down. */
  predicate PathInTree(tree: Tree, root: nat, s: Slot) {
    && Pml4(root) in tree && tree[Pml4(root)] == root
    && (PtOf(root, s) in tree ==> Pd(root, s.pi, s.pdi) in tree)
    && (Pd(root, s.pi, s.pdi) in tree ==> Pdpt(root, s.pi) in tree)
  }

  /** Which node a step ends at. */
  lemma StepAt(total: nat, i: Index, viaScratch: bool, a: WalkState, b: WalkState, ok: bool)
    requires StepTo(total, i, viaScratch, a, b, ok)
    ensures a.lost <= b.lost && a.used <= b.used
    ensures a.at.None? && ok ==> b.at.None?
    ensures ok && a.at.Some? && !a.at.value.Leaf? && a.at.value in a.tree ==>
      b.at.None? || (b.at == Some(Child(a.at.value, i)) && b.at.value in b.tree)
  {
    hide NextFrame;
  }

  /** paging_map_page reaches the page table exactly when MapReaches says so. */
  lemma KernelWalkEnds(total: nat, kroot: nat, s: Slot, a: WalkState, b: WalkState, c: WalkState, d: WalkState)
    requires PathInTree(a.tree, kroot, s) && a.at == Some(Pml4(kroot)) && kroot < 511
    requires StepTo(total, s.pi, true, a, b, true) && StepTo(total, s.pdi, true, b, c, true)
    requires StepTo(total, s.pdi2, true, c, d, true)
    ensures d.at == if MapReaches(a.tree, kroot, a.used, total, s) then Some(PtOf(kroot, s)) else None
    ensures d.at.None? ==> PtOf(kroot, s) !in d.tree
    ensures d.at.Some? ==> d.lost == a.lost
  {
    hide NextFrame;
  }

  /** A step fails only where the next table is missing. */
  lemma MissingTable(total: nat, i: Index, viaScratch: bool, a: WalkState, b: WalkState)
    requires StepTo(total, i, viaScratch, a, b, false) && a.at.Some? && !a.at.value.Leaf? && a.at.value in a.tree
    ensures Child(a.at.value, i) !in a.tree && b.tree == a.tree && b.lost == a.lost && b.used == a.used
  {
    hide NextFrame;
  }

  lemma SecondTableMissing(total: nat, kroot: nat, s: Slot, a: WalkState, b: WalkState, c: WalkState)
    requires PathInTree(a.tree, kroot, s) && a.at == Some(Pml4(kroot))
    requires StepTo(total, s.pi, true, a, b, true) && StepTo(total, s.pdi, true, b, c, false)
    ensures Pd(kroot, s.pi, s.pdi) !in a.tree
  {
    hide NextFrame;
  }

  /** Where the page directory is there already, a walk that fails changes nothing. */
  lemma KernelWalkFails(total: nat, kroot: nat, s: Slot, a: WalkState, b: WalkState, c: WalkState, d: WalkState)
    requires PathInTree(a.tree, kroot, s) && a.at == Some(Pml4(kroot)) && Pd(kroot, s.pi, s.pdi) in a.tree
    requires StepTo(total, s.pi, true, a, b, true) && StepTo(total, s.pdi, true, b, c, true)
    requires StepTo(total, s.pdi2, true, c, d, false)
    ensures d.tree == a.tree && d.lost == a.lost && d.used == a.used
  {
    hide NextFrame;
  }

  /** elf_load reaches the page table exactly when UserReaches says so, and then has taken exactly
      the frames that were missing. */
  lemma UserWalkEnds(total: nat, root: nat, s: Slot, a: WalkState, b: WalkState, c: WalkState, d: WalkState)
    requires PathInTree(a.tree, root, s) && a.at == Some(Pml4(root))
    requires StepTo(total, s.pi, false, a, b, true) && StepTo(total, s.pdi, false, b, c, true)
    requires StepTo(total, s.pdi2, false, c, d, true)
    ensures d.at == if UserReaches(a.tree, root, a.used, total, s) then Some(PtOf(root, s)) else None
    ensures d.at.Some? ==> d.lost == a.lost
    ensures d.at.Some? ==> d.tree == WalkTree(a.tree, root, a.used, total, s) && d.used == WalkUsed(a.tree, root, a.used, total, s)
  {
    hide NextFrame;
  }

  /** While the upper tables are all direct, no link goes astray and no frame is lost. */
  ghost predicate NotAstray(root: nat, lost: set<nat>, a: WalkState) {
    && (a.at.Some? ==> a.at.value in a.tree && a.at.value.root == root)
    && (UpperTablesDirect(a.tree, root) ==> a.lost == lost && a.at.Some?)
  }

  lemma StepNotAstray(total: nat, i: Index, root: nat, lost: set<nat>, a: WalkState, b: WalkState, ok: bool)
    requires StepTo(total, i, false, a, b, ok) && NotAstray(root, lost, a)
    requires a.at.Some? ==> !a.at.value.Pt? && !a.at.value.Leaf?
    ensures UpperTablesDirect(b.tree, root) ==> b.lost == lost
    ensures ok ==> NotAstray(root, lost, b)
  {
    hide NextFrame;
    if UpperTablesDirect(b.tree, root) {
      assert UpperTablesDirect(a.tree, root) by {
        forall n | n in a.tree && n.root == root && !n.Pt? && !n.Leaf? ensures a.tree[n] < 511 {
          assert a.at.Some? && !a.at.value.Leaf? && a.at.value in a.tree ==> n in b.tree && b.tree[n] == a.tree[n];
        }
      }
    }
  }

  /** A step below a node of `root` changes no other address space. */
  lemma StepElsewhere(total: nat, i: Index, viaScratch: bool, root: nat, a: WalkState, b: WalkState, ok: bool)
    requires StepTo(total, i, viaScratch, a, b, ok)
    requires a.at.Some? ==> !a.at.value.Leaf? && a.at.value in a.tree && a.at.value.root == root
    ensures WithoutRoot(b.tree, root) == WithoutRoot(a.tree, root)
  {
    hide NextFrame;
  }
}
