/** The tables that paging_init fills in (src/mm/paging.c:74-111). */
module BootTables {
  import opened Wrappers
  import opened Pmm
  import opened PageTables
  import opened Window
  import opened Leaves

  const HIGHER_HALF_BASE := 0xFFFF_FFFF_8000_0000
  const IDENTITY_BYTES := 0x40_0000
  /** Where the addresses with the upper 17 bits set begin. */
  const UPPER_HALF := 0xFFFF_8000_0000_0000

  /** The frames of the static tables of the kernel image. */
  datatype Statics = Statics(pml4: nat, pdptId: nat, pdptHi: nat, pdId: nat, pdHi: nat,
                             ptHi: nat, ptId0: nat, ptId1: nat)

  function StaticFrames(t: Statics): seq<nat> {
    [t.pml4, t.pdptId, t.pdptHi, t.pdId, t.pdHi, t.ptHi, t.ptId0, t.ptId1]
  }

  /** Eight different frames of the part of the window that shows itself. */
  predicate StaticsDistinct(t: Statics) {
    var s := StaticFrames(t);
    && 0 < t.pml4 < 511 && 0 < t.pdptId < 511 && 0 < t.pdptHi < 511 && 0 < t.pdId < 511
    && 0 < t.pdHi < 511 && 0 < t.ptHi < 511 && 0 < t.ptId0 < 511 && 0 < t.ptId1 < 511
    && (forall i, j :: 0 <= i < j < 8 ==> s[i] != s[j])
  }

  predicate StaticsOk(t: Statics, used: set<nat>) {
    StaticsDistinct(t) && forall i :: 0 <= i < 8 ==> StaticFrames(t)[i] in used
  }

  function BootTree(t: Statics): Tree {
    map[Pml4(t.pml4) := t.pml4,
        Pdpt(t.pml4, 0) := t.pdptId, Pd(t.pml4, 0, 0) := t.pdId,
        Pt(t.pml4, 0, 0, 0) := t.ptId0, Pt(t.pml4, 0, 0, 1) := t.ptId1,
        Pdpt(t.pml4, 511) := t.pdptHi, Pd(t.pml4, 511, 510) := t.pdHi,
        Pt(t.pml4, 511, 510, 0) := t.ptHi]
  }

  /** The five upper tables that paging_init links by hand, entry by entry. */
  predicate BootLinks(mem: Memory, t: Statics)
    requires 512 <= |mem| && StaticsDistinct(t)
  {
    && (forall i: Index :: mem[t.pml4][i] == if i == 0 then Entry(t.pdptId, RW) else if i == 511 then Entry(t.pdptHi, RW_USER) else 0)
    && (forall i: Index :: mem[t.pdptId][i] == if i == 0 then Entry(t.pdId, RW) else 0)
    && (forall i: Index :: mem[t.pdId][i] == if i == 0 then Entry(t.ptId0, RW) else if i == 1 then Entry(t.ptId1, RW) else 0)
    && (forall i: Index :: mem[t.pdptHi][i] == if i == 510 then Entry(t.pdHi, RW_USER) else 0)
    && (forall i: Index :: mem[t.pdHi][i] == if i == 0 then Entry(t.ptHi, RW_USER) else 0)
  }

  lemma StaticFramesAre(t: Statics)
    ensures var s := StaticFrames(t);
            && s[0] == t.pml4 && s[1] == t.pdptId && s[2] == t.pdptHi && s[3] == t.pdId
            && s[4] == t.pdHi && s[5] == t.ptHi && s[6] == t.ptId0 && s[7] == t.ptId1
  {
  }

  function BootNodes(t: Statics): seq<Node> {
    [Pml4(t.pml4), Pdpt(t.pml4, 0), Pdpt(t.pml4, 511), Pd(t.pml4, 0, 0), Pd(t.pml4, 511, 510),
     Pt(t.pml4, 511, 510, 0), Pt(t.pml4, 0, 0, 0), Pt(t.pml4, 0, 0, 1)]
  }

  lemma BootNodeIndex(t: Statics, n: Node) returns (k: nat)
    requires n in BootTree(t)
    ensures k < 8 && n == BootNodes(t)[k] && BootTree(t)[n] == StaticFrames(t)[k]
  {
    k := if n == Pml4(t.pml4) then 0 else if n == Pdpt(t.pml4, 0) then 1 else if n == Pdpt(t.pml4, 511) then 2
      else if n == Pd(t.pml4, 0, 0) then 3 else if n == Pd(t.pml4, 511, 510) then 4
      else if n == Pt(t.pml4, 511, 510, 0) then 5 else if n == Pt(t.pml4, 0, 0, 0) then 6 else 7;
  }

  lemma BootShaped(t: Statics, used: set<nat>)
    requires StaticsOk(t, used)
    ensures Shaped(t.pml4, BootTree(t))
  {
    var tree := BootTree(t);
    forall m, n | m in tree && n in tree && tree[m] == tree[n] ensures m == n {
      var j := BootNodeIndex(t, m);
      var k := BootNodeIndex(t, n);
      assert j == k;
    }
    forall n | n in tree ensures Placed(t.pml4, tree, n) {
      var k := BootNodeIndex(t, n);
    }
  }

  lemma BootLinked(mem: Memory, t: Statics)
    requires 512 <= |mem| && StaticsDistinct(t)
    requires BootLinks(mem, t)
    ensures Linked(mem, t.pml4, BootTree(t))
  {
    hide Entry;
    StaticFramesAre(t);
    var tree := BootTree(t);
    forall n, i: Index | n in tree && Owned(t.pml4, n, i)
      ensures tree[n] < |mem| && EntryLinks(t.pml4, mem[tree[n]][i], tree, Child(n, i))
    {
      var k := BootNodeIndex(t, n);
      var c := Child(n, i);
      if c in tree { var j := BootNodeIndex(t, c); }
    }
    forall n | n in tree ensures tree[n] < |mem| {
      var k := BootNodeIndex(t, n);
    }
    forall r | Pml4(r) in tree ensures r == t.pml4 {
      var k := BootNodeIndex(t, Pml4(r));
    }
  }

  lemma BootFrames(t: Statics, used: set<nat>)
    requires StaticsOk(t, used)
    ensures forall n :: n in BootTree(t) ==> BootTree(t)[n] in used && 0 < BootTree(t)[n] < 511
  {
    StaticFramesAre(t);
    forall n | n in BootTree(t) ensures BootTree(t)[n] in used && 0 < BootTree(t)[n] < 511 {
      var k := BootNodeIndex(t, n);
    }
  }

  lemma BootIsTree(mem: Memory, t: Statics, used: set<nat>)
    requires StaticsOk(t, used) && 512 <= |mem| <= NOWHERE
    requires BootLinks(mem, t)
    requires BootPages(mem, t)
    ensures TablesOk(mem, t.pml4, t.ptHi, BootTree(t)) && Held(BootTree(t), {}, used)
  {
    BootShaped(t, used);
    BootLinked(mem, t);
    BootFrames(t, used);
    hide Shaped, Linked, BootLinks, Entry, StaticsOk, BootPages, Shown;
    BootWindow(mem, t);
  }

  lemma BootWindow(mem: Memory, t: Statics)
    requires 512 <= |mem| && StaticsDistinct(t) && BootPages(mem, t)
    ensures forall i: Index :: Shown(mem, t.ptHi, i) == i
  {
    hide Entry;
    forall i: Index ensures Shown(mem, t.ptHi, i) == i {
      assert mem[t.ptHi][i] == Entry(i, RW_USER);
    }
  }

  /** The page tables that paging_init fills in its loops. */
  predicate BootPages(mem: Memory, t: Statics)
    requires 512 <= |mem| && StaticsDistinct(t)
  {
    && (forall i: Index :: mem[t.ptId0][i] == Entry(i, RW) && mem[t.ptId1][i] == Entry(512 + i, RW))
    && (forall i: Index :: mem[t.ptHi][i] == Entry(i, RW_USER))
  }

  lemma BootLeaf(mem: Memory, t: Statics, s: Slot)
    requires 512 <= |mem| && StaticsDistinct(t) && BootLinks(mem, t) && BootPages(mem, t)
    ensures LeafEntry(mem, t.pml4, s) ==
      if s.pi == 0 && s.pdi == 0 && s.pdi2 == 0 then Entry(s.pti, RW)
      else if s.pi == 0 && s.pdi == 0 && s.pdi2 == 1 then Entry(512 + s.pti, RW)
      else if s.pi == 511 && s.pdi == 510 && s.pdi2 == 0 then Entry(s.pti, RW_USER)
      else 0
  {
    hide Entry;
  }

  /** The first 4 MiB stand for themselves. */
  lemma IdentityIsMapped(mem: Memory, t: Statics, va: nat)
    requires 512 <= |mem| && StaticsDistinct(t) && BootLinks(mem, t) && BootPages(mem, t) && va < IDENTITY_BYTES
    ensures Translate(mem, t.pml4, va) == Some(va)
  {
    hide Entry, LeafEntry, BootLinks, BootPages;
    BootLeaf(mem, t, SlotOf(va));
    var p := va / FRAME_SIZE;
    SlotFromPage(va, p);
    assert SlotOf(va) == Slot(0, 0, p / 512, p % 512);
  }

  /** User code gets through nothing outside the kernel's half. */
  lemma NoUser(mem: Memory, t: Statics, s: Slot, w: bool)
    requires 512 <= |mem| && StaticsDistinct(t) && BootLinks(mem, t) && s.pi < 511
    ensures !UserMay(mem, t.pml4, s, w)
  {
    hide Entry, LeafEntry, BootLinks;
    TopEntry(mem, t, s.pi);
    NullPermitsNothing();
  }

  lemma TopEntry(mem: Memory, t: Statics, i: Index)
    requires 512 <= |mem| && StaticsDistinct(t) && BootLinks(mem, t) && i < 511
    ensures mem[t.pml4][i] == if i == 0 then Entry(t.pdptId, RW) else 0
  {
    hide Entry;
  }

  /** The window stands for the first 2 MiB. */
  lemma WindowIsMapped(mem: Memory, t: Statics, va: nat)
    requires 512 <= |mem| && StaticsDistinct(t) && BootLinks(mem, t) && BootPages(mem, t)
    requires HIGHER_HALF_BASE <= va < HIGHER_HALF_BASE + WINDOW_BYTES
    ensures Translate(mem, t.pml4, va) == Some(va - HIGHER_HALF_BASE)
  {
    hide Entry, LeafEntry;
    BootLeaf(mem, t, SlotOf(va));
    var x := va - HIGHER_HALF_BASE;
    var i := x / FRAME_SIZE;
    var p := 0xF_FFFF_FFF8_0000 + i;
    assert va / FRAME_SIZE == p;
    SlotFromPage(va, p);
    WindowDigits(i);
  }

  lemma WindowDigits(i: nat)
    requires i < 512
    ensures var p := 0xF_FFFF_FFF8_0000 + i;
            p / 0x800_0000 % 512 == 511 && p / 0x4_0000 % 512 == 510 && p / 0x200 % 512 == 0 && p % 512 == i
  {
    var p := 0xF_FFFF_FFF8_0000 + i;
    assert p / 0x800_0000 == 0x1FF_FFFF;
    assert p / 0x4_0000 == 0x3_FFFF_FFFE;
    assert p == 0x200 * 0x7FF_FFFF_FC00 + i;
  }

  /** Nothing else is mapped: neither in the lower half nor in the upper. */
  lemma NothingElseIsMapped(mem: Memory, t: Statics, va: nat)
    requires 512 <= |mem| && StaticsDistinct(t) && BootLinks(mem, t) && BootPages(mem, t) && va < U64_LIMIT
    requires IDENTITY_BYTES <= va < USER_ADDR_LIMIT || (UPPER_HALF <= va && !(HIGHER_HALF_BASE <= va < HIGHER_HALF_BASE + WINDOW_BYTES))
    ensures Translate(mem, t.pml4, va) == None
  {
    hide Entry, LeafEntry, SlotOf, BootLinks, BootPages;
    BootLeaf(mem, t, SlotOf(va));
    OtherSlot(va);
    NullPermitsNothing();
  }

  lemma OtherSlot(va: nat)
    requires va < U64_LIMIT
    requires IDENTITY_BYTES <= va < USER_ADDR_LIMIT || (UPPER_HALF <= va && !(HIGHER_HALF_BASE <= va < HIGHER_HALF_BASE + WINDOW_BYTES))
    ensures var s := SlotOf(va);
            !(s.pi == 0 && s.pdi == 0 && s.pdi2 < 2) && !(s.pi == 511 && s.pdi == 510 && s.pdi2 == 0)
  {
    hide SlotOf;
    SlotRecomposed(va);
    if va < USER_ADDR_LIMIT {
      assert va % 0x1_0000_0000_0000 == va;
    } else {
      assert va % 0x1_0000_0000_0000 == va - 0xFFFF_0000_0000_0000;
    }
  }

  /** The indices of an address are its digits: put together again they give its low 48 bits. */
  lemma SlotRecomposed(va: nat)
    ensures var s := SlotOf(va);
            va % 0x1_0000_0000_0000 ==
              s.pi * 0x80_0000_0000 + s.pdi * 0x4000_0000 + s.pdi2 * 0x20_0000 + s.pti * 0x1000 + va % 0x1000
  {
    var p := va / FRAME_SIZE;
    SlotFromPage(va, p);
    var a, b, c := p / 512, p / 512 / 512, p / 512 / 512 / 512;
    assert p / 0x4_0000 == b && p / 0x800_0000 == c && p / 0x200 == a;
    assert va == p * 0x1000 + va % 0x1000;
    assert p == a * 512 + p % 512 && a == b * 512 + a % 512 && b == c * 512 + b % 512 && c == c / 512 * 512 + c % 512;
    var low := (c % 512) * 0x80_0000_0000 + (b % 512) * 0x4000_0000 + (a % 512) * 0x20_0000 + (p % 512) * 0x1000 + va % 0x1000;
    assert va == c / 512 * 0x1_0000_0000_0000 + low;
    assert 0 <= low < 0x1_0000_0000_0000;
  }

  lemma BootTranslates(mem: Memory, t: Statics)
    requires 512 <= |mem| && StaticsDistinct(t) && BootLinks(mem, t) && BootPages(mem, t)
    ensures forall va: nat {:trigger Translate(mem, t.pml4, va)} :: va < IDENTITY_BYTES ==> Translate(mem, t.pml4, va) == Some(va)
    ensures forall s: Slot, w: bool {:trigger UserMay(mem, t.pml4, s, w)} :: s.pi < 511 ==> !UserMay(mem, t.pml4, s, w)
    ensures forall va: nat {:trigger Translate(mem, t.pml4, va)} :: HIGHER_HALF_BASE <= va < HIGHER_HALF_BASE + WINDOW_BYTES ==>
              Translate(mem, t.pml4, va) == Some(va - HIGHER_HALF_BASE)
    ensures forall va: nat {:trigger Translate(mem, t.pml4, va)} ::
              IDENTITY_BYTES <= va < USER_ADDR_LIMIT
              || (UPPER_HALF <= va < U64_LIMIT && !(HIGHER_HALF_BASE <= va < HIGHER_HALF_BASE + WINDOW_BYTES)) ==>
              Translate(mem, t.pml4, va) == None
  {
    hide BootLinks, BootPages, StaticsDistinct, Translate, UserMay, SlotOf;
    forall va: nat | va < IDENTITY_BYTES ensures Translate(mem, t.pml4, va) == Some(va) {
      IdentityIsMapped(mem, t, va);
    }
    forall s: Slot, w: bool | s.pi < 511 ensures !UserMay(mem, t.pml4, s, w) {
      NoUser(mem, t, s, w);
    }
    forall va: nat | HIGHER_HALF_BASE <= va < HIGHER_HALF_BASE + WINDOW_BYTES
      ensures Translate(mem, t.pml4, va) == Some(va - HIGHER_HALF_BASE)
    {
      WindowIsMapped(mem, t, va);
    }
    forall va: nat | IDENTITY_BYTES <= va < USER_ADDR_LIMIT
                     || (UPPER_HALF <= va < U64_LIMIT && !(HIGHER_HALF_BASE <= va < HIGHER_HALF_BASE + WINDOW_BYTES))
      ensures Translate(mem, t.pml4, va) == None
    {
      NothingElseIsMapped(mem, t, va);
    }
  }
}
