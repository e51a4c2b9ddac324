/** The pages under the heap: which frames they are mapped to, and what growing them costs
    (src/mm/heap.c:50-66 with src/mm/paging.c:133-177). */
module HeapBacking {
  import opened Pmm
  import opened PageTables
  import opened Window
  import opened Leaves
  import opened Walks
  import opened HeapModel
  import Paging

  /** Up to here every page table of the heap hangs below one page directory of the kernel image. */
  const HEAP_LIMIT := 0xFFFF_FFFF_C000_0000
  const MAX_HEAP_PAGES := 0x3_FE00

  function PageAddr(k: nat): nat { HEAP_START + k * FRAME_SIZE }

  /** Page k of the heap is mapped, writable and for user mode too, to frames[k]; these frames are
      different, in use, and neither tables nor lost. */
  ghost predicate Backing(mem: Memory, kroot: nat, tree: Tree, lost: set<nat>, used: set<nat>, frames: seq<nat>) {
    && |frames| <= MAX_HEAP_PAGES && |mem| <= 0x10_0000_0000 && Distinct(frames)
    && (forall k :: 0 <= k < |frames| ==> PageMapped(mem, kroot, k, frames[k]) && frames[k] in Foreign(tree, lost, used))
  }

  ghost predicate PageMapped(mem: Memory, kroot: nat, k: nat, f: nat) {
    f < 0x10_0000_0000 && LeafEntry(mem, kroot, SlotOf(PageAddr(k))) == Entry(f, RW_USER)
  }

  lemma HeapSlot(k: nat)
    requires k < MAX_HEAP_PAGES
    ensures PageAddr(k) < HEAP_LIMIT && PageAddr(k) % FRAME_SIZE == 0
    ensures SlotOf(PageAddr(k)) == Slot(511, 510, 1 + k / 512, k % 512)
  {
    var p := 0xF_FFFF_FFF8_0200 + k;
    assert PageAddr(k) == p * FRAME_SIZE;
    SlotFromPage(PageAddr(k), p);
    hide SlotOf;
    PageDigits(k);
  }

  lemma PageDigits(k: nat)
    requires k < MAX_HEAP_PAGES
    ensures var p := 0xF_FFFF_FFF8_0200 + k;
            p / 0x800_0000 % 512 == 511 && p / 0x4_0000 % 512 == 510 && p / 0x200 % 512 == 1 + k / 512 && p % 512 == k % 512
  {
    var p := 0xF_FFFF_FFF8_0200 + k;
    assert p / 0x800_0000 == 0x1FF_FFFF;
    assert p / 0x4_0000 == 0x3_FFFF_FFFE;
    assert p == 0x200 * (0x7FF_FFFF_FC01 + k / 512) + k % 512;
  }

  lemma HeapSlotsDiffer(j: nat, k: nat)
    requires j < MAX_HEAP_PAGES && k < MAX_HEAP_PAGES && j != k
    ensures SlotOf(PageAddr(j)) != SlotOf(PageAddr(k)) && SlotOf(PageAddr(j)) != SCRATCH_SLOT
  {
    hide SlotOf, PageAddr;
    HeapSlot(j);
    HeapSlot(k);
  }

  ghost predicate HeapPageKept(mem: Memory, mem': Memory, kroot: nat, k: nat) {
    LeafEntry(mem', kroot, SlotOf(PageAddr(k))) == LeafEntry(mem, kroot, SlotOf(PageAddr(k)))
  }

  /** The kernel translates every possible heap page as before. */
  ghost predicate HeapLeavesKept(mem: Memory, mem': Memory, kroot: nat) {
    forall k: nat :: k < MAX_HEAP_PAGES ==> HeapPageKept(mem, mem', kroot, k)
  }

  lemma AllLeavesKept(mem: Memory, mem': Memory, kroot: nat, tree: Tree)
    requires LeavesKept(mem, mem', tree) && Pml4(kroot) in tree
    ensures HeapLeavesKept(mem, mem', kroot)
  {
    hide LeafEntry, SlotOf, PageAddr, LeavesKept;
    forall k: nat | k < MAX_HEAP_PAGES ensures HeapPageKept(mem, mem', kroot, k) {
      HeapSlot(k);
      KeptAt(mem, mem', tree, kroot, SlotOf(PageAddr(k)));
    }
  }

  /** Changing one page outside the heap's gigabyte of pages. */
  lemma OtherLeafSet(mem: Memory, mem': Memory, kroot: nat, tree: Tree, s: Slot, w: Word)
    requires LeafSet(mem, mem', kroot, tree, kroot, s, w) && Pml4(kroot) in tree
    requires !InHeapRange(s)
    ensures HeapLeavesKept(mem, mem', kroot)
  {
    hide LeafEntry, SlotOf, PageAddr;
    forall k: nat | k < MAX_HEAP_PAGES ensures HeapPageKept(mem, mem', kroot, k) {
      HeapSlot(k);
    }
  }

  /** The slots that the heap may ever occupy. */
  predicate InHeapRange(s: Slot) {
    s.pi == 511 && s.pdi == 510 && s.pdi2 > 0
  }

  /** Whatever leaves the kernel's translations and the frames of the heap alone keeps the heap
      backed: this covers every operation of Paging and Elf on other pages. */
  lemma BackingKept(mem: Memory, mem': Memory, kroot: nat, tree: Tree, tree': Tree, lost: set<nat>, lost': set<nat>,
                    used: set<nat>, used': set<nat>, frames: seq<nat>)
    requires Backing(mem, kroot, tree, lost, used, frames) && HeapLeavesKept(mem, mem', kroot)
    requires Foreign(tree, lost, used) <= Foreign(tree', lost', used') && |mem'| <= 0x10_0000_0000
    ensures Backing(mem', kroot, tree', lost', used', frames)
  {
    hide LeafEntry, SlotOf, Foreign, Entry, PageAddr;
    forall k | 0 <= k < |frames| ensures PageMapped(mem', kroot, k, frames[k]) {
      assert PageMapped(mem, kroot, k, frames[k]);
      assert HeapPageKept(mem, mem', kroot, k);
    }
  }

  /** One more page. */
  lemma BackingNext(mem: Memory, mem': Memory, kroot: nat, tree: Tree, tree': Tree, lost: set<nat>, lost': set<nat>,
                    used: set<nat>, used': set<nat>, frames: seq<nat>, f: nat)
    requires Backing(mem, kroot, tree, lost, used, frames) && Pml4(kroot) in tree && |frames| < MAX_HEAP_PAGES
    requires f < 0x10_0000_0000 && LeafSet(mem, mem', kroot, tree, kroot, SlotOf(PageAddr(|frames|)), Entry(f, RW_USER))
    requires f !in Foreign(tree, lost, used) && |mem'| <= 0x10_0000_0000
    requires Foreign(tree', lost', used') == Foreign(tree, lost, used) + {f}
    ensures Backing(mem', kroot, tree', lost', used', frames + [f])
  {
    hide LeafEntry, SlotOf, Foreign, Entry, PageAddr;
    var n := |frames|;
    HeapSlot(n);
    forall k | 0 <= k < n ensures PageMapped(mem', kroot, k, frames[k]) {
      assert PageMapped(mem, kroot, k, frames[k]);
      HeapSlotsDiffer(k, n);
    }
    assert PageMapped(mem', kroot, n, f);
    assert frames[..] == frames;
    forall k | 0 <= k < n + 1
      ensures PageMapped(mem', kroot, k, (frames + [f])[k]) && (frames + [f])[k] in Foreign(tree', lost', used')
    {
    }
  }

  /** What one page costs: its own frame and the tables that were installed for it. */
  ghost predicate Costs(tree: Tree, used: set<nat>, tree': Tree, used': set<nat>, pages: nat) {
    && tree.Values <= tree'.Values && used <= used'
    && |used'| == |used| + pages + |tree'.Values - tree.Values|
  }

  /** Page tables and frame bookkeeping at one moment. */
  datatype VmState = VmState(mem: Memory, tree: Tree, lost: set<nat>, used: set<nat>)

  ghost function StateOf(vm: Paging.AddressSpaces): VmState
    reads vm, vm.pmm
  {
    VmState(vm.mem, vm.tree, vm.lost, vm.pmm.used)
  }

  /** From a to b the heap got `pages` more pages: nothing was lost, no table moved, the kernel's
      half stays shared, the scratch page is not opened, and at most two frames went to each page. */
  ghost predicate Grew(kroot: nat, a: VmState, b: VmState, pages: nat) {
    && b.lost == a.lost && Paging.TreeGrows(a.tree, b.tree) && Paging.KernelEntryKept(a.mem, b.mem, kroot)
    && ScratchStays(a.mem, b.mem, kroot)
    && Costs(a.tree, a.used, b.tree, b.used, pages) && TookLow(a.used, b.used, 2 * pages)
  }

  lemma GrewNothing(kroot: nat, a: VmState)
    requires kroot < |a.mem|
    ensures Grew(kroot, a, a, 0)
  {
    hide TookLow, LeafEntry;
    TookNone(a.used, 0);
    assert a.tree.Values - a.tree.Values == {};
  }

  lemma CostsTwice(a: VmState, b: VmState, c: VmState, m: nat, n: nat)
    requires Costs(a.tree, a.used, b.tree, b.used, m) && Costs(b.tree, b.used, c.tree, c.used, n)
    ensures Costs(a.tree, a.used, c.tree, c.used, m + n)
  {
    var x, y, z := a.tree.Values, b.tree.Values, c.tree.Values;
    assert z - x == (y - x) + (z - y);
  }

  lemma GrewTwice(kroot: nat, a: VmState, b: VmState, c: VmState, m: nat, n: nat)
    requires Grew(kroot, a, b, m) && Grew(kroot, b, c, n)
    ensures Grew(kroot, a, c, m + n)
  {
    hide TookLow, Costs, LeafEntry;
    TookTwice(a.used, b.used, c.used, 2 * m, 2 * n);
    CostsTwice(a, b, c, m, n);
    GrowsTwice(a.tree, b.tree, c.tree);
    hide Paging.TreeGrows;
  }

  lemma GrowsTwice(a: Tree, b: Tree, c: Tree)
    requires Paging.TreeGrows(a, b) && Paging.TreeGrows(b, c)
    ensures Paging.TreeGrows(a, c)
  {
  }

  lemma PageCosts(tree: Tree, tree': Tree, lost: set<nat>, used: set<nat>, used': set<nat>, f: nat)
    requires Held(tree, lost, used) && Held(tree', lost, used') && Paging.TreeGrows(tree, tree')
    requires f !in used && Foreign(tree', lost, used') == Foreign(tree, lost, used) + {f}
    ensures Costs(tree, used, tree', used', 1)
  {
    ValuesGrow(tree, tree');
    HeldApart(tree, lost, used);
    HeldApart(tree', lost, used');
    hide Held, Paging.TreeGrows;
    SetCost(used, used', tree.Values, tree'.Values, lost, Foreign(tree, lost, used), f);
  }

  lemma ValuesGrow(tree: Tree, tree': Tree)
    requires Paging.TreeGrows(tree, tree')
    ensures tree.Values <= tree'.Values
  {
    forall g | g in tree.Values ensures g in tree'.Values {
      var n :| n in tree && tree[n] == g;
      assert tree'[n] == g;
    }
  }

  lemma SetCost(used: set<nat>, used': set<nat>, old0: set<nat>, new0: set<nat>, lost: set<nat>, foreign: set<nat>, f: nat)
    requires foreign == used - old0 - lost && old0 <= used && lost <= used && f !in used
    requires foreign + {f} == used' - new0 - lost && new0 <= used' && lost <= used' && lost !! new0 && old0 <= new0
    ensures used <= used' && |used'| == |used| + 1 + |new0 - old0|
  {
    assert used' == used + {f} + (new0 - old0);
    assert f !in new0 by { assert f in used' - new0 - lost; }
    assert forall g :: g in new0 ==> g !in foreign + {f};
    assert (used + {f}) !! (new0 - old0);
  }

  /** In the heap's gigabyte the direct-window condition of paging_map_page always holds. */
  lemma HeapReaches(mem: Memory, kroot: nat, ptHi: nat, tree: Tree, used: set<nat>, total: nat, k: nat)
    requires TablesOk(mem, kroot, ptHi, tree) && k < MAX_HEAP_PAGES
    ensures Pd(kroot, SlotOf(PageAddr(k)).pi, SlotOf(PageAddr(k)).pdi) in tree
    ensures MapReaches(tree, kroot, used, total, SlotOf(PageAddr(k)))
    ensures forall w: Word :: KeepsWindow(SlotOf(PageAddr(k)), w)
  {
    hide SlotOf, PageAddr, Shaped, Linked, NextFrame, Entry;
    HeapSlot(k);
  }

  /** The page table that heap page k needs is there. */
  ghost predicate TableThere(tree: Tree, kroot: nat, k: nat) {
    Missing(tree, kroot, SlotOf(PageAddr(k))) == 0
  }

  /** Growing by `pages` pages from page n makes no table in frame 511: no table is missing, or the
      frames that pages and tables can take are clear of it.  A page itself may lie there. */
  ghost predicate GrowthAvoids511(tree: Tree, kroot: nat, used: set<nat>, total: nat, n: nat, pages: nat) {
    (forall k :: n <= k < n + pages ==> TableThere(tree, kroot, k)) || Avoids511(used, total, 2 * pages)
  }

  lemma FirstPageAvoids511(tree: Tree, kroot: nat, used: set<nat>, total: nat, n: nat, pages: nat)
    requires GrowthAvoids511(tree, kroot, used, total, n, pages) && pages > 0
    ensures GrowthAvoids511(tree, kroot, used, total, n, 1)
  {
    hide Avoids511, TableThere;
    if Avoids511(used, total, 2 * pages) { FewerAvoid511(used, total, 2, 2 * pages); }
  }

  lemma OtherPagesAvoid511(tree: Tree, tree': Tree, kroot: nat, used: set<nat>, used': set<nat>, total: nat, n: nat, pages: nat)
    requires GrowthAvoids511(tree, kroot, used, total, n, pages) && pages > 0
    requires Paging.TreeGrows(tree, tree') && TookLow(used, used', 2)
    ensures GrowthAvoids511(tree', kroot, used', total, n + 1, pages - 1)
  {
    hide Avoids511, SlotOf, PageAddr, TookLow;
    if Avoids511(used, total, 2 * pages) {
      StillAvoids511(used, used', total, 2, 2 * (pages - 1));
    } else {
      forall k | n + 1 <= k < n + pages ensures TableThere(tree', kroot, k) {
        assert TableThere(tree, kroot, k);
      }
    }
  }

  /** With the page's own frame taken, the table's frame is still clear. */
  lemma TableAvoids511(tree: Tree, kroot: nat, used: set<nat>, used': set<nat>, total: nat, k: nat)
    requires GrowthAvoids511(tree, kroot, used, total, k, 1) && TookLow(used, used', 1)
    requires Pd(kroot, SlotOf(PageAddr(k)).pi, SlotOf(PageAddr(k)).pdi) in tree
    ensures Missing(tree, kroot, SlotOf(PageAddr(k))) <= 1
    ensures Avoids511(used', total, Missing(tree, kroot, SlotOf(PageAddr(k))))
  {
    hide Spare, SlotOf, PageAddr, TookLow;
    if Avoids511(used, total, 2) {
      StillAvoids511(used, used', total, 1, 1);
    } else {
      assert TableThere(tree, kroot, k);
    }
  }

  lemma GrewAvoids511(kroot: nat, a: VmState, b: VmState, total: nat, n: nat, pages: nat)
    requires GrowthAvoids511(a.tree, kroot, a.used, total, n, pages) && pages > 0 && Grew(kroot, a, b, 1)
    ensures GrowthAvoids511(b.tree, kroot, b.used, total, n + 1, pages - 1)
  {
    hide GrowthAvoids511, TookLow, ScratchStays;
    OtherPagesAvoid511(a.tree, b.tree, kroot, a.used, b.used, total, n, pages);
  }
}
