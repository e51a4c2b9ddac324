/** Runs in which the kernel's operations return as if all were well and do not do what their
    callers expect, each from a state that a boot can lead to.  They are runs of the interfaces; not
    all of them have a caller at present. */
module Failures {
  import opened Wrappers
  import opened Bits
  import opened Multiboot
  import opened Pmm
  import opened PageTables
  import opened Window
  import opened BootTables
  import opened Leaves
  import opened Subtrees
  import opened Walks
  import opened Paging
  import opened Bytes
  import opened ElfImage
  import opened Elf
  import opened Spaces
  import opened Tasks
  import opened Scheduler

  // ----- every frame of the window taken -----

  /** Every frame that the window can show at its own page is in use. */
  predicate LowTaken(used: set<nat>) {
    forall f: nat :: f < 512 ==> f in used
  }

  /** The free frames. */
  function Left(used: set<nat>, total: nat): set<nat> { FrameRange(0, total) - used }

  /** A kernel image whose bitmap, which follows it, reaches frame 511 takes them all at boot. */
  lemma KernelTakesLow(mbi: seq<U32>, kernelEnd: nat, total: nat, used: set<nat>)
    requires WellFormed(mbi) && MapUsable(mbi) && Initialised(mbi, kernelEnd, total, used)
    requires MIB <= kernelEnd && total >= 512 && kernelEnd + BitmapBytes(total) > 511 * FRAME_SIZE
    ensures LowTaken(used)
  {
    hide Reserved, HighestEnd, BitmapBytes;
  }

  /** Some such boots have the whole image inside the window: with 4 GiB of memory, whose bitmap takes
      128 KiB, all that end at 1920 KiB or above. */
  lemma BitmapReaches(kernelEnd: nat)
    requires 1920 * 1024 <= kernelEnd <= WINDOW_BYTES
    ensures kernelEnd + BitmapBytes(MAX_FRAMES) > 511 * FRAME_SIZE
  {
  }

  lemma StillFrames(used0: set<nat>, used1: set<nat>, total: nat, n: nat)
    requires |used1 - used0| <= n < |Left(used0, total)|
    ensures !Exhausted(used1, total)
  {
    hide NextFrame, FrameRange;
    ExhaustedMeans(used1, total);
    if Exhausted(used1, total) {
      assert Left(used0, total) <= used1 - used0;
      SubsetCount(Left(used0, total), used1 - used0);
    }
  }

  lemma NextIsHigh(used: set<nat>, total: nat)
    requires LowTaken(used) && |Left(used, total)| > 0
    ensures 512 <= NextFrame(used, total) < total
  {
    hide NextFrame, FrameRange;
    assert used - used == {};
    StillFrames(used, used, total, 0);
  }

  lemma OneFrameLess(used: set<nat>, total: nat, f: nat)
    requires f < total && f !in used
    ensures |Left(used + {f}, total)| == |Left(used, total)| - 1
  {
    assert Left(used, total) == Left(used + {f}, total) + {f};
  }

  /** With the tables of paging_init, three frames to spare, but none of them in the window:
      paging_map_page has frames enough for the three tables of a new top-level entry, and yet its
      entry ends up in a table that no root reaches. */
  lemma MapCanMiss(t: Statics, used: set<nat>, total: nat)
    requires StaticsOk(t, used) && LowTaken(used) && |Left(used, total)| >= 3
    ensures Missing(BootTree(t), t.pml4, Slot(1, 0, 0, 0)) == 3
    ensures !MapReaches(BootTree(t), t.pml4, used, total, Slot(1, 0, 0, 0))
  {
    hide NextFrame, FrameRange;
    NextIsHigh(used, total);
  }

  /** Such a state: the static tables at 1 MiB, 2 MiB in use, 4 MiB in all. */
  lemma CrowdedBoot()
    ensures StaticsOk(Statics(256, 257, 258, 259, 260, 261, 262, 263), FrameRange(0, 512))
    ensures LowTaken(FrameRange(0, 512)) && |Left(FrameRange(0, 512), 1024)| == 512
  {
    assert Left(FrameRange(0, 512), 1024) == FrameRange(512, 1024);
    FrameRangeSize(512, 1024);
  }

  /** paging_init, and paging_map_page for the page at 0x80_0000_0000: it returns 0 and the page is
      not mapped. */
  method MapMisses(pmm: FrameAllocator, ram: Memory, t: Statics, phys: nat, flags: nat) returns (rc: int, vm: AddressSpaces)
    requires pmm.Valid() && pmm.totalFrames <= |ram| <= 0x10_0000_0000 && 512 <= |ram| && StaticsOk(t, pmm.used)
    requires LowTaken(pmm.used) && |Left(pmm.used, pmm.totalFrames)| >= 3
    requires phys < U64_LIMIT && flags < FRAME_SIZE
    modifies pmm, pmm.bitmap
    ensures rc == 0 && vm.pmm == pmm && LeafEntry(vm.mem, vm.kroot, SlotOf(0x80_0000_0000)) == 0
  {
    hide AddressSpaces.Valid, BootTree, FrameAllocator.Valid, StaticsOk, Left, MapReaches, TookLow, LeafEntry, Missing, Exhausted,
         LeavesKept, LeafSet, FramesKept, TreeGrows, Foreign, WithoutRoot, SameRoots, Spare;
    vm := new AddressSpaces(pmm, ram, t);
    ghost var used := pmm.used;
    assert SlotOf(0x80_0000_0000) == Slot(1, 0, 0, 0);
    MapCanMiss(t, used, pmm.totalFrames);
    rc := vm.MapPage(0x80_0000_0000, phys, flags);
    if rc == -1 {
      TookCount(used, pmm.used, 2);
      StillFrames(used, pmm.used, pmm.totalFrames, 2);
    }
  }

  lemma TookCount(used0: set<nat>, used1: set<nat>, n: nat)
    requires TookLow(used0, used1, n)
    ensures |used1 - used0| <= n
  {
  }

  /** paging_create_user_space twice, the second time from the first new address space: the second
      root is an empty table without the kernel's half. */
  method SecondSpaceHasNoKernel(pmm: FrameAllocator, ram: Memory, t: Statics) returns (pa: nat, vm: AddressSpaces)
    requires pmm.Valid() && pmm.totalFrames <= |ram| <= 0x10_0000_0000 && 512 <= |ram| && StaticsOk(t, pmm.used)
    requires LowTaken(pmm.used) && |Left(pmm.used, pmm.totalFrames)| >= 2
    modifies pmm, pmm.bitmap
    ensures pa != 0 && vm.pmm == pmm && pa / FRAME_SIZE < |vm.mem| && vm.mem[pa / FRAME_SIZE] == ZeroFrame()
    ensures forall s: Slot :: LeafEntry(vm.mem, pa / FRAME_SIZE, s) == 0
  {
    hide AddressSpaces.Valid, BootTree, FrameAllocator.Valid, StaticsOk, Left, TookLow, LeafEntry, Exhausted,
         LeavesKept, Foreign, Spare, NextFrame;
    vm := new AddressSpaces(pmm, ram, t);
    RootsSmall(t, pmm.used);
    ghost var used, total := pmm.used, pmm.totalFrames;
    ghost var f := NextFrame(used, total);
    NextIsHigh(used, total);
    pa := vm.CreateUserSpace();
    OneFrameLess(used, total, f);
    vm.LoadCr3(pa / FRAME_SIZE);
    NextIsHigh(pmm.used, total);
    pa := vm.CreateUserSpace();
    EmptyRoot(vm.mem, pa / FRAME_SIZE);
  }

  lemma RootsSmall(t: Statics, used: set<nat>)
    requires StaticsOk(t, used)
    ensures t.pml4 < 511 && Pml4(t.pml4) in BootTree(t)
  {
  }

  lemma EmptyRoot(mem: Memory, f: nat)
    requires f < |mem| && mem[f] == ZeroFrame()
    ensures forall s: Slot :: LeafEntry(mem, f, s) == 0
  {
    forall s: Slot ensures LeafEntry(mem, f, s) == 0 {
      assert Cell(mem, f, s.pi) == 0;
    }
  }

  /** virt_for_phys of any frame outside the window, and then of frame 511: the second pointer shows
      the first frame. */
  method Page511ShowsAnother(pmm: FrameAllocator, ram: Memory, t: Statics, pa: nat) returns (h: Index, vm: AddressSpaces)
    requires pmm.Valid() && pmm.totalFrames <= |ram| <= 0x10_0000_0000 && 512 <= |ram| && StaticsOk(t, pmm.used)
    requires 0 in pmm.used && WINDOW_BYTES <= pa < U64_LIMIT
    ensures vm.ptHi < |vm.mem| && h == SCRATCH && Shown(vm.mem, vm.ptHi, h) == pa / FRAME_SIZE != 511
  {
    hide AddressSpaces.Valid, BootTree, FrameAllocator.Valid, StaticsOk, TablesOk, Held, Shown;
    vm := new AddressSpaces(pmm, ram, t);
    vm.Parts();
    h := vm.VirtForPhys(pa);
    h := vm.VirtForPhys(511 * FRAME_SIZE);
  }

  // ----- elf_load -----

  /** A new address space whose top-level table lies outside the window, and no frame of the window
      left: the first round of elf_load goes astray. */
  lemma FirstRoundMisses(t: Statics, used: set<nat>, total: nat, f: nat, w: PageLoad)
    requires StaticsOk(t, used) && LowTaken(used) && f >= 512 && |Left(used, total)| >= 2
    ensures !RoundReaches(f, total, Ledger(BootTree(t)[Pml4(f) := f], used), w)
  {
    hide NextFrame, FrameRange, SlotOf;
    var f0 := NextFrame(used, total);
    NextIsHigh(used, total);
    OneFrameLess(used, total, f0);
    NextIsHigh(used + {f0}, total);
  }

  lemma StaticsStay(t: Statics, used: set<nat>, used': set<nat>)
    requires StaticsOk(t, used) && used <= used'
    ensures StaticsOk(t, used')
  {
  }

  lemma NoLeavesYet(t: Statics, f: nat, work: seq<PageLoad>)
    ensures LeavesOf(f, work) !! BootTree(t)[Pml4(f) := f].Keys
  {
    hide SlotOf;
  }

  lemma {:induction false} RunStops(root: nat, total: nat, p: Ledger, work: seq<PageLoad>)
    requires work != [] && !RoundReaches(root, total, p, work[0])
    ensures LoadRun(root, total, p, work).None?
  {
    hide RoundReaches;
    if |work| > 1 {
      RunStops(root, total, p, work[..|work| - 1]);
    } else {
      assert LoadRun(root, total, p, work[..0]) == Some(p);
    }
  }

  /** elf_load into a new address space while no frame of the window is free: for every file of
      disjoint pages, at least one, it returns 0, and a page of the file is missing. */
  method LoadMisses(pmm: FrameAllocator, ram: Memory, t: Statics, data: seq<Byte>) returns (rc: int, root: nat, ghost w: PageLoad, vm: AddressSpaces)
    requires pmm.Valid() && pmm.totalFrames <= |ram| <= 0x10_0000_0000 && 512 <= |ram| && StaticsOk(t, pmm.used)
    requires HeaderOk(data) && Loadable(data) && (forall i :: 0 <= i < PhdrCount(data) ==> PhdrFits(data, i))
    requires Work(data) != [] && PageDisjoint(Work(data))
    requires LowTaken(pmm.used) && |Left(pmm.used, pmm.totalFrames)| > 1 + 4 * |Work(data)|
    modifies pmm, pmm.bitmap
    ensures rc == 0 && w in Work(data)
    ensures Pml4(root) in vm.tree && root != vm.kroot && !PageShows(vm.mem, vm.tree, root, w, data)
  {
    hide AddressSpaces.Valid, BootTree, FrameAllocator.Valid, StaticsOk, Left, TookLow, Exhausted, Loadable, HeaderOk, PhdrFits,
         LeavesKept, Foreign, Spare, NextFrame, Work, LoadRun, Loading, GaveUp, PageShows, RoundReaches, PhdrCount, EntryPoint, PageDisjoint, LeavesOf;
    vm := new AddressSpaces(pmm, ram, t);
    RootsSmall(t, pmm.used);
    ghost var used, total := pmm.used, pmm.totalFrames;
    ghost var f := NextFrame(used, total);
    NextIsHigh(used, total);
    var pa := vm.CreateUserSpace();
    OneFrameLess(used, total, f);
    root := pa / FRAME_SIZE;
    ghost var a := Snap(vm);
    StaticsStay(t, used, a.used);
    FirstRoundMisses(t, a.used, total, f, Work(data)[0]);
    RunStops(f, total, Ledger(a.tree, a.used), Work(data));
    var entry;
    ghost var all;
    rc, entry, all := ElfLoad(vm, data, root);
    if rc == -1 {
      GaveUpCount(vm, f, Work(data), a);
      StillFrames(a.used, pmm.used, total, 4 * |Work(data)|);
    }
    NoLeavesYet(t, f, Work(data));
    w := MissingPage(vm, f, data, a);
  }

  lemma OneHeader(data: seq<Byte>)
    requires HeaderOk(data) && PhdrCount(data) == 1 && PhdrFits(data, 0) && PhdrAt(data, 0).kind == PT_LOAD
    ensures Work(data) == SegmentPages(PhdrAt(data, 0))
  {
    hide FieldAt, SegmentPages;
    assert WorkFrom(data, 1) == [];
  }

  lemma OnePage(ph: Phdr)
    requires ph.vaddr == 1 && ph.memsz == 2
    ensures SegmentPages(ph) == [PageLoad(ph, 0)]
  {
    assert PagesFrom(ph, FRAME_SIZE) == [];
  }

  /** There are such files: UnalignedFile is one. */
  lemma OnePageFile()
    ensures var data := UnalignedFile();
            && HeaderOk(data) && Loadable(data) && (forall i :: 0 <= i < PhdrCount(data) ==> PhdrFits(data, i))
            && Work(data) == [PageLoad(PhdrAt(data, 0), 0)] && PageDisjoint(Work(data))
  {
    hide FieldAt, UnalignedFile, Work, SegmentPages, Loadable, PhdrFits, PhdrAt, PhdrCount, FirstPageRight, FirstPageByte, SegmentByte;
    UnalignedSegmentIsWrong();
    var data := UnalignedFile();
    OneHeader(data);
    OnePage(PhdrAt(data, 0));
  }

  lemma GaveUpCount(vm: AddressSpaces, root: nat, work: seq<PageLoad>, a: Snapshot)
    requires GaveUp(vm, root, work, a)
    ensures |vm.pmm.used - a.used| <= 4 * |work|
  {
    hide AddressSpaces.Valid, Abandoned, UpperTablesDirect, Spare;
  }

  lemma MissingPage(vm: AddressSpaces, root: nat, data: seq<Byte>, a: Snapshot) returns (w: PageLoad)
    requires Loading(vm, root, Work(data), Work(data), data, a, false)
    requires PageDisjoint(Work(data)) && LeavesOf(root, Work(data)) !! a.tree.Keys
    ensures w in Work(data) && !PageShows(vm.mem, vm.tree, root, w, data)
    ensures Pml4(root) in vm.tree && root != vm.kroot
  {
    hide AddressSpaces.Valid, PageShows, Work, LoadRun, TookLow, Avoids511, UpperTablesDirect, WithoutRoot, KernelEntryKept, SlotOf, PageLoadOk, PageDisjoint, LeavesOf;
    var j :| 0 <= j < |Work(data)| && LeafOfSlot(root, SlotOf(Work(data)[j].va)) !in vm.tree;
    w := Work(data)[j];
    NotShown(vm.mem, vm.tree, root, w, data);
  }

  // ----- task_yield -----

  /** The boot task exits, the idle task runs alone, uses its stack and yields: it comes back with
      registers that are not its own.  This is a defect of the interface that no present caller
      reaches: nothing calls task_yield (sys_yield calls schedule, which returns when nothing is
      ready), the idle task only halts, and the boot task never exits. */
  method IdleYields(boot: Boot, cpu: Cpu, ram: Ram, idleEntry: Word, stack: nat, ret: Word, ret': Word) returns (mine: Cpu, got: Cpu)
    requires stack != 0 && (stack + TASK_STACK_SIZE <= boot.lo || boot.hi <= stack)
    requires boot.lo + 64 <= cpu.rsp <= boot.hi
    ensures got != mine.(rip := ret')
  {
    hide TaskTable.Valid, Queued, InTable, Settled, FrameAt;
    var tasks := new TaskTable(boot, cpu, ram, idleEntry, stack);
    tasks.SysExit(ret);
    mine := tasks.cpu.(rsp := tasks.cpu.rsp - 8);
    tasks.Compute(mine, tasks.ram);
    tasks.TaskYield(ret');
    got := tasks.cpu;
  }
}
