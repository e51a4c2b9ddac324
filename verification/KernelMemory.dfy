/** The heap among the other users of physical memory: no operation on address spaces takes a page
    away from it. */
module KernelMemory {
  import opened Wrappers
  import opened Pmm
  import opened PageTables
  import opened Window
  import opened Leaves
  import opened Subtrees
  import opened Walks
  import opened Paging
  import opened Bytes
  import opened ElfImage
  import opened Elf
  import opened HeapBacking
  import opened Heap

  /** elf_load into a user address space leaves the heap as it is, whether it succeeds or not. */
  method LoadBesideHeap(heap: KernelHeap, data: seq<Byte>, root: nat) returns (rc: int)
    requires heap.Valid() && Pml4(root) in heap.vm.tree && root != heap.vm.kroot && Loadable(data)
    requires Avoids511(heap.vm.pmm.used, heap.vm.pmm.totalFrames, 4 * |Work(data)|)
    modifies heap.vm, heap.vm.pmm, heap.vm.pmm.bitmap
    ensures heap.Valid()
    ensures rc == 0 ==> exists all :: Loading(heap.vm, root, Work(data), Work(data), data, old(Snap(heap.vm)), all)
    ensures rc != 0 ==> GaveUp(heap.vm, root, Work(data), old(Snap(heap.vm)))
  {
    hide AddressSpaces.Valid, KernelHeap.Encoded, Backing, Foreign, Loading, GaveUp, Loadable, TablesOk, Held, HeapLeavesKept, Avoids511, LoadRun, KernelEntryKept, TookLow;
    var vm := heap.vm;
    ghost var a := Snap(vm);
    vm.Parts();
    var entry;
    ghost var all;
    rc, entry, all := ElfLoad(vm, data, root);
    LoadKeepsHeap(vm, data, root, a, rc, all);
    vm.Parts();
    BackingKept(a.mem, vm.mem, vm.kroot, a.tree, vm.tree, a.lost, vm.lost, a.used, vm.pmm.used, heap.frames);
  }

  lemma LoadKeepsHeap(vm: AddressSpaces, data: seq<Byte>, root: nat, a: Snapshot, rc: int, all: bool)
    requires if rc == 0 then Loading(vm, root, Work(data), Work(data), data, a, all) else GaveUp(vm, root, Work(data), a)
    requires Pml4(vm.kroot) in a.tree && root != vm.kroot
    ensures vm.Valid() && HeapLeavesKept(a.mem, vm.mem, vm.kroot)
  {
    hide AddressSpaces.Valid, PagesKept, PageDisjoint, LastLoads, LeavesOf, WithoutRoot, UpperTablesDirect, TookLow, Spare, Work, LoadRun, Avoids511, KernelEntryKept;
    TouchKeepsHeap(a, Snap(vm), vm.kroot, root, Work(data));
  }

  lemma TouchKeepsHeap(a: Snapshot, b: Snapshot, kroot: nat, root: nat, work: seq<PageLoad>)
    requires Pml4(kroot) in a.tree && root != kroot
    ensures OnlyTouched(a, b, root, work) ==> HeapLeavesKept(a.mem, b.mem, kroot)
  {
    hide LeafEntry, SlotOf, PageAddr, LeavesOf;
    if OnlyTouched(a, b, root, work) {
      forall k: nat | k < MAX_HEAP_PAGES ensures HeapPageKept(a.mem, b.mem, kroot, k) {
        HeapSlot(k);
      }
    }
  }

  /** paging_create_user_space leaves the heap as it is. */
  method CreateBesideHeap(heap: KernelHeap) returns (pa: nat)
    requires heap.Valid() && Pml4(heap.vm.cr3) in heap.vm.tree
    requires Avoids511(heap.vm.pmm.used, heap.vm.pmm.totalFrames, 1)
    modifies heap.vm, heap.vm.pmm, heap.vm.pmm.bitmap
    ensures heap.Valid()
  {
    hide AddressSpaces.Valid, KernelHeap.Encoded, Backing, Foreign, LeavesKept, TablesOk, Held, HeapLeavesKept, NextFrame, Avoids511, TookLow;
    var vm := heap.vm;
    ghost var a := Snap(vm);
    vm.Parts();
    pa := vm.CreateUserSpace();
    vm.Parts();
    AllLeavesKept(a.mem, vm.mem, vm.kroot, a.tree);
    BackingKept(a.mem, vm.mem, vm.kroot, a.tree, vm.tree, a.lost, vm.lost, a.used, vm.pmm.used, heap.frames);
  }

  /** paging_free_user_space frees no page of the heap. */
  method FreeBesideHeap(heap: KernelHeap, pa: nat)
    requires heap.Valid() && pa < U64_LIMIT && pa % FRAME_SIZE == 0
    requires Pml4(pa / FRAME_SIZE) in heap.vm.tree && pa / FRAME_SIZE != heap.vm.kroot
    requires UpperTablesDirect(heap.vm.tree, pa / FRAME_SIZE)
    modifies heap.vm, heap.vm.pmm, heap.vm.pmm.bitmap
    ensures heap.Valid()
  {
    hide AddressSpaces.Valid, KernelHeap.Encoded, Backing, Foreign, LeavesKept, TablesOk, Held, HeapLeavesKept, Whole;
    var vm := heap.vm;
    ghost var a := Snap(vm);
    vm.Parts();
    vm.FreeUserSpace(pa);
    vm.Parts();
    AllLeavesKept(a.mem, vm.mem, vm.kroot, vm.tree);
    BackingKept(a.mem, vm.mem, vm.kroot, a.tree, vm.tree, a.lost, vm.lost, a.used, vm.pmm.used, heap.frames);
  }

  /** paging_map_page of a page outside the window and outside the heap leaves the heap as it is. */
  method MapBesideHeap(heap: KernelHeap, virt: nat, phys: nat, flags: nat) returns (rc: int)
    requires heap.Valid() && virt < U64_LIMIT && phys < U64_LIMIT && flags < FRAME_SIZE
    requires KeepsWindow(SlotOf(virt), Entry(phys / FRAME_SIZE, flags)) && !InHeapRange(SlotOf(virt))
    requires Avoids511(heap.vm.pmm.used, heap.vm.pmm.totalFrames, Missing(heap.vm.tree, heap.vm.kroot, SlotOf(virt)))
    modifies heap.vm, heap.vm.pmm, heap.vm.pmm.bitmap
    ensures heap.Valid()
  {
    hide AddressSpaces.Valid, KernelHeap.Encoded, Backing, Foreign, LeavesKept, LeafSet, TablesOk, Held, HeapLeavesKept,
         SlotOf, Entry, FramesKept, TreeGrows, Avoids511, Missing, TookLow, WithoutRoot, KernelEntryKept;
    var vm := heap.vm;
    ghost var a := Snap(vm);
    vm.Parts();
    rc := vm.MapPage(virt, phys, flags);
    vm.Parts();
    if LeavesKept(a.mem, vm.mem, a.tree) {
      AllLeavesKept(a.mem, vm.mem, vm.kroot, a.tree);
    } else {
      OtherLeafSet(a.mem, vm.mem, vm.kroot, a.tree, SlotOf(virt), Entry(phys / FRAME_SIZE, flags));
    }
    BackingKept(a.mem, vm.mem, vm.kroot, a.tree, vm.tree, a.lost, vm.lost, a.used, vm.pmm.used, heap.frames);
  }
}
