# Verified model of the kernel's memory stack and scheduler

This project models, in Dafny, how the kernel hands out physical memory, builds page tables with
it, loads programs, runs its heap, and switches between tasks, and proves what those parts
guarantee together.  `dafny verify dfyconfig.toml` checks everything.

## What is modelled

* **Frames** (`Bits`, `Multiboot`, `Pmm`, `MapLayout`): the tag walk over the Multiboot2 information
  structure and the bitmap allocator, as a class over an array of 32-bit words; `MapLayout` lays the
  structure out word by word and says what the walk and pmm_init read from it.
* **Page tables** (`PageTables`, `Window`, `BootTables`, `Leaves`, `Subtrees`, `Walks`, `Paging`):
  physical memory is a sequence of frames of 512 words.  The kernel reaches a table through a 2 MiB
  window whose last page is remapped on demand, so a "pointer" to a table is a page number of the
  window, and what it points at is whatever the window's own page table says at the moment of the
  access.  Nothing about aliasing is assumed: it follows from the words in memory.  A page of the window
  whose entry is not present and writable shows no frame, and no load or store goes through one.  A ghost tree
  says which frame plays which part in which address space; a frame that is in use but that nothing
  refers to any more is *lost*; a frame in use that belongs to something else is *foreign*.
* **Programs** (`Bytes`, `ElfImage`, `Elf`, `Spaces`): the ELF loader with its header fields, page
  loop, copies and table construction, and what creating, loading and destroying address spaces
  guarantee over whole runs.
* **Heap** (`HeapModel`, `HeapWords`, `HeapBacking`, `Heap`, `KernelMemory`): `HeapModel` is the
  allocator on blocks and a list; `HeapWords` puts headers and links into 64-bit words; `Heap` is
  the class that walks and rewrites those words and grows through the two classes above;
  `HeapBacking` and `KernelMemory` say what the pages under the heap are and that nothing takes them.
* **Tasks** (`Tasks`, `Scheduler`, `KernelTasks`): states and queue as a step system, the task table
  with its linked list, registers and stacks, and task creation with stacks from the heap.
* **Failures** (`Failures`): runs in which the operations return normally and do something else.

Memory (`memset`, `memcpy`, single loads and stores) is primitive.  What `kmalloc` returns to task
creation, the boot stack, the kernel's end address, the frames of the static tables and the contents
of memory at start are parameters.

## Where the code does less than it says

Each of these is stated exactly, for all inputs, by the members named; `Failures` carries out runs
in which they happen, from the state that `paging_init` or `kinit_task` leaves.  They are defects of
the interfaces, not all of which a present caller meets: so far the kernel makes one address space,
loads one program into it and maps the heap's pages.
The runs with page tables need no more than that the frames below 2 MiB are taken, as they are after
every boot whose bitmap, which follows the kernel image, reaches frame 511
(`Failures.KernelTakesLow`); with 4 GiB of memory an image of 896 KiB inside the window is enough
(`Failures.BitmapReaches`).

* `paging_map_page` can return 0 without mapping anything: every new table is zeroed through the
  scratch page, so when the parent table is itself reached through that page the link is written
  into the new table.  `Paging.AddressSpaces.MapPage` says the page is mapped if and only if
  `MapReaches` holds before the call; `Failures.MapMisses` is a call with frames to spare that
  returns 0 and maps nothing.
* `elf_load` can return 0 with pages of the file missing, for the same reason.
  `Elf.ElfLoad` computes from the tables and free frames before the call whether every round ends in
  a table of the address space, `Spaces.LoadIsComplete` says that all pages then show their contents
  if and only if that is so, and `Failures.LoadMisses` is a call that returns 0 with a page missing.
* `paging_create_user_space` copies the kernel half if and only if the new root or the loaded root
  lies below frame 511 (`Paging.AddressSpaces.CreateUserSpace`);
  `Failures.SecondSpaceHasNoKernel` gets an empty root from it.
* The window is said to show the first 2 MiB; its last page is the scratch page and shows frame 511
  if and only if that was mapped there last (`Paging.AddressSpaces.VirtForPhys`,
  `Failures.Page511ShowsAnother`).  Nothing reserves that frame: `Pmm.Frame511AtBoot` says exactly
  which boots leave it in use.  What follows about tables is proved for every call that cannot be
  handed frame 511 for a table, which is what `Pmm.Avoids511` says of it (`Pmm.Avoids511Exactly`).
* `elf_load` copies file bytes to the start of the frame even when the segment starts inside the
  page, so the first page of a file's segment is right if and only if the segment is page aligned or
  shows nothing but zeros on that page (`ElfImage.FirstPageExact`, `Spaces.LoadedFirstPage`;
  `ElfImage.UnalignedSegmentIsWrong` is a file that it accepts and loads wrongly).
* The heap's byte counter adds the request and subtracts the block, so with nothing allocated it is
  back at zero if and only if no allocation got more than it asked for
  (`HeapModel.CounterDrifts`, with `HeapModel.SlackExactly` for each call; `HeapModel.CounterCanDrift`).
* The free list is said to be sorted for coalescing.  A growth keeps it so if and only if the list
  was empty or the request leaves no remainder of the new pages (`HeapModel.GrowthKeepsOrder`); as
  long as every growth does, everything freed becomes one block again (`HeapModel.FullReclamation`),
  and a growth that does not can leave two free neighbours (`HeapModel.GrowthDefeatsReclamation`).
* The frame bitmap starts out free, not reserved, so a frame below the highest address of the memory
  map that no entry covers is handed out, whether or not there is memory (`MapLayout.HolesAreFree`);
  on a PC with 128 MiB that is every frame from there to the firmware (`MapLayout.PcBoot`).
* The identity map is said to cover the first 2 MiB; it covers 4 MiB
  (`Paging.AddressSpaces.constructor`).
* A task that yields while nothing else is ready is switched to its previous frame instead of the
  one just saved (`Scheduler.TaskTable.TaskYield`); only the idle task could get there
  (`Failures.IdleYields`).  No present caller does: nothing calls `task_yield`, since `sys_yield` calls
  `schedule`, the idle task only halts and the boot task never exits.

## Model

| member | source | states |
|---|---|---|
| Multiboot.FindTag | src/mm/multiboot2.h:63-77 | the walk with its running offset returns the tag that the recursive specification names, or none |
| Multiboot.FirstTagIsFirst | src/mm/multiboot2.h:63-77 | that tag is the first of its type before the end tag, and none is reported exactly when there is none |
| MapLayout.FindLaidOut | src/mm/multiboot2.h:16-26 | in a structure laid out word by word from tags of any type, size and padding, the walk finds the first tag of a type at the offset where it was put |
| MapLayout.NoneLaidOut | src/mm/multiboot2.h:63-77 | and none where there is none, stopping at the end tag |
| MapLayout.MapLaidOut | src/mm/multiboot2.h:28-45 | the map that pmm_init reads is the map that was laid out: base and length in two words each, low word first, then the type, 24 bytes an entry after a 16-byte tag of type 6 |
| MapLayout.PcFrames | src/mm/pmm.c:70-156 | for the information of one PC with 128 MiB, exactly which frames boot leaves in use |
| MapLayout.PcBoot | src/mm/pmm.c:70-170 | pmm_init and the first allocation carried out on it |
| MapLayout.HolesAreFree | src/mm/pmm.c:123-155 | a frame that no entry covers is in use after pmm_init only if it is the kernel's |
| Bits.OneBitChanges | src/mm/pmm.c:28-38 | setting or clearing one bit changes that bit and no other of the 32 |
| Bits.EqualFromBits | src/mm/pmm.c:28-38 | two words with the same 32 bits are the same word |
| Pmm.FrameAllocator.MarkRegion | src/mm/pmm.c:43-61 | exactly the tracked frames that the byte range touches become used |
| Pmm.DecidedNext | src/mm/pmm.c:123-143 | a further map entry overrides earlier ones on the frames it covers and nothing else |
| Pmm.AfterPassIsDecided | src/mm/pmm.c:123-143 | after the second pass a frame is used exactly if the last entry covering it is not available memory, or if it was used before and no entry covers it |
| Pmm.KernelMarksLast | src/mm/pmm.c:104-155 | reserving the kernel's frames after the pass gives the final characterisation although the bitmap's frames were marked first |
| Pmm.FrameAllocator.constructor | src/mm/pmm.c:70-156 | exactly which frames are tracked and which are used: low megabyte, kernel image, bitmap, and those whose last covering entry is not available; the counter is the number of set bits |
| Pmm.Frame511AtBoot | src/mm/pmm.c:98-155 | pmm_init leaves frame 511 in use exactly if kernel image and bitmap reach it or the map's last entry there is not available |
| Pmm.Avoids511Exactly | src/mm/pmm.c:161-170 | the condition that the paging operations need says exactly that frame 511 is not among the frames the allocator hands out next |
| Pmm.FrameAllocator.AllocFrame | src/mm/pmm.c:161-170 | the lowest free frame is taken and returned, or 0 when there is none |
| Pmm.FrameAllocator.AllocFrames | src/mm/pmm.c:175-198 | a run is found if and only if one exists, it is the lowest, its frames and no others become used |
| Pmm.FrameAllocator.AllocRun | src/mm/pmm.c:179-197 | the same for the scan with its running count |
| Pmm.FrameAllocator.FreeFrame | src/mm/pmm.c:203-209 | exactly that frame becomes free; untracked or free frames change nothing |
| Pmm.FrameAllocator.FreeFrames | src/mm/pmm.c:214-218 | exactly the frames of the run become free |
| Pmm.FrameAllocator.FreeFramesCount | src/mm/pmm.c:224-226 | the difference of the counters is the number of free frames |
| Pmm.FrameAllocator.AllocThenFree | src/mm/pmm.c:175-218 | freeing what an allocation returned restores every word of the bitmap and the counter |
| Pmm.BitmapDetermined | src/mm/pmm.c:28-38 | the set of used frames determines the packed words |
| PageTables.WalkFollowsTree | src/mm/paging.c:254-272 | the four-level walk through memory finds what the ghost tree says |
| PageTables.LinkChild | src/mm/paging.c:148-171 | writing the entry for a zeroed new table keeps the tables a tree that matches memory |
| Window.ScratchKeepsTables | src/mm/paging.c:39-43 | rewriting the scratch entry disturbs no table |
| Window.NewTableLinked | src/mm/paging.c:157-162 | zeroing and linking a new table adds exactly one node and keeps every other table, page and foreign frame |
| Window.NewTableStray | src/mm/paging.c:157-162 | when the link goes into the new table instead, no table changes and the frame is lost |
| Leaves.KernelLeafWritten | src/mm/paging.c:172-176 | writing a leaf entry sets that page through every root that shares it and no other page |
| Leaves.TwoPasses | src/mm/paging.c:284-312 | the two passes together demand exactly an accessible buffer |
| Leaves.LimitIsLowerHalf | src/mm/paging.h:67-68 | the user limit is the end of the lower half of the top-level table |
| Leaves.UserMayExactly | src/mm/paging.c:142-175 | all four entries on the way to a page let user code through if and only if the last one does and the page is not in the lower half of the kernel's own address space |
| Leaves.CheckAgainstProcessor | src/mm/paging.c:276-313 | although the check reads the user bit of the last entry only, user code can access what it accepts if and only if the loaded address space is not the kernel's own, and it accepts all that user code can access but frame 0 |
| Walks.KernelWalkEnds | src/mm/paging.c:147-172 | the creating walk reaches the page table exactly under the direct-window condition |
| Walks.UserWalkEnds | src/fs/elf.c:153-181 | the loader's walk reaches it exactly when no parent and new table both need the scratch page |
| Walks.WalkTakes | src/mm/paging.c:147-168 | a walk takes at most one frame for every missing table, low frames first, and one less when it fails |
| Walks.KernelWalkFails | src/mm/paging.c:165-168 | where the directory exists, a walk that runs out of frames changes nothing |
| Paging.AddressSpaces.constructor | src/mm/paging.c:59-121 | every address below 4 MiB translates to itself, every address of the 2 MiB from 0xFFFFFFFF80000000 on to its offset, no other address to anything; user code gets through nothing outside the kernel's half; the tables form the stated tree and nothing outside them is written, whatever frame 511 holds |
| BootTables.SlotRecomposed | src/mm/paging.c:136-139 | the four indices and the offset, put together again, are the low 48 bits of the address |
| Paging.AddressSpaces.ScratchMap | src/mm/paging.c:39-43 | the scratch page shows the frame, to reads and writes of the kernel and through no root to user code, and nothing but its entry changed |
| Leaves.StaysHidden | src/mm/paging.c:39-43 | once closed to user code the scratch page stays closed under whatever keeps or closes its entry, which every operation promises but a caller's own mapping of that page |
| Paging.AddressSpaces.VirtForPhys | src/mm/paging.c:52-57 | which frame the returned page shows, with the exact exception of frame 511; outside the window it is hidden from user code |
| Paging.AddressSpaces.EnsureChild | src/mm/paging.c:147-172 | one level of a walk, existing or new, with where the link really went and which frame was taken |
| Paging.AddressSpaces.MapPage | src/mm/paging.c:133-177 | on 0 the page is mapped through every sharing root and nothing else changes, if and only if the condition held before; otherwise no translation changes; -1 only when no frame is left, no translation changes then though tables may have been added; at most the missing tables' frames are taken; user pages and all other frames in use keep their contents |
| Paging.AddressSpaces.UnmapPage | src/mm/paging.c:182-199 | exactly that page loses its entry; user pages and all other frames in use keep their contents |
| Paging.AddressSpaces.VirtToPhys | src/mm/paging.c:254-272 | the result is the translation in memory before the call wherever the tables lie, and no translation changes |
| Spaces.UserByteIsTranslated | src/mm/paging.c:254-272 | what user code reads is the byte at the physical address that the virtual one translates to |
| Paging.AddressSpaces.UserMemCheck | src/mm/paging.c:276-313 | accepted if and only if the buffer is below the limit without wrapping and every byte's entry permits the access |
| Paging.AddressSpaces.CreateUserSpace | src/mm/paging.c:211-234 | a new root that shares the kernel's half, or exactly when not; no translation changes, entry 511 of the kernel root stays, and no frame but the new one and the scratch entry is written |
| Subtrees.NewRootLeaves | src/mm/paging.c:204-233 | a new address space translates the kernel's half as the kernel does and nothing else |
| Paging.AddressSpaces.FreeUserSpace | src/mm/paging.c:323-351 | exactly the frames of that address space become free and its part of the tree disappears |
| Subtrees.DirectInMemory | src/mm/paging.c:323-351 | whether freeing an address space is safe for the loops' pointers can be read off the entries of its upper tables |
| Subtrees.FreeRound | src/mm/paging.c:327-349 | one round of a freeing loop covers exactly the frames below one entry |
| ElfImage.HeaderFields | src/fs/elf.c:18-78 | accepted exactly for the ten header bytes named; entry point and header count are the little-endian values at bytes 24 and 56 |
| ElfImage.PhdrFields | src/fs/elf.c:81-109 | the five fields of program header i, byte by byte, at e_phoff plus i times e_phentsize, and when it is inside the file |
| ElfImage.SegmentPagesExactly | src/fs/elf.c:111-114 | the pages of a segment, in order, are exactly those from the one it starts in to the last that begins before it ends |
| ElfImage.ImageCorrect | src/fs/elf.c:121-145 | a page that begins in the segment holds, to its end, the file's bytes as far as filesz and the file go, and zeros |
| ElfImage.FirstPageWhole | src/fs/elf.c:121-145 | the frame of the first page starts with the segment's first bytes, wherever in the page the segment starts, and zeros |
| ElfImage.CopyInBounds | src/fs/elf.c:124-145 | every copy reads inside the file and writes inside one frame |
| ElfImage.FirstPageShifted | src/fs/elf.c:126-144 | on the first page of an unaligned segment the bytes are shifted by the offset in the page |
| ElfImage.FirstPageExact | src/fs/elf.c:126-144 | for every file: the first page of a segment is right if and only if the segment is page aligned or all it has to show there is zero |
| ElfImage.UnalignedSegmentIsWrong | src/fs/elf.c:29-79 | a file that passes every check, with a two-byte segment at address 1 whose first byte shows the second |
| ElfImage.BssIsZero | src/fs/elf.c:81-145 | a file with two headers 64 bytes apart, 16 bytes in the file and three pages in memory: three pages are made, and all but the 16 bytes is zero though the file goes on |
| Spaces.LoadedFirstPage | src/fs/elf.c:126-144 | after success, user code reads on the page a segment begins in the segment's first bytes from the page's start on, in terms of the file's bytes only |
| Elf.LoadPage | src/fs/elf.c:114-184 | one round: the page shows its image and nothing else moved, or what was lost when it failed |
| Elf.ProgressStep | src/fs/elf.c:114-184 | rounds compose: the last load of every page shows, and no frame is lost unless a page is loaded over |
| Elf.ElfLoad | src/fs/elf.c:15-189 | the header and range checks; on success every page went through its round in order, and every one reached the address space if and only if the run computed from the tables and free frames before the call says so; failure only for a bad header, a header past the end or no free frame, and what it keeps: other pages, the frames of everything else with their contents, the kernel's half |
| Spaces.LoadIsComplete | src/fs/elf.c:147-184 | for disjoint new pages, success shows every page if and only if that run reaches a table of the address space in every round |
| Spaces.LoadedImage | src/fs/elf.c:81-184 | after success, user code reads, through four entries that let it, on every page that begins in a segment the bytes the file has for it and zeros, in terms of the file's bytes only |
| Spaces.LoadIsolated | src/fs/elf.c:147-183 | loading changes no translation of the kernel, of another address space, or of the shared half |
| Spaces.KernelHalfShared | src/mm/paging.c:227-231 | all roots translate the kernel half alike in every reachable state |
| Spaces.KernelRun | src/mm/paging.c:133-351 | over any sequence of mappings, unmappings, creations, program loads, switches and destructions, however long, entry 511 is never rewritten, all roots agree on the kernel half, the window stays open, and the scratch page once hidden stays hidden unless an operation of the run maps it for user code |
| Spaces.FramesConserved | src/mm/paging.c:323-351 | destroying an address space gives back all frames taken since its creation but the lost ones |
| Spaces.LoadConserves | src/mm/paging.c:323-351 | create, load, free: nothing stays used after a success with page-disjoint segments, at most one frame after a failure |
| Spaces.LoadAndFree | src/mm/paging.c:211-351 | the same carried out: with enough direct frames the bitmap ends word for word as it began, and the counter too |
| HeapModel.SplitOk | src/mm/heap.c:99-111 | a split keeps tiling, list and accounting, and leaves less than a minimal block over |
| HeapModel.TakeOk | src/mm/heap.c:130-142 | taking a block keeps them, with slack 0, 8, 16 or 24 |
| HeapModel.InsertOk | src/mm/heap.c:200-223 | insertion keeps them |
| HeapModel.JoinOk | src/mm/heap.c:225-236 | a merge keeps them |
| HeapModel.EveryByteInOneBlock | src/mm/heap.c:11-15 | every byte of the heap lies in exactly one block |
| HeapModel.PagesNeededLeast | src/mm/heap.c:149-150 | an extension asks for the least number of pages that holds the rounded request and a header |
| HeapModel.RetryFits | src/mm/heap.c:148-164 | after an extension the new block is first and fits, so the retry never extends again |
| HeapModel.AllocContract | src/mm/heap.c:118-165 | first fit in list order; nothing is returned only for size 0 or a failed extension; the block was not live, overlaps no other, and live blocks stay |
| HeapModel.StepOk | src/mm/heap.c:118-237 | every call keeps tiling, list and accounting law; only an allocation adds slack |
| HeapModel.RunKeeps | src/mm/heap.c:118-237 | so does every run, and the slack is bounded by 24 bytes for each allocation |
| HeapModel.RunGoesOn | src/mm/heap.c:118-237 | any sequence of allowed calls is a run |
| HeapModel.ReleaseFrees | src/mm/heap.c:192-237 | freeing changes one block's status and keeps every other live block |
| HeapModel.ReleaseTidy | src/mm/heap.c:204-236 | in address order every possible merge is made |
| HeapModel.GrowthShape | src/mm/heap.c:148-164 | what a successful extension and its retry leave: the new block live, and a remainder, if any, first in the list |
| HeapModel.GrowthKeepsOrder | src/mm/heap.c:148-164 | a call that extends the heap keeps address order if and only if the list was empty or the new region leaves no remainder |
| HeapModel.StepTidy | src/mm/heap.c:118-237 | every call that meets that guard keeps the list sorted with nothing to merge, failed extensions included |
| HeapModel.FullReclamation | src/mm/heap.c:87-236 | so does every run of such calls, and with nothing live and no extension stopped half-way the whole heap is one free block, the initial one if it never grew |
| HeapModel.GrowthDefeatsReclamation | src/mm/heap.c:153-160 | a run with one growth that ends with nothing live and two adjacent free blocks |
| HeapModel.SlackExactly | src/mm/heap.c:99-140 | a call adds no slack if and only if it allocates nothing or the block it finds has the request's size or is large enough to split |
| HeapModel.CounterDrifts | src/mm/heap.c:140-202 | with nothing live the counter is minus all slack ever, modulo 2^64; after fewer than 2^59 allocations it is zero if and only if every one met that guard |
| HeapModel.CounterCanDrift | src/mm/heap.c:140-202 | one allocation and its release that leave the counter at 2^64 - 16 |
| HeapWords.SplitRep | src/mm/heap.c:99-111 | the five stores of a split encode the split, and no live block's words change |
| HeapWords.TakeRep | src/mm/heap.c:132-139 | the stores that unlink and mark a block encode the taking |
| HeapWords.InsertRep | src/mm/heap.c:200-221 | the stores of the insertion encode it, the freed block's magic is gone |
| HeapWords.JoinRep | src/mm/heap.c:226-236 | the two stores of a merge encode it |
| HeapWords.GrowRep | src/mm/heap.c:154-160 | the three stores of a new region encode it at the head of the list |
| HeapBacking.HeapReaches | src/mm/heap.c:55-56 | below 0xFFFFFFFFC0000000 the direct-window condition of paging_map_page always holds |
| HeapBacking.BackingKept | src/mm/heap.c:50-66 | what leaves kernel translations and foreign frames alone keeps the heap mapped to different used frames |
| HeapBacking.PageCosts | src/mm/heap.c:51-63 | a page costs one frame and the tables installed for it |
| Heap.KernelHeap.HeapExtend | src/mm/heap.c:50-66 | so many zeroed pages more, each backed by its own used frame, with the frames in use raised by exactly pages and tables, entry 511 and all tables kept, also on failure |
| Heap.KernelHeap.Init | src/mm/heap.c:74-94 | one free block over four pages, or the pages leaked before the failure |
| Heap.KernelHeap.SplitBlock | src/mm/heap.c:99-111 | the stores carry out the model's split and touch no live block |
| Heap.KernelHeap.FindFit | src/mm/heap.c:123-146 | the search stops at the first block in list order that fits |
| Heap.KernelHeap.Kmalloc | src/mm/heap.c:118-165 | the words and counters take the model's step, the pointer is the chosen block's payload, NULL only for size 0 or when frames ran out, live headers and payloads are untouched, one retry at most; a growth adds the least number of pages that holds the rounded size and 16 bytes |
| Heap.KernelHeap.Kfree | src/mm/heap.c:192-237 | a live block is released with both merges, other live blocks untouched; otherwise nothing; freeing twice in a row is harmless |
| Heap.KernelHeap.WritePayload | src/mm/heap.c:11-15 | the holder of a block may write all of its payload without harm to the heap |
| KernelMemory.LoadBesideHeap | src/fs/elf.c:114-184 | loading a program keeps the heap and its pages valid, with everything the load itself promises |
| KernelMemory.CreateBesideHeap | src/mm/paging.c:211-234 | so does creating an address space |
| KernelMemory.FreeBesideHeap | src/mm/paging.c:323-351 | and destroying one |
| KernelMemory.MapBesideHeap | src/mm/paging.c:133-177 | and mapping a page outside window and heap |
| Tasks.AfterKeeps | src/task/task.c:119-261 | every operation keeps: queue is exactly the ready tasks once each, only the current task runs, idle is alive |
| Tasks.RunKeeps | src/task/task.c:119-261 | so does every run, and the idle task runs or waits |
| Tasks.KilledKeeps | src/syscall/syscall.c:27-43 | a task other than idle that exits finds somebody else to switch to |
| Tasks.YieldIsTick | src/task/task.c:255-261 | with somebody waiting, yielding reaches the same state as being preempted |
| Tasks.BoundedWaiting | src/task/task.c:40-58 | the task at place k of the queue runs after exactly k + 1 switching calls, whatever is created or exits meanwhile |
| Tasks.QueueIsShort | src/task/task.c:40-58 | so nobody waits for more than MAX_TASKS - 1 switches |
| Tasks.FrameElsewhere | src/task/switch.s:23-52 | writes elsewhere leave a saved frame as it is |
| Scheduler.SwitchKeeps | src/task/task.c:226-253 | a switch keeps every waiting task's frame, the stacks apart, and resume fidelity |
| Scheduler.SavedPointer | src/task/switch.s:33-52 | a frame restores the saved registers if and only if it is read from where they were saved |
| Scheduler.TaskTable.constructor | src/task/task.c:70-117 | boot runs with process id 1, idle waits with 2 and its initial frame, the other 30 slots are dead, nothing but the frame is written, and the invariant holds |
| Scheduler.TaskTable.ReadyListAdd | src/task/task.c:40-48 | the linked list gains the task at its end and nothing but links changes |
| Scheduler.TaskTable.ReadyListPop | src/task/task.c:50-58 | the list loses its first task, or is empty |
| Scheduler.TaskTable.BuildFrame | src/task/task.c:134-143 | popping the initial frame in the switch's order starts at the entry with IF set and zeroed registers |
| Scheduler.TaskTable.ContextSwitch | src/task/switch.s:23-52 | the old registers are on the old stack as the pops will find them, the new ones are the frame at the given pointer |
| Scheduler.TaskTable.Schedule | src/task/task.c:226-253 | the front of the queue runs with the registers it was last switched out with, the TSS stack is set for ring 3 and only then, of the other fields only the saved pointer of the old task changes, the invariant holds |
| Scheduler.TaskTable.TaskYield | src/task/task.c:255-261 | the same after queueing up; alone, the frame restored is right if and only if the old pointer happens to be the new one |
| Scheduler.TaskTable.SysExit | src/syscall/syscall.c:27-43 | the dead task is not queued and never switched to |
| Scheduler.TaskTable.TaskCreate | src/task/task.c:119-158 | the lowest dead slot gets a fresh pid and queues up last; eight words of its stack, and no others, are written, which start it at the entry with interrupts enabled and zeroed registers; nothing happens without slot or stack |
| Scheduler.TaskTable.TaskCreateUser | src/task/task.c:166-212 | the same with ring 3 and the user registers |
| Scheduler.TaskTable.Compute | src/task/task.c:4-9 | a running task that writes no other stack harms nothing |
| KernelTasks.HeapStackIsFree | src/task/task.c:131-132 | a stack from kmalloc overlaps no live task's stack |
| KernelTasks.CreateFromHeap | src/task/task.c:119-158 | creating tasks with stacks from the heap keeps heap and task table valid and all stacks apart |
| Failures.KernelTakesLow | src/mm/pmm.c:145-155 | a kernel image whose bitmap reaches frame 511 leaves no frame of the window free at boot |
| Failures.BitmapReaches | src/mm/pmm.c:98-101 | with the largest bitmap, images that end inside the window do |
| Failures.MapCanMiss | src/mm/paging.c:147-172 | at boot with the window's frames taken and three others free, paging_map_page has frames enough for a new top-level entry and misses it |
| Failures.MapMisses | src/mm/paging.c:147-176 | the call then returns 0 and the page is not mapped |
| Failures.LoadMisses | src/fs/elf.c:147-184 | elf_load then returns 0 for every file of disjoint pages with a page missing |
| Failures.OnePageFile | src/fs/elf.c:29-79 | there is such a file |
| Failures.SecondSpaceHasNoKernel | src/mm/paging.c:211-233 | an address space made from within such an address space translates nothing |
| Failures.Page511ShowsAnother | src/mm/paging.c:39-57 | after any access outside the window, the pointer for frame 511 shows that frame |
| Failures.IdleYields | src/task/task.c:255-261 | the idle task alone, having used its stack, comes back from task_yield with other registers |

## Left out

- kmalloc_aligned: the pointer it returns cannot in general be freed, so no round trip exists.
- pmm_mark_region with used 0: nothing calls it.
- pmm_total_memory, heap_used, heap_size, task_current, paging_phys_to_virt, paging_kernel_cr3: one-line getters.
- Log, serial and screen output; device drivers; GDT and IDT packing; interrupt stubs.
- TLB and invlpg effects: a translation is what the tables in memory say.
- Huge pages and NX: the builders never make them; that entries are not huge is part of the invariant, so the huge-page branch of paging_free_user_space is unreachable.
- The check of new_pml4 for NULL and of current_task for NULL: both are set once, before anything else runs.
- time_slice, the BLOCKED state, switching CR3 in the scheduler and reclaiming dead stacks: the code does none of it.
- Interrupts inside one kernel operation: every public operation is one atomic step.
- Physical memory holds tables and user pages; the bitmap's words, the heap's words and the tasks' stacks are three stores beside it, not inside the frames they occupy.  That those frames belong to nobody else is proved (constructor of Pmm, Backing), that a store to them arrives there is not.
- KernelTasks.CreateFromHeap: the stacks' contents and the heap's words are separate stores, so that kmalloc writes into no saved frame follows there from the stacks being live blocks apart from every other block, not from the stores themselves.
- Pmm.FrameAllocator.constructor: assumes the bitmap's memory reads as zero, which the source relies on without clearing it, and a well-formed map whose end addresses do not wrap.
- Multiboot.FindTag: assumes tags of non-zero size that lie inside the structure, without which the source's loop does not end.
- Calls that are handed frame 511 for a table, which nothing in the source prevents: the table would be zeroed and read through whatever the scratch page shows.  MapPage, CreateUserSpace, elf_load and heap growth are modelled when frame 511 is in use or untracked, or the frames below it suffice for the call.  A heap page may lie in frame 511, a page that elf_load fills may not.
- Spaces.KernelRun: where frame 511 is free and tracked at the start, the frames below it must suffice for all that the run takes, frames given back not counted; where it is in use there is no bound.  A destruction is carried out while the address space is not loaded and its upper tables lie below frame 511, and skipped otherwise.  Heap growth is not among its operations; HeapExtend promises the same of entry 511.
- Paging.AddressSpaces.MapPage: keeps the invariant unless the caller remaps a page of the window below the scratch page to another frame or makes it absent or read-only, which the source does not prevent.
- Paging.AddressSpaces.UnmapPage: likewise for pages of the window.
- Paging.AddressSpaces.FreeUserSpace: for address spaces whose tables above the page tables lie below frame 511; above it the source's own loop pointers change target under it.
- Paging.AddressSpaces.VirtToPhys: not for the scratch page's own address, whose translation every access changes.
- Elf.ElfLoad: for segments inside user memory whose sums do not wrap; the source checks neither.  The NULL checks of its arguments are not part of this model.
- Heap.KernelHeap.Kmalloc: while the heap stays below 0xFFFFFFFFC0000000; beyond it a page could be reported mapped without being so.  This also leaves out sizes within 4111 bytes of 2^64, whose rounding or page count wraps in the source (kmalloc of 2^64 - 1 rounds to 0).
- Heap.KernelHeap.Kfree: for pointers into the heap whose header, if it carries the magic number, is a live block's; the source trusts the magic number.
- Scheduler.TaskTable.SysExit: not for the idle task, which never makes a system call.
- Scheduler.TaskTable.constructor: assumes kmalloc delivered the idle task's stack, which the source does not check.
- Scheduler.TaskTable.Schedule: assumes 64 bytes of the task's own stack below its stack pointer; nothing in the source guards against overflow.
- Process ids are unbounded numbers; the 64-bit wrap is not modelled.
- isr_asm.s and the system-call entry of usermode.s: they do not restore what they save in mirror order, so there is no register round trip to prove.
