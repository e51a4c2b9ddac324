/** Tasks whose kernel stacks come from the kernel heap: what kmalloc returns is nobody's stack. */
module KernelTasks {
  import opened Wrappers
  import opened Pmm
  import opened PageTables
  import opened HeapModel
  import HeapWords
  import HeapBacking
  import opened Heap
  import opened Tasks
  import opened Scheduler

  /** Every live task but the boot task has its stack in a live heap block of its own size, and the
      boot stack is outside the heap. */
  ghost predicate StacksInHeap(tasks: seq<Task>, s: State, boot: Boot) {
    && boot.hi <= HEAP_START
    && forall t :: 0 <= t < |tasks| && tasks[t].state != DEAD && tasks[t].kstack != 0 ==> StackBlock(s, tasks[t].kstack)
  }

  predicate StackBlock(s: State, stack: nat) {
    && stack >= BLOCK_HEADER_SIZE && IsLive(s, stack - BLOCK_HEADER_SIZE)
    && s.blocks[stack - BLOCK_HEADER_SIZE].len >= TASK_STACK_SIZE + BLOCK_HEADER_SIZE
  }

  /** A stack that kmalloc delivers overlaps no live task's stack, and the stacks stay in the heap. */
  lemma HeapStackIsFree(tasks: seq<Task>, s: State, boot: Boot, e: HeapModel.Event)
    requires Ok(s) && StacksInHeap(tasks, s, boot) && e.Alloc? && e.size == TASK_STACK_SIZE
    ensures StacksInHeap(tasks, HeapModel.Step(s, e), boot)
    ensures Succeeds(s, e) ==>
      var stack := Chosen(s, e) + BLOCK_HEADER_SIZE;
      StackFree(tasks, boot, stack) && StackBlock(HeapModel.Step(s, e), stack)
  {
    hide Ok, HeapModel.Step, Succeeds, Chosen;
    AllocContract(s, e);
    var u := HeapModel.Step(s, e);
    StepOk(s, e);
    forall t | 0 <= t < |tasks| && tasks[t].state != DEAD && tasks[t].kstack != 0
      ensures StackBlock(u, tasks[t].kstack)
    {
      assert StackBlock(s, tasks[t].kstack);
    }
    if Succeeds(s, e) {
      var a := Chosen(s, e);
      InHeapAbove(u, a);
      forall t | 0 <= t < |tasks| && tasks[t].state != DEAD
        ensures a + BLOCK_HEADER_SIZE + TASK_STACK_SIZE <= StackLo(tasks[t], boot) || StackHi(tasks[t], boot) <= a + BLOCK_HEADER_SIZE
      {
        if tasks[t].kstack != 0 {
          assert StackBlock(s, tasks[t].kstack) && StackBlock(u, tasks[t].kstack);
        }
      }
    }
  }

  lemma InHeapAbove(s: State, a: nat)
    requires Ok(s) && a in s.blocks
    ensures HEAP_START <= a
  {
  }

  /** Heap and task table together.  That the table's array is not the bitmap's array follows from
      their element types; it is stated for framing. */
  ghost predicate Coupled(heap: KernelHeap, tasks: TaskTable)
    reads heap, heap.vm, heap.vm.pmm, heap.vm.pmm.bitmap, tasks, tasks.table
  {
    && (tasks.table as object) != heap.vm.pmm.bitmap
    && heap.Valid() && tasks.Valid() && StacksInHeap(tasks.table[..], heap.s, tasks.boot)
  }

  /** task_create with its call of kmalloc: the new task never shares stack memory. */
  method CreateFromHeap(heap: KernelHeap, tasks: TaskTable, entry: Word) returns (slot: Option<nat>)
    requires Coupled(heap, tasks) && (NeedsRoom(heap.s, TASK_STACK_SIZE) ==> heap.CanGrow(PagesNeeded(TASK_STACK_SIZE)))
    modifies heap, heap.vm, heap.vm.pmm, heap.vm.pmm.bitmap, tasks, tasks.table
    ensures Coupled(heap, tasks)
    ensures slot.None? ==>
      FirstDead(old(tasks.Now()).states) == MAX_TASKS || AlmostExhausted(heap.vm.pmm.used, heap.vm.pmm.totalFrames)
    ensures tasks.Now() == match slot case Some(t) => Spawned(old(tasks.Now()), t) case None => old(tasks.Now())
  {
    hide KernelHeap.Valid, TaskTable.Valid, Ok, StackFree, HeapModel.Step, Succeeds, Chosen, Created, KernelHeap.CanGrow, HeapBacking.Grew, HeapWords.LiveWordsKept, AlmostExhausted;
    ghost var t0, s0, v := tasks.table[..], heap.s, tasks.Now();
    var size := TASK_STACK_SIZE;
    HeapIsOk(heap);
    TableIsFull(tasks);
    var t := tasks.FindDead();
    if t == MAX_TASKS { return None; }
    var stack;
    ghost var mapped;
    stack, mapped := heap.Kmalloc(size);
    HeapStackIsFree(t0, s0, tasks.boot, Alloc(size, mapped));
    slot := tasks.TaskCreate(entry, stack);
    HeapStackKept(t0, tasks.table[..], s0, tasks.boot, Alloc(size, mapped), slot, stack);
  }

  /** The new task's stack is the new block; every other task has the stack it had. */
  lemma HeapStackKept(tasks: seq<Task>, tasks': seq<Task>, s: State, boot: Boot, e: HeapModel.Event, slot: Option<nat>, stack: nat)
    requires Ok(s) && StacksInHeap(tasks, s, boot) && e.Alloc? && e.size == TASK_STACK_SIZE
    requires |tasks'| == |tasks| && stack == if Succeeds(s, e) then Chosen(s, e) + BLOCK_HEADER_SIZE else 0
    requires forall t :: 0 <= t < |tasks| && Some(t) != slot ==>
               tasks'[t].kstack == tasks[t].kstack && (tasks'[t].state != DEAD ==> tasks[t].state != DEAD)
    requires slot.Some? ==> slot.value < |tasks| && stack != 0 && tasks'[slot.value].kstack == stack
    ensures StacksInHeap(tasks', HeapModel.Step(s, e), boot)
  {
    hide Ok, HeapModel.Step, Succeeds, Chosen;
    HeapStackIsFree(tasks, s, boot, e);
  }

  function Spawned(v: View, t: nat): View {
    if t < |v.states| then Created(v, t) else v
  }

  lemma HeapIsOk(heap: KernelHeap)
    requires heap.Valid()
    ensures Ok(heap.s)
  {
    hide Ok;
  }

  lemma TableIsFull(tasks: TaskTable)
    requires tasks.Valid()
    ensures tasks.table.Length == MAX_TASKS
  {
  }
}
