/** What the scheduler of src/task/task.c does to states and queue, and what the context switch of
    src/task/switch.s does to stacks and registers, as functions. */
module Tasks {
  import opened Wrappers
  import opened PageTables
  import opened Pmm

  const MAX_TASKS := 32
  const TASK_STACK_SIZE := 8192
  const IDLE := 1

  datatype TaskState = DEAD | READY | RUNNING

  // ----- states and queue -----

  /** The state of every slot, the ready queue front first, and the slot that runs. */
  datatype View = View(states: seq<TaskState>, ready: seq<nat>, current: nat)

  ghost predicate NoRepeats(ready: seq<nat>) {
    forall i, j :: 0 <= i < j < |ready| ==> ready[i] != ready[j]
  }

  predicate InTable(v: View) {
    v.current < |v.states| && forall i :: 0 <= i < |v.ready| ==> v.ready[i] < |v.states|
  }

  /** The queue holds exactly the ready tasks, once each, and nothing runs but the current task. */
  ghost predicate Queued(v: View) {
    && |v.states| == MAX_TASKS && InTable(v) && NoRepeats(v.ready)
    && (forall t: nat :: t in v.ready <==> t < MAX_TASKS && v.states[t] == READY)
    && (forall t :: 0 <= t < MAX_TASKS && v.states[t] == RUNNING ==> t == v.current)
  }

  /** Between two calls into the scheduler: the current task is the running one, and the idle task
      runs or waits. */
  ghost predicate Settled(v: View) {
    Queued(v) && v.states[v.current] == RUNNING && v.states[IDLE] != DEAD
  }

  /** schedule: the front of the queue runs, and the current task, if it was running, goes last. */
  function Scheduled(v: View): View
    requires InTable(v)
  {
    if v.ready == [] then v
    else
      var n := v.ready[0];
      var out := v.states[v.current] == RUNNING;
      var states := if out then v.states[v.current := READY] else v.states;
      View(states[n := RUNNING], if out then v.ready[1..] + [v.current] else v.ready[1..], n)
  }

  /** The first part of task_yield: the running task queues up. */
  function Requeued(v: View): View
    requires v.current < |v.states|
  {
    v.(states := v.states[v.current := READY], ready := v.ready + [v.current])
  }

  /** The first part of sys_exit. */
  function Killed(v: View): View
    requires v.current < |v.states|
  {
    v.(states := v.states[v.current := DEAD])
  }

  /** A new task in slot t. */
  function Created(v: View, t: nat): View
    requires t < |v.states|
  {
    v.(states := v.states[t := READY], ready := v.ready + [t])
  }

  /** The lowest dead slot, or the number of slots. */
  function FirstDead(states: seq<TaskState>): (t: nat)
    ensures t <= |states| && (t < |states| ==> states[t] == DEAD)
    ensures forall u :: 0 <= u < t ==> states[u] != DEAD
  {
    if states == [] || states[0] == DEAD then 0 else 1 + FirstDead(states[1..])
  }

  lemma FirstDeadIs(states: seq<TaskState>, t: nat)
    requires t <= |states| && (forall u :: 0 <= u < t ==> states[u] != DEAD) && (t < |states| ==> states[t] == DEAD)
    ensures FirstDead(states) == t
  {
  }

  lemma AppendHas(ready: seq<nat>, t: nat)
    requires NoRepeats(ready) && t !in ready
    ensures NoRepeats(ready + [t])
    ensures forall u: nat :: u in ready + [t] <==> u in ready || u == t
  {
  }

  lemma PopHas(ready: seq<nat>)
    requires NoRepeats(ready) && ready != []
    ensures NoRepeats(ready[1..])
    ensures forall u: nat :: u in ready[1..] <==> u in ready && u != ready[0]
  {
    assert ready == [ready[0]] + ready[1..];
  }

  /** schedule keeps the queue right; it leaves a running task unless it was called by a dying or
      yielding task with nothing queued. */
  lemma ScheduledKeeps(v: View)
    requires Queued(v) && v.states[IDLE] != DEAD && (v.states[v.current] == RUNNING || v.ready != [])
    ensures Settled(Scheduled(v))
    ensures v.ready != [] ==> Scheduled(v).current == v.ready[0]
  {
    if v.ready != [] {
      PopHas(v.ready);
      assert v.ready[0] in v.ready;
      if v.states[v.current] == RUNNING { AppendHas(v.ready[1..], v.current); }
    }
  }

  lemma RequeuedKeeps(v: View)
    requires Settled(v)
    ensures Queued(Requeued(v)) && Requeued(v).states[IDLE] != DEAD && Requeued(v).ready != []
  {
    AppendHas(v.ready, v.current);
  }

  /** The idle task waits whenever another task runs, so a task that exits is never switched to. */
  lemma KilledKeeps(v: View)
    requires Settled(v) && v.current != IDLE
    ensures Queued(Killed(v)) && Killed(v).states[IDLE] != DEAD && v.ready != [] && v.ready[0] != v.current
  {
    assert IDLE in v.ready;
    assert v.ready[0] in v.ready;
  }

  lemma CreatedKeeps(v: View, t: nat)
    requires Settled(v) && t < MAX_TASKS && v.states[t] == DEAD
    ensures Settled(Created(v, t))
  {
    AppendHas(v.ready, t);
  }

  /** The scheduler's operations as the rest of the kernel calls them. */
  datatype Op = Tick | Yield | Exit | Create

  predicate Allowed(v: View, op: Op) {
    op == Exit ==> v.current != IDLE
  }

  function After(v: View, op: Op): View
    requires InTable(v)
  {
    match op
    case Tick => Scheduled(v)
    case Yield => Scheduled(Requeued(v))
    case Exit => Scheduled(Killed(v))
    case Create => if FirstDead(v.states) < |v.states| then Created(v, FirstDead(v.states)) else v
  }

  lemma AfterKeeps(v: View, op: Op)
    requires Settled(v) && Allowed(v, op)
    ensures InTable(v)
    ensures Settled(After(v, op))
  {
    forall i | 0 <= i < |v.ready| ensures v.ready[i] < |v.states| { assert v.ready[i] in v.ready; }
    match op
    case Tick => ScheduledKeeps(v);
    case Yield =>
      RequeuedKeeps(v);
      ScheduledKeeps(Requeued(v));
    case Exit =>
      KilledKeeps(v);
      ScheduledKeeps(Killed(v));
    case Create => if FirstDead(v.states) < MAX_TASKS { CreatedKeeps(v, FirstDead(v.states)); }
  }

  /** With someone waiting, yielding and being preempted are the same. */
  lemma YieldIsTick(v: View)
    requires Settled(v) && v.ready != []
    ensures After(v, Yield) == After(v, Tick)
  {
    var w := Requeued(v);
    assert v.ready[0] in v.ready && w.ready[0] == v.ready[0];
    assert w.ready[1..] == v.ready[1..] + [v.current];
    assert w.states[v.ready[0] := RUNNING] == v.states[v.current := READY][v.ready[0] := RUNNING];
  }

  // ----- runs -----

  ghost predicate Runs(v: View, ops: seq<Op>, w: View)
    requires Settled(v)
    decreases |ops|
  {
    if ops == [] then v == w
    else Allowed(v, ops[0]) && (AfterKeeps(v, ops[0]); Runs(After(v, ops[0]), ops[1..], w))
  }

  lemma {:induction false} RunKeeps(v: View, ops: seq<Op>, w: View)
    requires Settled(v) && Runs(v, ops, w)
    ensures Settled(w) && (w.current == IDLE || IDLE in w.ready)
    decreases |ops|
  {
    hide After;
    if ops != [] {
      AfterKeeps(v, ops[0]);
      RunKeeps(After(v, ops[0]), ops[1..], w);
    }
  }

  function Switches(ops: seq<Op>): nat {
    if ops == [] then 0 else (if ops[0] == Create then 0 else 1) + Switches(ops[1..])
  }

  /** One operation moves a waiting task one place forward, or runs it if it was in front. */
  lemma OneStepForward(v: View, op: Op, k: nat)
    requires Settled(v) && Allowed(v, op) && k < |v.ready| && InTable(v)
    ensures var w := After(v, op);
            if op == Create then k < |w.ready| && w.ready[k] == v.ready[k]
            else if k == 0 then w.current == v.ready[0]
            else k - 1 < |w.ready| && w.ready[k - 1] == v.ready[k]
  {
  }

  lemma {:induction false} CreationsKeepCurrent(v: View, ops: seq<Op>, w: View)
    requires Settled(v) && Runs(v, ops, w) && Switches(ops) == 0
    ensures w.current == v.current
    decreases |ops|
  {
    hide Settled;
    if ops != [] {
      AfterKeeps(v, ops[0]);
      CreationsKeepCurrent(After(v, ops[0]), ops[1..], w);
    }
  }

  /** Bounded waiting: the task at place k of the queue runs after exactly k + 1 calls that switch,
      whatever is created or exits in between, and until then it waits one place further on. */
  lemma {:induction false} BoundedWaiting(v: View, ops: seq<Op>, w: View, k: nat)
    requires Settled(v) && Runs(v, ops, w) && k < |v.ready|
    ensures Switches(ops) <= k ==> k - Switches(ops) < |w.ready| && w.ready[k - Switches(ops)] == v.ready[k]
    ensures Switches(ops) == k + 1 ==> w.current == v.ready[k]
    decreases |ops|
  {
    hide After, Settled;
    if ops != [] {
      AfterKeeps(v, ops[0]);
      OneStepForward(v, ops[0], k);
      var u := After(v, ops[0]);
      if ops[0] == Create {
        BoundedWaiting(u, ops[1..], w, k);
      } else if k > 0 {
        BoundedWaiting(u, ops[1..], w, k - 1);
      } else if Switches(ops) == 1 {
        CreationsKeepCurrent(u, ops[1..], w);
      }
    }
  }

  ghost function Members(ready: seq<nat>): set<nat> {
    set t | t in ready
  }

  lemma {:induction false} MembersCount(ready: seq<nat>)
    requires NoRepeats(ready)
    ensures |Members(ready)| == |ready|
  {
    if ready != [] {
      PopHas(ready);
      MembersCount(ready[1..]);
      assert Members(ready) == Members(ready[1..]) + {ready[0]};
    }
  }

  /** So nobody waits for more than MAX_TASKS - 1 switches. */
  lemma QueueIsShort(v: View)
    requires Settled(v)
    ensures |v.ready| <= MAX_TASKS - 1
  {
    MembersCount(v.ready);
    var others := FrameRange(0, MAX_TASKS) - {v.current};
    FrameRangeSize(0, MAX_TASKS);
    assert v.current !in v.ready && Members(v.ready) <= others;
    SubsetSize(Members(v.ready), others);
  }

  lemma SubsetSize(a: set<nat>, b: set<nat>)
    requires a <= b
    ensures |a| <= |b|
  {
    assert b == a + (b - a);
  }

  // ----- registers and stacks -----

  /** The registers that a context switch saves and restores.  rip is where execution goes on. */
  datatype Cpu = Cpu(rsp: nat, rip: Word, rflags: Word, rbp: Word, rbx: Word, r12: Word, r13: Word, r14: Word, r15: Word)

  type Ram = map<nat, Word>

  function Read(ram: Ram, x: nat): Word { if x in ram then ram[x] else 0 }

  /** What popping from sp in switch.s's order restores. */
  function FrameAt(ram: Ram, sp: nat): Cpu {
    Cpu(sp + 64, Read(ram, sp + 56), Read(ram, sp + 48), Read(ram, sp + 40), Read(ram, sp + 32),
        Read(ram, sp + 24), Read(ram, sp + 16), Read(ram, sp + 8), Read(ram, sp))
  }

  /** The memory differs at most in [lo, hi). */
  ghost predicate WroteOnly(ram: Ram, ram': Ram, lo: nat, hi: nat) {
    forall x: nat {:trigger Read(ram', x)} :: x < lo || hi <= x ==> Read(ram', x) == Read(ram, x)
  }

  lemma FrameElsewhere(ram: Ram, ram': Ram, lo: nat, hi: nat, sp: nat)
    requires WroteOnly(ram, ram', lo, hi) && (sp + 64 <= lo || hi <= sp)
    ensures FrameAt(ram', sp) == FrameAt(ram, sp)
  {
    hide Read;
  }

  /** A new task starts at its entry with interrupts enabled and zeroed registers. */
  function FreshCpu(stack: nat, entry: Word): Cpu {
    Cpu(stack + TASK_STACK_SIZE, entry, 0x200, 0, 0, 0, 0, 0, 0)
  }

  /** In the registers of a new task interrupts are enabled and everything else is zero. */
  lemma FreshRegisters(stack: nat, entry: Word)
    ensures var c := FreshCpu(stack, entry);
            && c.rip == entry && c.rsp == stack + TASK_STACK_SIZE && c.rflags / 0x200 == 1 && c.rflags % 0x200 == 0
            && c.rbp == 0 && c.rbx == 0 && c.r12 == 0 && c.r13 == 0 && c.r14 == 0 && c.r15 == 0
  {
  }
}
