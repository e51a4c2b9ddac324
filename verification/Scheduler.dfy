/** The task table, the ready list and the context switch (src/task/task.c, src/task/switch.s). */
module Scheduler {
  import opened Wrappers
  import opened PageTables
  import opened Tasks

  /** task_t.  A pointer to a task is its slot; kstack is 0 for the boot task. */
  datatype Task = Task(pid: nat, state: TaskState, sp: nat, kstack: nat, next: Option<nat>, ring: nat, cr3: nat,
                       userRip: nat, userRsp: nat, userRflags: nat)

  const NO_TASK := Task(0, DEAD, 0, 0, None, 0, 0, 0, 0, 0)

  /** A task was switched out (or created) with these registers, or switched in. */
  datatype Event = Saved(slot: nat, cpu: Cpu) | Resumed(slot: nat, cpu: Cpu)

  /** The registers with which a task was last switched out or created. */
  function LastSaved(log: seq<Event>, t: nat): Option<Cpu> {
    if log == [] then None
    else
      var e := log[|log| - 1];
      if e.Saved? && e.slot == t then Some(e.cpu) else LastSaved(log[..|log| - 1], t)
  }

  /** Resume fidelity: whoever was switched in got the registers it was last switched out with. */
  ghost predicate Faithful(log: seq<Event>) {
    forall i :: 0 <= i < |log| && log[i].Resumed? ==> LastSaved(log[..i], log[i].slot) == Some(log[i].cpu)
  }

  lemma LastSavedNext(log: seq<Event>, e: Event, t: nat)
    ensures LastSaved(log + [e], t) == if e.Saved? && e.slot == t then Some(e.cpu) else LastSaved(log, t)
  {
    assert (log + [e])[..|log|] == log;
  }

  lemma FaithfulNext(log: seq<Event>, e: Event)
    requires Faithful(log) && (e.Resumed? ==> LastSaved(log, e.slot) == Some(e.cpu))
    ensures Faithful(log + [e])
  {
    var t := log + [e];
    forall i | 0 <= i < |t| && t[i].Resumed? ensures LastSaved(t[..i], t[i].slot) == Some(t[i].cpu) {
      if i < |log| { assert t[..i] == log[..i]; } else { assert t[..i] == log; }
    }
  }

  function States(tasks: seq<Task>): (r: seq<TaskState>)
    ensures |r| == |tasks| && forall i :: 0 <= i < |r| ==> r[i] == tasks[i].state
  {
    seq(|tasks|, i requires 0 <= i < |tasks| => tasks[i].state)
  }

  function Nth(ready: seq<nat>, i: nat): Option<nat> {
    if i < |ready| then Some(ready[i]) else None
  }

  /** The next fields from head to tail spell the queue. */
  ghost predicate ListIs(tasks: seq<Task>, head: Option<nat>, tail: Option<nat>, ready: seq<nat>) {
    && head == Nth(ready, 0)
    && tail == (if ready == [] then None else Some(ready[|ready| - 1]))
    && (forall i :: 0 <= i < |ready| ==> ready[i] < |tasks| && tasks[ready[i]].next == Nth(ready, i + 1))
  }

  /** The tables agree on everything but the links. */
  ghost predicate SameButLinks(tasks: seq<Task>, tasks': seq<Task>) {
    |tasks'| == |tasks| && forall i :: 0 <= i < |tasks| ==> tasks'[i].(next := None) == tasks[i].(next := None)
  }

  /** Where the boot task's stack lies. */
  datatype Boot = Boot(lo: nat, hi: nat)

  function StackLo(k: Task, boot: Boot): nat { if k.kstack == 0 then boot.lo else k.kstack }

  function StackHi(k: Task, boot: Boot): nat { if k.kstack == 0 then boot.hi else k.kstack + TASK_STACK_SIZE }

  predicate Separate(k: Task, l: Task, boot: Boot) {
    StackHi(k, boot) <= StackLo(l, boot) || StackHi(l, boot) <= StackLo(k, boot)
  }

  predicate UsesStack(tasks: seq<Task>, current: nat, t: nat)
    requires t < |tasks|
  {
    tasks[t].state != DEAD || t == current
  }

  /** No two tasks that are alive or running share stack memory. */
  ghost predicate StacksApart(tasks: seq<Task>, current: nat, boot: Boot) {
    forall t, u :: 0 <= t < |tasks| && 0 <= u < |tasks| && t != u && UsesStack(tasks, current, t) && UsesStack(tasks, current, u) ==>
      Separate(tasks[t], tasks[u], boot)
  }

  /** Task t waits with its registers on its own stack. */
  ghost predicate Waits(k: Task, t: nat, ram: Ram, log: seq<Event>, boot: Boot) {
    && StackLo(k, boot) <= k.sp && k.sp + 64 <= StackHi(k, boot)
    && LastSaved(log, t) == Some(FrameAt(ram, k.sp))
  }

  ghost predicate Parked(tasks: seq<Task>, current: nat, ram: Ram, log: seq<Event>, boot: Boot) {
    forall t :: 0 <= t < |tasks| && tasks[t].state == READY && t != current ==> Waits(tasks[t], t, ram, log, boot)
  }

  /** Live tasks have different process ids, all below the next one. */
  ghost predicate PidsOk(tasks: seq<Task>, nextPid: nat) {
    && (forall t :: 0 <= t < |tasks| && tasks[t].state != DEAD ==> tasks[t].pid < nextPid)
    && (forall t, u :: 0 <= t < u < |tasks| && tasks[t].state != DEAD && tasks[u].state != DEAD ==> tasks[t].pid != tasks[u].pid)
  }

  /** Enough of its own stack below rsp for the return address and seven registers. */
  predicate Room(k: Task, cpu: Cpu, boot: Boot) {
    StackLo(k, boot) + 64 <= cpu.rsp <= StackHi(k, boot)
  }

  /** The list is in the next fields only. */
  lemma ListIgnoresStates(tasks: seq<Task>, tasks': seq<Task>, head: Option<nat>, tail: Option<nat>, ready: seq<nat>)
    requires ListIs(tasks, head, tail, ready)
    requires |tasks'| == |tasks| && forall i :: 0 <= i < |tasks| ==> tasks'[i].next == tasks[i].next
    ensures ListIs(tasks', head, tail, ready)
  {
  }

  lemma QueueFacts(v: View)
    requires Queued(v)
    ensures InTable(v) && NoRepeats(v.ready) && (v.states[v.current] == RUNNING ==> v.current !in v.ready)
    ensures v.ready != [] ==> NoRepeats(v.ready[1..]) && v.ready[0] < MAX_TASKS
    ensures v.ready != [] && v.states[v.current] == RUNNING ==> v.current !in v.ready[1..]
  {
    if v.ready != [] { PopHas(v.ready); }
  }

  lemma SameQueue(tasks: seq<Task>)
    ensures SameButQueue(tasks, tasks)
  {
  }

  lemma SameQueueLinks(tasks: seq<Task>, tasks': seq<Task>)
    requires SameButLinks(tasks, tasks')
    ensures SameButQueue(tasks, tasks') && States(tasks') == States(tasks)
  {
    forall t | 0 <= t < |tasks| ensures tasks'[t] == tasks[t].(next := tasks'[t].next) {
      assert tasks'[t].(next := None) == tasks[t].(next := None);
    }
  }

  lemma SameQueueTwice(t0: seq<Task>, t1: seq<Task>, t2: seq<Task>)
    requires SameButQueue(t0, t1) && SameButQueue(t1, t2)
    ensures SameButQueue(t0, t2)
  {
  }

  function SavedAt(tasks: seq<Task>, a: nat, sp: nat): seq<Task>
    requires a < |tasks|
  {
    tasks[a := tasks[a].(sp := sp)]
  }

  lemma SavedQueue(t0: seq<Task>, t1: seq<Task>, a: nat, sp: nat)
    requires SameButQueue(t0, t1) && a < |t0|
    ensures SameButQueue(SavedAt(t0, a, sp), SavedAt(t1, a, sp))
  {
  }

  lemma SavedQueueTwice(t0: seq<Task>, t1: seq<Task>, t2: seq<Task>, a: nat, sp: nat)
    requires SameButQueue(t0, t1) && a < |t0| && SameButQueue(SavedAt(t1, a, sp), t2)
    ensures SameButQueue(SavedAt(t0, a, sp), t2)
  {
  }

  lemma QueueAfterLinks(t0: seq<Task>, t1: seq<Task>, t2: seq<Task>, t: nat, state: TaskState)
    requires t < |t0| && t1 == t0[t := t0[t].(state := state)] && SameButLinks(t1, t2)
    ensures SameButQueue(t0, t2) && States(t2) == States(t0)[t := state]
  {
    SameQueueLinks(t1, t2);
  }

  /** Appending to the list. */
  lemma LinkedAppend(tasks: seq<Task>, tasks': seq<Task>, head: Option<nat>, tail: Option<nat>, ready: seq<nat>, t: nat)
    requires ListIs(tasks, head, tail, ready) && NoRepeats(ready) && t !in ready && t < |tasks|
    requires |tasks'| == |tasks| && tasks'[t].next == None
    requires ready != [] ==> tasks'[ready[|ready| - 1]].next == Some(t)
    requires forall i :: 0 <= i < |tasks| && i != t && (ready != [] ==> i != ready[|ready| - 1]) ==> tasks'[i] == tasks[i]
    ensures ListIs(tasks', if ready == [] then Some(t) else head, Some(t), ready + [t])
  {
  }

  lemma LinkedPop(tasks: seq<Task>, tasks': seq<Task>, head: Option<nat>, tail: Option<nat>, ready: seq<nat>)
    requires ListIs(tasks, head, tail, ready) && NoRepeats(ready) && ready != []
    requires |tasks'| == |tasks| && forall i :: 0 <= i < |tasks| && i != ready[0] ==> tasks'[i] == tasks[i]
    ensures ListIs(tasks', Nth(ready, 1), if |ready| == 1 then None else tail, ready[1..])
  {
  }

  /** The tables agree on everything but states and links. */
  ghost predicate SameButQueue(tasks: seq<Task>, tasks': seq<Task>) {
    |tasks'| == |tasks| && forall i :: 0 <= i < |tasks| ==> tasks'[i] == tasks[i].(state := tasks'[i].state, next := tasks'[i].next)
  }

  /** What holds inside the scheduler for its data, the list apart. */
  ghost predicate Settling(tasks: seq<Task>, v: View, ram: Ram, log: seq<Event>, boot: Boot, nextPid: nat) {
    && |tasks| == MAX_TASKS && v.states == States(tasks) && Queued(v) && v.states[IDLE] != DEAD
    && StacksApart(tasks, v.current, boot) && Parked(tasks, v.current, ram, log, boot)
    && PidsOk(tasks, nextPid) && Faithful(log)
  }

  /** Pushing on one stack leaves the frames on the others. */
  lemma WaitsElsewhere(tasks: seq<Task>, current: nat, ram: Ram, ram': Ram, log: seq<Event>, boot: Boot, c: Cpu, t: nat)
    requires StacksApart(tasks, current, boot) && t < |tasks| && current < |tasks| && t != current && tasks[t].state == READY
    requires Waits(tasks[t], t, ram, log, boot) && Room(tasks[current], c, boot)
    requires WroteOnly(ram, ram', c.rsp - 64, c.rsp)
    ensures Waits(tasks[t], t, ram', log, boot) && FrameAt(ram', tasks[t].sp) == FrameAt(ram, tasks[t].sp)
  {
    hide FrameAt, LastSaved;
    assert Separate(tasks[t], tasks[current], boot);
    FrameElsewhere(ram, ram', c.rsp - 64, c.rsp, tasks[t].sp);
  }

  lemma WaitsOn(k: Task, k': Task, t: nat, ram: Ram, log: seq<Event>, log': seq<Event>, boot: Boot)
    requires Waits(k, t, ram, log, boot) && k'.sp == k.sp && k'.kstack == k.kstack && LastSaved(log', t) == LastSaved(log, t)
    ensures Waits(k', t, ram, log', boot)
  {
    hide FrameAt, LastSaved;
  }

  /** The log after a switch from task a, saving c, to task n. */
  function Switched(log: seq<Event>, a: nat, c: Cpu, n: nat, d: Cpu): seq<Event> {
    log + [Saved(a, c)] + [Resumed(n, d)]
  }

  lemma SwitchedLog(log: seq<Event>, a: nat, c: Cpu, n: nat, d: Cpu)
    requires Faithful(log) && if n == a then d == c else LastSaved(log, n) == Some(d)
    ensures Faithful(Switched(log, a, c, n, d))
    ensures forall t :: LastSaved(Switched(log, a, c, n, d), t) == if t == a then Some(c) else LastSaved(log, t)
  {
    var l1 := log + [Saved(a, c)];
    forall t ensures LastSaved(Switched(log, a, c, n, d), t) == if t == a then Some(c) else LastSaved(log, t) {
      LastSavedNext(log, Saved(a, c), t);
      LastSavedNext(l1, Resumed(n, d), t);
    }
    LastSavedNext(log, Saved(a, c), n);
    FaithfulNext(log, Saved(a, c));
    FaithfulNext(l1, Resumed(n, d));
  }

  /** Every task that is ready after a switch waits with its frame, the switching task with the new one. */
  lemma ParkedAfter(tasks: seq<Task>, done: seq<Task>, a: nat, n: nat, ram: Ram, ram': Ram, log: seq<Event>, log': seq<Event>, boot: Boot, c: Cpu)
    requires StacksApart(tasks, a, boot) && Parked(tasks, a, ram, log, boot) && a < |tasks| == |done|
    requires Room(tasks[a], c, boot) && WroteOnly(ram, ram', c.rsp - 64, c.rsp)
    requires forall t :: 0 <= t < |tasks| ==> done[t].kstack == tasks[t].kstack
    requires forall t :: 0 <= t < |tasks| && t != a ==> done[t].sp == tasks[t].sp
    requires forall t :: 0 <= t < |tasks| && t != a && t != n && done[t].state == READY ==> tasks[t].state == READY
    requires forall t :: t != a ==> LastSaved(log', t) == LastSaved(log, t)
    requires done[a].sp == c.rsp - 64 && LastSaved(log', a) == Some(FrameAt(ram', c.rsp - 64))
    ensures Parked(done, n, ram', log', boot)
  {
    hide FrameAt, LastSaved, WroteOnly, Waits, Separate, StacksApart;
    forall t | 0 <= t < |done| && done[t].state == READY && t != n ensures Waits(done[t], t, ram', log', boot) {
      if t == a {
        WaitsNow(done[t], t, ram', log', boot);
      } else {
        WaitsElsewhere(tasks, a, ram, ram', log, boot, c, t);
        WaitsOn(tasks[t], done[t], t, ram', log, log', boot);
      }
    }
  }

  /** A switch, from the queue's decision to the restored registers. */
  lemma SwitchKeeps(tasks: seq<Task>, picked: seq<Task>, v: View, ram: Ram, ram': Ram, log: seq<Event>, boot: Boot, nextPid: nat, c: Cpu, ret: Word)
    requires Settling(tasks, v, ram, log, boot, nextPid) && v.ready != []
    requires SameButQueue(tasks, picked) && States(picked) == Scheduled(v).states
    requires Room(tasks[v.current], c, boot) && WroteOnly(ram, ram', c.rsp - 64, c.rsp)
    requires FrameAt(ram', c.rsp - 64) == c.(rip := ret)
    requires v.ready[0] == v.current ==> tasks[v.current].sp + 64 == c.rsp
    ensures var n := v.ready[0];
            var done := picked[v.current := picked[v.current].(sp := c.rsp - 64)];
            var log' := Switched(log, v.current, c.(rip := ret), n, FrameAt(ram', picked[n].sp));
            && Settling(done, Scheduled(v), ram', log', boot, nextPid)
            && (n != v.current ==> LastSaved(log, n) == Some(FrameAt(ram', picked[n].sp)))
  {
    hide FrameAt, LastSaved, Faithful, Switched, WroteOnly, Waits, Separate;
    var n, a := v.ready[0], v.current;
    var done := picked[a := picked[a].(sp := c.rsp - 64)];
    assert n in v.ready;
    ScheduledKeeps(v);
    if n != a {
      WaitsElsewhere(tasks, a, ram, ram', log, boot, c, n);
      WaitsMeans(tasks[n], n, ram', log, boot);
    }
    var d := FrameAt(ram', picked[n].sp);
    var log' := Switched(log, a, c.(rip := ret), n, d);
    SwitchedLog(log, a, c.(rip := ret), n, d);
    StacksStay(tasks, picked, done, v, boot);
    hide StacksApart, Parked, PidsOk;
    ParkedAfter(tasks, done, a, n, ram, ram', log, log', boot, c);
  }

  lemma WaitsMeans(k: Task, t: nat, ram: Ram, log: seq<Event>, boot: Boot)
    requires Waits(k, t, ram, log, boot)
    ensures LastSaved(log, t) == Some(FrameAt(ram, k.sp))
  {
  }

  lemma WaitsNow(k: Task, t: nat, ram: Ram, log: seq<Event>, boot: Boot)
    requires StackLo(k, boot) <= k.sp && k.sp + 64 <= StackHi(k, boot) && LastSaved(log, t) == Some(FrameAt(ram, k.sp))
    ensures Waits(k, t, ram, log, boot)
  {
  }

  lemma StacksStay(tasks: seq<Task>, picked: seq<Task>, done: seq<Task>, v: View, boot: Boot)
    requires |tasks| == MAX_TASKS && v.states == States(tasks) && Queued(v) && v.ready != []
    requires SameButQueue(tasks, picked) && States(picked) == Scheduled(v).states
    requires exists sp :: done == picked[v.current := picked[v.current].(sp := sp)]
    ensures StacksApart(tasks, v.current, boot) ==> StacksApart(done, v.ready[0], boot)
    ensures forall nextPid :: PidsOk(tasks, nextPid) ==> PidsOk(done, nextPid)
    ensures States(done) == States(picked)
  {
    var n := v.ready[0];
    assert n in v.ready;
    forall t | 0 <= t < MAX_TASKS
      ensures done[t].kstack == tasks[t].kstack && done[t].pid == tasks[t].pid
      ensures done[t].state != DEAD ==> tasks[t].state != DEAD
    {
    }
    if StacksApart(tasks, v.current, boot) {
      forall t, u | 0 <= t < |done| && 0 <= u < |done| && t != u && UsesStack(done, n, t) && UsesStack(done, n, u)
        ensures Separate(done[t], done[u], boot)
      {
        assert Separate(tasks[t], tasks[u], boot);
      }
    }
  }

  /** A change of states that wakes nobody up keeps the rest. */
  lemma StatesKeep(tasks: seq<Task>, tasks': seq<Task>, v: View, v': View, ram: Ram, log: seq<Event>, boot: Boot, nextPid: nat)
    requires Settling(tasks, v, ram, log, boot, nextPid) && SameButQueue(tasks, tasks')
    requires v'.states == States(tasks') && Queued(v') && v'.states[IDLE] != DEAD && v'.current == v.current
    requires forall t :: 0 <= t < MAX_TASKS && t != v.current ==> v'.states[t] == v.states[t]
    requires v.states[v.current] != DEAD
    ensures Settling(tasks', v', ram, log, boot, nextPid)
  {
    hide FrameAt, LastSaved, Faithful, Queued, Separate;
    forall t | 0 <= t < MAX_TASKS ensures tasks'[t].kstack == tasks[t].kstack && tasks'[t].pid == tasks[t].pid && tasks'[t].sp == tasks[t].sp {
    }
    forall t, u | 0 <= t < |tasks'| && 0 <= u < |tasks'| && t != u && UsesStack(tasks', v'.current, t) && UsesStack(tasks', v'.current, u)
      ensures Separate(tasks'[t], tasks'[u], boot)
    {
      assert Separate(tasks[t], tasks[u], boot);
      SameStack(tasks[t], tasks'[t], tasks[u], tasks'[u], boot);
    }
  }

  /** Only the idle task can find the queue empty when it yields. */
  lemma YieldingIdle(v: View)
    requires Settled(v)
    ensures v.ready == [] ==> v.current == IDLE && Requeued(v).ready[0] == v.current
    ensures v.ready != [] ==> Requeued(v).ready[0] == v.ready[0] != v.current
  {
    if v.ready == [] { assert IDLE !in v.ready; } else { assert v.ready[0] in v.ready; }
  }

  /** A frame restores the registers saved at c only if it is read from where they were saved. */
  lemma SavedPointer(ram: Ram, sp: nat, c: Cpu)
    requires c.rsp >= 64 && FrameAt(ram, c.rsp - 64) == c
    ensures FrameAt(ram, sp) == c <==> sp + 64 == c.rsp
  {
    hide Read;
  }

  lemma SameStack(k: Task, k': Task, l: Task, l': Task, boot: Boot)
    requires Separate(k, l, boot) && k'.kstack == k.kstack && l'.kstack == l.kstack
    ensures Separate(k', l', boot)
  {
  }

  /** [stack, stack + TASK_STACK_SIZE) is nobody's. */
  predicate StackFree(tasks: seq<Task>, boot: Boot, stack: nat) {
    forall t :: 0 <= t < |tasks| && tasks[t].state != DEAD ==>
      stack + TASK_STACK_SIZE <= StackLo(tasks[t], boot) || StackHi(tasks[t], boot) <= stack
  }

  /** A new task in a dead slot keeps the rest. */
  lemma CreationKeeps(tasks: seq<Task>, tasks': seq<Task>, v: View, ram: Ram, ram': Ram, log: seq<Event>, boot: Boot, nextPid: nat, t: nat, entry: Word)
    requires Settling(tasks, v, ram, log, boot, nextPid) && Settled(v) && t < MAX_TASKS && tasks[t].state == DEAD
    requires |tasks'| == |tasks| && forall u :: 0 <= u < |tasks| && u != t ==> tasks'[u] == tasks[u].(next := tasks'[u].next)
    requires tasks'[t].state == READY && tasks'[t].pid == nextPid && tasks'[t].kstack != 0
    requires tasks'[t].sp + 64 == tasks'[t].kstack + TASK_STACK_SIZE && StackFree(tasks, boot, tasks'[t].kstack)
    requires WroteOnly(ram, ram', tasks'[t].sp, tasks'[t].sp + 64)
    requires FrameAt(ram', tasks'[t].sp) == FreshCpu(tasks'[t].kstack, entry)
    ensures Settling(tasks', Created(v, t), ram', log + [Saved(t, FreshCpu(tasks'[t].kstack, entry))], boot, nextPid + 1)
  {
    hide FrameAt, LastSaved, Faithful, Separate, Waits, WroteOnly, StackFree;
    var e := Saved(t, FreshCpu(tasks'[t].kstack, entry));
    CreatedKeeps(v, t);
    FaithfulNext(log, e);
    assert States(tasks') == Created(v, t).states;
    forall u, w | 0 <= u < |tasks'| && 0 <= w < |tasks'| && u != w && UsesStack(tasks', v.current, u) && UsesStack(tasks', v.current, w)
      ensures Separate(tasks'[u], tasks'[w], boot)
    {
      if u != t && w != t {
        assert Separate(tasks[u], tasks[w], boot);
        SameStack(tasks[u], tasks'[u], tasks[w], tasks'[w], boot);
      } else {
        NewStackApart(tasks, tasks'[t], boot, if u == t then w else u);
        SeparateEither(tasks, tasks', boot, t, if u == t then w else u);
      }
    }
    forall u | 0 <= u < |tasks'| && tasks'[u].state == READY && u != v.current ensures Waits(tasks'[u], u, ram', log + [e], boot) {
      LastSavedNext(log, e, u);
      if u == t {
        WaitsNow(tasks'[t], t, ram', log + [e], boot);
      } else {
        NewStackApart(tasks, tasks'[t], boot, u);
        WaitsBeside(tasks[u], u, ram, ram', log, boot, tasks'[t]);
        WaitsOn(tasks[u], tasks'[u], u, ram', log, log + [e], boot);
      }
    }
  }

  lemma NewStackApart(tasks: seq<Task>, k: Task, boot: Boot, u: nat)
    requires k.kstack != 0 && StackFree(tasks, boot, k.kstack) && u < |tasks| && tasks[u].state != DEAD
    ensures Separate(k, tasks[u], boot)
  {
  }

  lemma SeparateEither(tasks: seq<Task>, tasks': seq<Task>, boot: Boot, t: nat, u: nat)
    requires t < |tasks'| && u < |tasks| == |tasks'| && Separate(tasks'[t], tasks[u], boot) && tasks'[u].kstack == tasks[u].kstack
    ensures Separate(tasks'[t], tasks'[u], boot) && Separate(tasks'[u], tasks'[t], boot)
  {
  }

  lemma WaitsBeside(k: Task, u: nat, ram: Ram, ram': Ram, log: seq<Event>, boot: Boot, new0: Task)
    requires Waits(k, u, ram, log, boot) && Separate(new0, k, boot) && new0.kstack != 0
    requires new0.sp + 64 == new0.kstack + TASK_STACK_SIZE && WroteOnly(ram, ram', new0.sp, new0.sp + 64)
    ensures Waits(k, u, ram', log, boot)
  {
    hide FrameAt, LastSaved;
    FrameElsewhere(ram, ram', new0.sp, new0.sp + 64, k.sp);
  }

  lemma SameFrame(ram: Ram, ram': Ram, sp: nat)
    requires forall x: nat {:trigger Read(ram', x)} :: sp <= x < sp + 64 ==> Read(ram', x) == Read(ram, x)
    ensures FrameAt(ram', sp) == FrameAt(ram, sp)
  {
    hide Read;
  }

  lemma DeadNotListed(tasks: seq<Task>, tasks': seq<Task>, head: Option<nat>, tail: Option<nat>, ready: seq<nat>, t: nat)
    requires ListIs(tasks, head, tail, ready) && t < |tasks| && t !in ready
    requires |tasks'| == |tasks| && forall u :: 0 <= u < |tasks| && u != t ==> tasks'[u] == tasks[u]
    ensures ListIs(tasks', head, tail, ready)
  {
  }

  lemma LinksElsewhere(t0: seq<Task>, t1: seq<Task>, t2: seq<Task>, t: nat)
    requires t < |t0| == |t1| && SameButLinks(t1, t2) && forall u :: 0 <= u < |t0| && u != t ==> t1[u] == t0[u]
    ensures |t2| == |t0| && t2[t] == t1[t].(next := t2[t].next)
    ensures forall u :: 0 <= u < |t0| && u != t ==> t2[u] == t0[u].(next := t2[u].next)
  {
    forall u | 0 <= u < |t0| ensures t2[u] == t1[u].(next := t2[u].next) {
      assert t2[u].(next := None) == t1[u].(next := None);
    }
  }

  /** The state that kinit_task leaves. */
  lemma BootSettled(tasks: seq<Task>, tasks': seq<Task>, ram: Ram, boot: Boot, stack: nat, entry: Word)
    requires |tasks| == MAX_TASKS && SameButQueue(tasks, tasks') && States(tasks') == States(tasks)
    requires tasks[0] == NO_TASK.(pid := 1, state := RUNNING)
    requires tasks[IDLE] == NO_TASK.(pid := 2, state := READY, kstack := stack, sp := stack + TASK_STACK_SIZE - 64)
    requires forall t :: 2 <= t < MAX_TASKS ==> tasks[t] == NO_TASK
    requires stack != 0 && (stack + TASK_STACK_SIZE <= boot.lo || boot.hi <= stack)
    requires FrameAt(ram, stack + TASK_STACK_SIZE - 64) == FreshCpu(stack, entry)
    ensures Settling(tasks', View(States(tasks'), [IDLE], 0), ram, [Saved(IDLE, FreshCpu(stack, entry))], boot, 3)
  {
    hide FrameAt;
    var log := [Saved(IDLE, FreshCpu(stack, entry))];
    assert log == [] + [log[0]];
    LastSavedNext([], log[0], IDLE);
    assert tasks'[0].kstack == 0 && tasks'[IDLE].kstack == stack && tasks'[IDLE].sp == stack + TASK_STACK_SIZE - 64;
  }

  class TaskTable {
    const table: array<Task>
    const boot: Boot
    var current: nat
    var head: Option<nat>
    var tail: Option<nat>
    var nextPid: nat
    /** RSP0 of the task-state segment. */
    var rsp0: nat
    var cpu: Cpu
    /** Kernel memory, of which the stacks matter here. */
    var ram: Ram

    ghost var ready: seq<nat>
    ghost var log: seq<Event>

    ghost function Now(): View
      reads this, table
    {
      View(States(table[..]), ready, current)
    }

    /** What holds inside the scheduler, between choosing to switch and switching. */
    ghost predicate Consistent()
      reads this, table
    {
      && table.Length == MAX_TASKS && ListIs(table[..], head, tail, ready)
      && Queued(Now()) && Now().states[IDLE] != DEAD
      && StacksApart(table[..], current, boot) && Parked(table[..], current, ram, log, boot)
      && PidsOk(table[..], nextPid) && Faithful(log)
    }

    ghost predicate Valid()
      reads this, table
    {
      && Consistent() && table[current].state == RUNNING
      && (table[current].ring == 3 ==> rsp0 == table[current].kstack + TASK_STACK_SIZE)
    }

    /** kinit_task, running as the boot task on the boot stack.  `stack` is the idle task's, which
        kmalloc must have delivered: the source does not look. */
    constructor (boot: Boot, cpu: Cpu, ram: Ram, idleEntry: Word, stack: nat)
      requires stack != 0 && (stack + TASK_STACK_SIZE <= boot.lo || boot.hi <= stack)
      ensures Valid() && fresh(table) && this.boot == boot && this.cpu == cpu
      ensures current == 0 && ready == [IDLE] && log == [Saved(IDLE, FreshCpu(stack, idleEntry))]
      ensures forall t :: 2 <= t < MAX_TASKS ==> table[t].state == DEAD
      ensures table.Length == 32 && table[0].kstack == 0 && table[IDLE].kstack == stack && table[IDLE].sp == stack + 8192 - 64
      ensures table[0].pid == 1 && table[IDLE].pid == 2 && nextPid == 3 && table[0].ring == table[IDLE].ring == 0 && rsp0 == 0
      ensures WroteOnly(ram, this.ram, stack + TASK_STACK_SIZE - 64, stack + TASK_STACK_SIZE)
    {
      hide Parked, StacksApart, PidsOk, Faithful, FrameAt, FreshCpu, LastSaved, WroteOnly, Queued;
      this.boot := boot;
      this.cpu := cpu;
      this.ram := ram;
      table := new Task[MAX_TASKS];
      current := 0;
      head := None;
      tail := None;
      nextPid := 1;
      rsp0 := 0;
      ready := [];
      log := [];
      new;
      ClearTable();
      FirstTasks(stack, idleEntry);
      ghost var t1 := table[..];
      ReadyListAdd(IDLE);
      SameQueueLinks(t1, table[..]);
      log := [Saved(IDLE, FreshCpu(stack, idleEntry))];
      BootSettled(t1, table[..], this.ram, boot, stack, idleEntry);
      assert ready == [IDLE] && table[0].ring == 0;
    }

    /** The boot task's and the idle task's records. */
    method FirstTasks(stack: nat, idleEntry: Word)
      requires table.Length == MAX_TASKS && nextPid == 1 && forall t :: 0 <= t < MAX_TASKS ==> table[t] == NO_TASK
      modifies table, `nextPid, `ram
      ensures table[0] == NO_TASK.(pid := 1, state := RUNNING) && nextPid == 3
      ensures table[IDLE] == NO_TASK.(pid := 2, state := READY, kstack := stack, sp := stack + TASK_STACK_SIZE - 64)
      ensures forall t :: 2 <= t < MAX_TASKS ==> table[t] == NO_TASK
      ensures FrameAt(ram, stack + TASK_STACK_SIZE - 64) == FreshCpu(stack, idleEntry)
      ensures WroteOnly(old(ram), ram, stack + TASK_STACK_SIZE - 64, stack + TASK_STACK_SIZE)
    {
      hide FrameAt, FreshCpu, WroteOnly;
      table[0] := table[0].(pid := nextPid, state := RUNNING);
      nextPid := nextPid + 1;
      table[IDLE] := table[IDLE].(pid := nextPid, state := READY);
      nextPid := nextPid + 1;
      table[IDLE] := table[IDLE].(kstack := stack);
      var sp := BuildFrame(stack, idleEntry);
      table[IDLE] := table[IDLE].(sp := sp);
    }

    method ClearTable()
      requires table.Length == MAX_TASKS
      modifies table
      ensures forall t :: 0 <= t < MAX_TASKS ==> table[t] == NO_TASK
    {
      var i := 0;
      while i < MAX_TASKS
        invariant i <= MAX_TASKS && forall t :: 0 <= t < i ==> table[t] == NO_TASK
      {
        table[i] := NO_TASK;
        i := i + 1;
      }
    }

    /** ready_list_add. */
    method ReadyListAdd(t: nat)
      requires table.Length == MAX_TASKS && ListIs(table[..], head, tail, ready) && NoRepeats(ready)
      requires t !in ready && t < MAX_TASKS
      modifies table, `head, `tail, `ready
      ensures ListIs(table[..], head, tail, ready) && ready == old(ready) + [t]
      ensures SameButLinks(old(table[..]), table[..])
    {
      table[t] := table[t].(next := None);
      if head.None? {
        head, tail := Some(t), Some(t);
      } else {
        table[tail.value] := table[tail.value].(next := Some(t));
        tail := Some(t);
      }
      LinkedAppend(old(table[..]), table[..], old(head), old(tail), ready, t);
      ready := ready + [t];
    }

    /** ready_list_pop. */
    method ReadyListPop() returns (t: Option<nat>)
      requires table.Length == MAX_TASKS && ListIs(table[..], head, tail, ready) && NoRepeats(ready)
      modifies table, `head, `tail, `ready
      ensures t == Nth(old(ready), 0)
      ensures ListIs(table[..], head, tail, ready) && ready == if t.None? then old(ready) else old(ready)[1..]
      ensures SameButLinks(old(table[..]), table[..])
      ensures t.None? ==> table[..] == old(table[..])
    {
      t := head;
      if t.Some? {
        head := table[t.value].next;
        if head.None? { tail := None; }
        table[t.value] := table[t.value].(next := None);
        LinkedPop(old(table[..]), table[..], old(head), old(tail), ready);
        ready := ready[1..];
      }
    }

    method Push(w: Word)
      requires cpu.rsp >= 8
      modifies `cpu, `ram
      ensures cpu == old(cpu).(rsp := old(cpu).rsp - 8)
      ensures forall x: nat {:trigger Read(ram, x)} :: Read(ram, x) == if x == cpu.rsp then w else Read(old(ram), x)
    {
      cpu := cpu.(rsp := cpu.rsp - 8);
      ram := ram[cpu.rsp := w];
    }

    method Pop() returns (w: Word)
      modifies `cpu
      ensures w == Read(ram, old(cpu).rsp) && cpu == old(cpu).(rsp := old(cpu).rsp + 8)
    {
      w := Read(ram, cpu.rsp);
      cpu := cpu.(rsp := cpu.rsp + 8);
    }

    /** The call and the pushes of context_switch. */
    method SaveRegisters(ret: Word)
      requires cpu.rsp >= 64
      modifies `cpu, `ram
      ensures cpu == old(cpu).(rsp := old(cpu).rsp - 64)
      ensures WroteOnly(old(ram), ram, cpu.rsp, old(cpu).rsp)
      ensures FrameAt(ram, cpu.rsp) == old(cpu).(rip := ret)
    {
      hide Read;
      Push(ret);
      Push(cpu.rflags);
      Push(cpu.rbp);
      Push(cpu.rbx);
      Push(cpu.r12);
      Push(cpu.r13);
      Push(cpu.r14);
      Push(cpu.r15);
    }

    /** The pops and the return of context_switch. */
    method RestoreRegisters()
      modifies `cpu
      ensures cpu == FrameAt(ram, old(cpu).rsp)
    {
      hide Read;
      var r15 := Pop();
      var r14 := Pop();
      var r13 := Pop();
      var r12 := Pop();
      var rbx := Pop();
      var rbp := Pop();
      var rflags := Pop();
      var rip := Pop();
      cpu := Cpu(cpu.rsp, rip, rflags, rbp, rbx, r12, r13, r14, r15);
    }

    /** context_switch, called with return address `ret`.  newSp was read before anything was saved. */
    method ContextSwitch(old0: nat, newSp: nat, ret: Word)
      requires old0 < table.Length && cpu.rsp >= 64
      modifies table, `cpu, `ram
      ensures table[..] == old(table[..])[old0 := old(table[old0]).(sp := old(cpu).rsp - 64)]
      ensures WroteOnly(old(ram), ram, old(cpu).rsp - 64, old(cpu).rsp)
      ensures FrameAt(ram, old(cpu).rsp - 64) == old(cpu).(rip := ret)
      ensures cpu == FrameAt(ram, newSp)
    {
      hide FrameAt, WroteOnly;
      SaveRegisters(ret);
      table[old0] := table[old0].(sp := cpu.rsp);
      cpu := cpu.(rsp := newSp);
      RestoreRegisters();
    }

    /** The current task is ready again and goes to the end of the list. */
    method Requeue()
      requires table.Length == MAX_TASKS && ListIs(table[..], head, tail, ready) && NoRepeats(ready)
      requires current < MAX_TASKS && current !in ready
      modifies table, `head, `tail, `ready
      ensures ListIs(table[..], head, tail, ready) && ready == old(ready) + [current]
      ensures SameButQueue(old(table[..]), table[..])
      ensures States(table[..]) == States(old(table[..]))[current := READY]
    {
      hide ListIs;
      table[current] := table[current].(state := READY);
      ListIgnoresStates(old(table[..]), table[..], head, tail, ready);
      ghost var t1 := table[..];
      ReadyListAdd(current);
      QueueAfterLinks(old(table[..]), t1, table[..], current, READY);
    }

    /** The current task becomes the one in slot n. */
    method Dispatch(n: nat)
      requires table.Length == MAX_TASKS && ListIs(table[..], head, tail, ready) && n < MAX_TASKS
      modifies table, `current, `rsp0
      ensures ListIs(table[..], head, tail, ready) && current == n
      ensures SameButQueue(old(table[..]), table[..])
      ensures States(table[..]) == States(old(table[..]))[n := RUNNING]
      ensures rsp0 == if table[n].ring == 3 then table[n].kstack + TASK_STACK_SIZE else old(rsp0)
    {
      hide ListIs;
      current := n;
      table[n] := table[n].(state := RUNNING);
      ListIgnoresStates(old(table[..]), table[..], head, tail, ready);
      if table[n].ring == 3 { rsp0 := table[n].kstack + TASK_STACK_SIZE; }
    }

    /** schedule up to the switch: the queue, the states and the task-state segment. */
    method PickNext() returns (next: Option<nat>)
      requires Consistent()
      modifies table, `current, `head, `tail, `ready, `rsp0
      ensures table.Length == MAX_TASKS && ListIs(table[..], head, tail, ready)
      ensures next == Nth(old(ready), 0)
      ensures next.None? ==> table[..] == old(table[..]) && current == old(current) && ready == old(ready) && rsp0 == old(rsp0)
      ensures InTable(old(Now())) && Now() == Scheduled(old(Now()))
      ensures SameButQueue(old(table[..]), table[..])
      ensures next.Some? ==> current == next.value
      ensures next.Some? ==> rsp0 == if table[current].ring == 3 then table[current].kstack + TASK_STACK_SIZE else old(rsp0)
    {
      hide Parked, StacksApart, PidsOk, Faithful, ListIs, SameButQueue, SameButLinks, NoRepeats;
      ghost var v, t0 := Now(), table[..];
      QueueFacts(v);
      next := ReadyListPop();
      if next.None? {
        SameQueue(t0);
        return;
      }
      ghost var t1 := table[..];
      SameQueueLinks(t0, t1);
      if table[current].state == RUNNING {
        Requeue();
        SameQueueTwice(t0, t1, table[..]);
      }
      ghost var t2 := table[..];
      Dispatch(next.value);
      SameQueueTwice(t0, t2, table[..]);
    }

    /** schedule, for a task that is running, yielding or dying. */
    method Schedule(ret: Word)
      requires Consistent() && Room(table[current], cpu, boot)
      requires table[current].state == RUNNING || ready != []
      modifies this, table
      ensures nextPid == old(nextPid) && InTable(old(Now())) && Now() == Scheduled(old(Now()))
      ensures old(ready) == [] ==> table[..] == old(table[..]) && cpu == old(cpu) && ram == old(ram) && log == old(log) && rsp0 == old(rsp0)
      ensures old(ready) != [] ==> SwitchedTo(old(log), old(current), old(cpu).(rip := ret), old(table[..]))
      ensures old(ready) != [] ==> StackOfSegment(old(rsp0))
      ensures old(ready) != [] && (old(ready)[0] == old(current) ==> old(table[current].sp) + 64 == old(cpu).rsp) ==> Valid()
    {
      hide Parked, StacksApart, PidsOk, Faithful, ListIs, FrameAt, LastSaved, Switched, Scheduled, WroteOnly;
      ghost var v, t0 := Now(), table[..];
      assert Settling(t0, v, ram, log, boot, nextPid);
      var old0 := current;
      var next := PickNext();
      if next.None? { return; }
      SwitchTo(next.value, old0, ret, t0, v);
    }

    /** The switch that ends schedule, to the task in slot n, which the queue chose. */
    method SwitchTo(n: nat, a: nat, ret: Word, ghost t0: seq<Task>, ghost v: View)
      requires table.Length == |t0| == MAX_TASKS && n == current < MAX_TASKS && a < MAX_TASKS
      requires InTable(v) && v.ready != [] && n == v.ready[0] && a == v.current && Now() == Scheduled(v)
      requires Settling(t0, v, ram, log, boot, nextPid) && ListIs(table[..], head, tail, ready) && SameButQueue(t0, table[..])
      requires Room(t0[a], cpu, boot) && (table[n].ring == 3 ==> rsp0 == table[n].kstack + TASK_STACK_SIZE)
      modifies table, `cpu, `ram, `log
      ensures table[n].ring == old(table[n].ring) && table[n].kstack == old(table[n].kstack)
      ensures Now() == old(Now()) && SwitchedTo(old(log), a, old(cpu).(rip := ret), t0)
      ensures (n == a ==> t0[a].sp + 64 == old(cpu).rsp) ==> Valid()
    {
      hide Parked, StacksApart, PidsOk, Faithful, ListIs, FrameAt, LastSaved, Switched, Scheduled, WroteOnly;
      ghost var t1, ram0, c := table[..], ram, cpu;
      SavedQueue(t0, t1, a, c.rsp - 64);
      assert t1[n].sp == t0[n].sp;
      hide SameButQueue;
      ContextSwitch(a, table[n].sp, ret);
      log := Switched(log, a, c.(rip := ret), n, cpu);
      ListIgnoresStates(t1, table[..], head, tail, ready);
      if n == a ==> t0[a].sp + 64 == c.rsp {
        SwitchKeeps(t0, t1, v, ram0, ram, old(log), boot, nextPid, c, ret);
        ScheduledKeeps(v);
      }
    }

    /** task_yield.  Nothing else is ready only while the idle task runs; then the frame just saved
        is not the one restored: the stack pointer was read before it was saved. */
    method TaskYield(ret: Word)
      requires Valid() && Room(table[current], cpu, boot)
      modifies this, table
      ensures InTable(old(Now())) && Now() == After(old(Now()), Yield)
      ensures SwitchedTo(old(log), old(current), old(cpu).(rip := ret), old(table[..]))
      ensures nextPid == old(nextPid) && StackOfSegment(old(rsp0))
      ensures old(ready) != [] ==> Valid()
      ensures old(ready) == [] ==> current == old(current) == IDLE
      ensures old(ready) == [] ==> (cpu == old(cpu).(rip := ret) <==> old(table[current]).sp + 64 == old(cpu).rsp)
      ensures old(ready) == [] && cpu == old(cpu).(rip := ret) ==> Valid()
    {
      hide Parked, StacksApart, PidsOk, Faithful, ListIs, FrameAt, LastSaved, Switched, Scheduled;
      if table[current].state != RUNNING { return; }
      ghost var v, t0, c := Now(), table[..], cpu;
      QueueFacts(v);
      RequeuedKeeps(v);
      YieldingIdle(v);
      Requeue();
      ghost var t1 := table[..];
      StatesKeep(t0, t1, v, Requeued(v), ram, log, boot, nextPid);
      ScheduledKeeps(Requeued(v));
      Schedule(ret);
      SavedQueueTwice(t0, t1, table[..], old(current), c.rsp - 64);
      SavedPointer(ram, t0[current].sp, c.(rip := ret));
    }

    /** sys_exit (src/syscall/syscall.c:27-43). */
    method SysExit(ret: Word)
      requires Valid() && Room(table[current], cpu, boot) && current != IDLE
      modifies this, table
      ensures Valid() && InTable(old(Now())) && Now() == After(old(Now()), Exit)
      ensures current != old(current) && table[old(current)].state == DEAD
      ensures nextPid == old(nextPid) && StackOfSegment(old(rsp0))
      ensures SwitchedTo(old(log), old(current), old(cpu).(rip := ret), old(table[..]))
    {
      hide Parked, StacksApart, PidsOk, Faithful, ListIs, FrameAt, LastSaved, Switched;
      ghost var v, t0 := Now(), table[..];
      QueueFacts(v);
      KilledKeeps(v);
      table[current] := table[current].(state := DEAD);
      ListIgnoresStates(t0, table[..], head, tail, ready);
      StatesKeep(t0, table[..], v, Killed(v), ram, log, boot, nextPid);
      ghost var t1, sp := table[..], cpu.rsp - 64;
      Schedule(ret);
      SavedQueueTwice(t0, t1, table[..], old(current), sp);
    }

    /** The search for a dead slot that starts task_create and task_create_user. */
    method FindDead() returns (t: nat)
      requires table.Length == MAX_TASKS
      ensures t == FirstDead(States(table[..]))
    {
      t := 0;
      while t < MAX_TASKS
        invariant t <= MAX_TASKS && forall u :: 0 <= u < t ==> table[u].state != DEAD
      {
        if table[t].state == DEAD { break; }
        t := t + 1;
      }
      FirstDeadIs(States(table[..]), t);
    }

    /** The initial frame of a new task, as context_switch will pop it. */
    method BuildFrame(stack: nat, entry: Word) returns (sp: nat)
      modifies `ram
      ensures sp + 64 == stack + TASK_STACK_SIZE
      ensures WroteOnly(old(ram), ram, sp, sp + 64) && FrameAt(ram, sp) == FreshCpu(stack, entry)
    {
      hide Read;
      sp := stack + TASK_STACK_SIZE;
      sp := StoreBelow(sp, entry);
      sp := StoreBelow(sp, 0x200);
      sp := StoreBelow(sp, 0);
      sp := StoreBelow(sp, 0);
      sp := StoreBelow(sp, 0);
      sp := StoreBelow(sp, 0);
      sp := StoreBelow(sp, 0);
      sp := StoreBelow(sp, 0);
    }

    method StoreBelow(sp: nat, w: Word) returns (sp': nat)
      requires sp >= 8
      modifies `ram
      ensures sp' == sp - 8
      ensures forall x: nat {:trigger Read(ram, x)} :: Read(ram, x) == if x == sp' then w else Read(old(ram), x)
    {
      sp' := sp - 8;
      ram := ram[sp' := w];
    }

    /** task_create.  `stack` is what kmalloc returned for the kernel stack, 0 for none. */
    method TaskCreate(entry: Word, stack: nat) returns (slot: Option<nat>)
      requires Valid() && (stack != 0 ==> StackFree(table[..], boot, stack))
      modifies this, table
      ensures Valid() && current == old(current) && cpu == old(cpu) && rsp0 == old(rsp0)
      ensures slot.None? <==> stack == 0 || FirstDead(old(Now()).states) == MAX_TASKS
      ensures slot.None? ==> Now() == old(Now()) && log == old(log) && nextPid == old(nextPid) && ram == old(ram)
      ensures slot.Some? ==> slot.value == FirstDead(old(Now()).states) && Now() == Created(old(Now()), slot.value)
      ensures slot.Some? ==> log == old(log) + [Saved(slot.value, FreshCpu(stack, entry))]
      ensures OthersKept(old(table[..]), slot, stack)
      ensures slot.Some? ==> NewTask(old(nextPid), slot.value, 0, 0, 0, 0, 0) && StartsAt(slot.value, entry, old(ram))
    {
      slot := Spawn(entry, stack, 0, 0, 0, 0, 0);
    }

    /** task_create_user: the same with ring 3 and the user registers; the entry is the address of
        enter_user_mode, which reads them from the task. */
    method TaskCreateUser(enterUserMode: Word, userRip: nat, userRsp: nat, userRflags: nat, cr3: nat, stack: nat) returns (slot: Option<nat>)
      requires Valid() && (stack != 0 ==> StackFree(table[..], boot, stack))
      modifies this, table
      ensures Valid() && current == old(current) && cpu == old(cpu) && rsp0 == old(rsp0)
      ensures slot.None? <==> stack == 0 || FirstDead(old(Now()).states) == MAX_TASKS
      ensures slot.None? ==> Now() == old(Now()) && log == old(log) && nextPid == old(nextPid) && ram == old(ram)
      ensures slot.Some? ==> slot.value == FirstDead(old(Now()).states) && Now() == Created(old(Now()), slot.value)
      ensures slot.Some? ==> log == old(log) + [Saved(slot.value, FreshCpu(stack, enterUserMode))]
      ensures OthersKept(old(table[..]), slot, stack)
      ensures slot.Some? ==>
        NewTask(old(nextPid), slot.value, 3, cr3, userRip, userRsp, userRflags) && StartsAt(slot.value, enterUserMode, old(ram))
    {
      slot := Spawn(enterUserMode, stack, 3, cr3, userRip, userRsp, userRflags);
    }

    /** No other task changed but for its link, and the new task runs on its stack. */
    ghost predicate OthersKept(tasks0: seq<Task>, slot: Option<nat>, stack: nat)
      reads this, table
    {
      && table.Length == |tasks0|
      && (forall t :: 0 <= t < |tasks0| && Some(t) != slot ==> table[t] == tasks0[t].(next := table[t].next))
      && (slot.Some? ==> slot.value < table.Length && table[slot.value].kstack == stack)
    }

    ghost predicate NewTask(pid: nat, t: nat, ring: nat, cr3: nat, userRip: nat, userRsp: nat, userRflags: nat)
      reads this, table
    {
      && t < table.Length && nextPid == pid + 1
      && var k := table[t];
         k.pid == pid && k.ring == ring && k.cr3 == cr3 && k.sp + 64 == k.kstack + TASK_STACK_SIZE
         && (ring == 3 ==> k.userRip == userRip && k.userRsp == userRsp && k.userRflags == userRflags)
    }

    /** The eight words at the top of the new task's stack, and no others, were written: popped in the
        switch's order they start it at `entry` with an empty stack, interrupts enabled, which is
        bit 9 of RFLAGS, and all other registers and flags zero. */
    ghost predicate StartsAt(t: nat, entry: Word, ram0: Ram)
      reads this, table
    {
      && t < table.Length
      && var k := table[t];
      && WroteOnly(ram0, ram, k.sp, k.sp + 64)
      && var c := FrameAt(ram, k.sp);
         c.rip == entry && c.rsp == k.kstack + TASK_STACK_SIZE && c.rflags / 0x200 == 1 && c.rflags % 0x200 == 0
         && c.rbp == 0 && c.rbx == 0 && c.r12 == 0 && c.r13 == 0 && c.r14 == 0 && c.r15 == 0
    }

    /** The fields of a new task. */
    method FillSlot(t: nat, stack: nat, sp: nat, ring: nat, cr3: nat, userRip: nat, userRsp: nat, userRflags: nat)
      requires t < table.Length
      modifies table
      ensures forall u :: 0 <= u < table.Length && u != t ==> table[u] == old(table[u])
      ensures var k := table[t];
              && k.state == READY && k.pid == nextPid && k.kstack == stack && k.sp == sp && k.ring == ring && k.cr3 == cr3
              && (ring == 3 ==> k.userRip == userRip && k.userRsp == userRsp && k.userRflags == userRflags)
    {
      var k := table[t];
      if ring == 3 { k := k.(userRip := userRip, userRsp := userRsp, userRflags := userRflags); }
      table[t] := k.(pid := nextPid, state := READY, kstack := stack, sp := sp, ring := ring, cr3 := cr3, next := None);
    }

    /** The body that the two creations share. */
    method Spawn(entry: Word, stack: nat, ring: nat, cr3: nat, userRip: nat, userRsp: nat, userRflags: nat) returns (slot: Option<nat>)
      requires Valid() && (stack != 0 ==> StackFree(table[..], boot, stack))
      modifies this, table
      ensures Valid() && current == old(current) && cpu == old(cpu) && rsp0 == old(rsp0)
      ensures slot.None? <==> stack == 0 || FirstDead(old(Now()).states) == MAX_TASKS
      ensures slot.None? ==> Now() == old(Now()) && log == old(log) && nextPid == old(nextPid) && ram == old(ram)
      ensures slot.Some? ==> slot.value == FirstDead(old(Now()).states) && Now() == Created(old(Now()), slot.value)
      ensures slot.Some? ==> log == old(log) + [Saved(slot.value, FreshCpu(stack, entry))]
      ensures OthersKept(old(table[..]), slot, stack)
      ensures slot.Some? ==> NewTask(old(nextPid), slot.value, ring, cr3, userRip, userRsp, userRflags) && StartsAt(slot.value, entry, old(ram))
    {
      hide Parked, StacksApart, PidsOk, Faithful, ListIs, FrameAt, LastSaved, WroteOnly, FreshCpu, StackFree, Created, NewTask, StartsAt;
      var t := FindDead();
      if t == MAX_TASKS || stack == 0 { return None; }
      Launch(t, entry, stack, ring, cr3, userRip, userRsp, userRflags);
      return Some(t);
    }

    /** The new task in the dead slot t. */
    method Launch(t: nat, entry: Word, stack: nat, ring: nat, cr3: nat, userRip: nat, userRsp: nat, userRflags: nat)
      requires Valid() && stack != 0 && StackFree(table[..], boot, stack)
      requires t < table.Length && table[t].state == DEAD
      modifies this, table
      ensures Valid() && current == old(current) && cpu == old(cpu) && rsp0 == old(rsp0) && Now() == Created(old(Now()), t)
      ensures log == old(log) + [Saved(t, FreshCpu(stack, entry))]
      ensures OthersKept(old(table[..]), Some(t), stack)
      ensures NewTask(old(nextPid), t, ring, cr3, userRip, userRsp, userRflags) && StartsAt(t, entry, old(ram))
    {
      hide Parked, StacksApart, PidsOk, Faithful, ListIs, FrameAt, LastSaved, WroteOnly, FreshCpu, StackFree;
      ghost var v, t0, ram0 := Now(), table[..], ram;
      QueueFacts(v);
      var sp := BuildFrame(stack, entry);
      FillSlot(t, stack, sp, ring, cr3, userRip, userRsp, userRflags);
      nextPid := nextPid + 1;
      ghost var t1 := table[..];
      assert t !in ready;
      DeadNotListed(t0, t1, head, tail, ready, t);
      ReadyListAdd(t);
      LinksElsewhere(t0, t1, table[..], t);
      CreationKeeps(t0, table[..], v, ram0, ram, log, boot, nextPid - 1, t, entry);
      CreatedKeeps(v, t);
      FreshRegisters(stack, entry);
      log := log + [Saved(t, FreshCpu(stack, entry))];
    }

    /** What the running task does by itself: any registers, any memory but the stacks of others. */
    method Compute(cpu': Cpu, ram': Ram)
      requires Valid()
      requires forall t, x: nat {:trigger table[t], Read(ram', x)} ::
                 0 <= t < table.Length && t != current && table[t].state != DEAD && StackLo(table[t], boot) <= x < StackHi(table[t], boot) ==>
                   Read(ram', x) == Read(ram, x)
      modifies `cpu, `ram
      ensures Valid() && cpu == cpu' && ram == ram'
    {
      hide LastSaved, StacksApart, PidsOk, Faithful, ListIs, Queued, Read;
      forall t | 0 <= t < table.Length && table[t].state == READY && t != current
        ensures Waits(table[t], t, ram', log, boot)
      {
        assert Waits(table[t], t, ram, log, boot);
        SameFrame(ram, ram', table[t].sp);
      }
      cpu := cpu';
      ram := ram';
    }

    /** RSP0 is the top of the current task's kernel stack if that task runs in ring 3, and as it was if not. */
    ghost predicate StackOfSegment(before: nat)
      reads this, table
    {
      current < table.Length && rsp0 == if table[current].ring == 3 then table[current].kstack + TASK_STACK_SIZE else before
    }

    /** The switch from task a, with its registers c, to the current task: a's registers are on its
        stack, the current task has what its own saved frame says, and apart from states and links
        the saved pointer of a is all that changed in the table. */
    ghost predicate SwitchedTo(log0: seq<Event>, a: nat, c: Cpu, tasks0: seq<Task>)
      reads this, table
    {
      && current < |tasks0| == table.Length && a < table.Length && c.rsp >= 64
      && cpu == FrameAt(ram, tasks0[current].sp)
      && table[a].sp == c.rsp - 64 && FrameAt(ram, c.rsp - 64) == c
      && log == Switched(log0, a, c, current, cpu)
      && (current != a ==> LastSaved(log0, current) == Some(cpu))
      && SameButQueue(SavedAt(tasks0, a, c.rsp - 64), table[..])
    }
  }
}
