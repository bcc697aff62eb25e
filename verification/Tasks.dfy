/** The ready queue as a sequence of task ids. */
module ReadyQueues {
  type TaskId = nat

  predicate NoDuplicates(q: seq<TaskId>) {
    forall i, j :: 0 <= i < j < |q| ==> q[i] != q[j]
  }

  /** `retain(|x| x != id)`. */
  function Without(q: seq<TaskId>, id: TaskId): seq<TaskId> {
    if q == [] then []
    else if q[0] == id then Without(q[1..], id)
    else [q[0]] + Without(q[1..], id)
  }

  lemma {:induction false} WithoutMembers(q: seq<TaskId>, id: TaskId, x: TaskId)
    ensures x in Without(q, id) <==> x in q && x != id
  {
    if q != [] { WithoutMembers(q[1..], id, x); }
  }

  lemma {:induction false} WithoutNoDuplicates(q: seq<TaskId>, id: TaskId)
    requires NoDuplicates(q)
    ensures NoDuplicates(Without(q, id))
  {
    if q != [] {
      WithoutNoDuplicates(q[1..], id);
      WithoutMembers(q[1..], id, q[0]);
    }
  }

  lemma AppendNoDuplicates(q: seq<TaskId>, x: TaskId)
    requires NoDuplicates(q) && x !in q
    ensures NoDuplicates(q + [x])
  {}

  /** How many tasks are dispatched before `t`. */
  function Position(q: seq<TaskId>, t: TaskId): (k: nat)
    requires t in q
    ensures k < |q| && q[k] == t
  {
    if q[0] == t then 0 else 1 + Position(q[1..], t)
  }

  /** Nobody overtakes: appending and removing others never moves `t` back. */
  lemma {:induction false} PositionAppend(q: seq<TaskId>, x: TaskId, t: TaskId)
    requires t in q
    ensures Position(q + [x], t) == Position(q, t)
  {
    if q[0] != t {
      assert (q + [x])[1..] == q[1..] + [x];
      PositionAppend(q[1..], x, t);
    }
  }

  lemma {:induction false} PositionWithout(q: seq<TaskId>, id: TaskId, t: TaskId)
    requires t in q && t != id
    ensures t in Without(q, id) && Position(Without(q, id), t) <= Position(q, t)
  {
    if q[0] != t {
      PositionWithout(q[1..], id, t);
      assert q[0] != id ==> Without(q, id)[1..] == Without(q[1..], id);
    }
  }
}

/** The task manager and the operations on it (src/task/task_manager.rs). */
module TaskStates {
  import opened Common
  import opened ReadyQueues

  datatype TaskState = Ready | Running | Blocked | Dead
  datatype Privilege = KernelMode | UserMode

  datatype Task = Task(parent: Option<TaskId>, rsp: nat, pml4: nat, stackStart: nat, stackEnd: nat, privilege: Privilege)

  /** Task `id` is a user task living in the address space `space`. */
  ghost predicate LivesIn(registry: map<TaskId, Task>, id: TaskId, space: nat) {
    id in registry && registry[id].privilege == UserMode && registry[id].pml4 == space
  }

  const STACK_SIZE := 65536

  /** `is_valid_rsp`. */
  predicate InStack(t: Task, rsp: nat) {
    t.stackStart <= rsp < t.stackEnd
  }

  /** Bytes of a saved context, and of the frame it returns through: five values and the
      trampoline for user tasks, a canary and the entry point otherwise. */
  const CONTEXT_SIZE := 56

  function ReturnFrame(privilege: Privilege): nat {
    if privilege == UserMode then 48 else 16
  }

  /** A new task: its first context lies in its own kernel stack, and context and return frame
      end at the highest 16-byte boundary of that stack. */
  function NewTask(parent: Option<TaskId>, pml4: nat, privilege: Privilege, stackStart: nat): (t: Task)
    ensures InStack(t, t.rsp) && t.stackEnd - t.stackStart == STACK_SIZE
    ensures (t.rsp + CONTEXT_SIZE + ReturnFrame(privilege)) % 16 == 0
    ensures t.stackEnd - 16 < t.rsp + CONTEXT_SIZE + ReturnFrame(privilege) <= t.stackEnd
  {
    var top := stackStart + STACK_SIZE;
    Task(parent, top / 16 * 16 - ReturnFrame(privilege) - CONTEXT_SIZE, pml4, stackStart, top, privilege)
  }

  datatype Manager = Manager(queue: seq<TaskId>, registry: map<TaskId, Task>, states: map<TaskId, TaskState>, current: Option<TaskId>)

  const EMPTY := Manager([], map[], map[], None)

  function MarkReady(m: Manager, id: TaskId): Manager {
    if id in m.queue then m else m.(queue := m.queue + [id])
  }

  /** Enters state `st` and keeps the queue in step with it. */
  function SetState(m: Manager, id: TaskId, st: TaskState): Manager {
    var was := if id in m.states then m.states[id] else Dead;
    var n := m.(states := m.states[id := st]);
    if st == Ready && was != Ready then n.(queue := m.queue + [id])
    else if st != Ready && was == Ready then n.(queue := Without(m.queue, id))
    else n
  }

  function Register(m: Manager, id: TaskId, t: Task): Manager {
    SetState(m.(registry := m.registry[id := t]), id, Ready)
  }

  function BlockCurrent(m: Manager): Manager {
    if m.current.Some? then SetState(m, m.current.value, Blocked) else m
  }

  function WaitForChild(m: Manager, child: TaskId): (Manager, bool) {
    if child in m.states && m.states[child] != Dead then (BlockCurrent(m), true) else (m, false)
  }

  function ExitCurrent(m: Manager): Manager {
    if m.current.Some? then SetState(m, m.current.value, Dead).(current := None) else m
  }

  function Unblock(m: Manager, id: TaskId): Manager {
    if id in m.states && m.states[id] == Blocked then SetState(m, id, Ready) else m
  }

  /** Kill wakes the parent if it is blocked, for whatever reason, and forgets the task. */
  function Kill(m: Manager, id: TaskId): (Manager, Option<Task>) {
    var a := SetState(m, id, Dead);
    var b := if id in m.registry && m.registry[id].parent.Some? then Unblock(a, m.registry[id].parent.value) else a;
    (b.(states := b.states - {id}, registry := b.registry - {id}),
     if id in m.registry then Some(m.registry[id]) else None)
  }

  /** A running task that is still runnable goes to the back of the queue. */
  function Requeue(m: Manager): Manager {
    var state := if m.current.Some? && m.current.value in m.states then m.states[m.current.value] else Ready;
    if m.current.Some? && (state == Running || state == Ready) then MarkReady(m, m.current.value) else m
  }

  /** The first half of a tick: the front task becomes current. The id returned is the task to
      switch to. */
  function Dispatch(m: Manager): (Manager, Option<TaskId>) {
    var a := Requeue(m);
    if a.queue == [] then (a, None)
    else
      var next, b := a.queue[0], a.(queue := a.queue[1..]);
      if m.current == Some(next) then (b, None) else (b.(current := Some(next)), Some(next))
  }

  // ------------------------------------------------------------------
  // The invariant of the manager
  // ------------------------------------------------------------------

  /** The queue holds every Ready task but the current one, and only registered Ready tasks. */
  ghost predicate Coherent(m: Manager) {
    && NoDuplicates(m.queue)
    && (forall id :: id in m.queue ==> id in m.states && m.states[id] == Ready)
    && m.states.Keys == m.registry.Keys
    && (forall id :: id in m.states ==> m.states[id] != Running)
    && (forall id :: id in m.states && m.states[id] == Ready ==> id in m.queue || m.current == Some(id))
    && (m.current.Some? ==> m.current.value in m.states && m.states[m.current.value] != Dead)
  }

  lemma SetStateCoherent(m: Manager, id: TaskId, st: TaskState)
    requires Coherent(m) && id in m.states && (st == Ready || st == Blocked || (st == Dead && m.current != Some(id)))
    ensures Coherent(SetState(m, id, st))
  {
    hide NoDuplicates, Without;
    if m.states[id] != Ready { AppendNoDuplicates(m.queue, id); }
    forall x ensures x in Without(m.queue, id) <==> x in m.queue && x != id { WithoutMembers(m.queue, id, x); }
    WithoutNoDuplicates(m.queue, id);
  }

  lemma ExitCoherent(m: Manager)
    requires Coherent(m)
    ensures Coherent(ExitCurrent(m))
  {
    if m.current.Some? {
      var id := m.current.value;
      forall x ensures x in Without(m.queue, id) <==> x in m.queue && x != id { WithoutMembers(m.queue, id, x); }
      WithoutNoDuplicates(m.queue, id);
    }
  }

  lemma RegisterCoherent(m: Manager, id: TaskId, t: Task)
    requires Coherent(m) && id !in m.registry
    ensures Coherent(Register(m, id, t))
  {}

  /** Reclaiming a Dead task keeps the manager coherent. */
  lemma KillCoherent(m: Manager, id: TaskId)
    requires Coherent(m) && id in m.states && m.states[id] == Dead
    ensures Coherent(Kill(m, id).0)
  {}

  lemma RequeueCoherent(m: Manager)
    requires Coherent(m)
    ensures Coherent(Requeue(m)) && forall id :: id in m.states && m.states[id] == Ready ==> id in Requeue(m).queue
    ensures Requeue(m).registry == m.registry && Requeue(m).states == m.states && Requeue(m).current == m.current
  {}

  lemma PopCoherent(m: Manager)
    requires Coherent(m) && m.queue != [] && forall id :: id in m.states && m.states[id] == Ready ==> id in m.queue
    ensures Coherent(m.(queue := m.queue[1..], current := Some(m.queue[0])))
  {
    assert m.queue == [m.queue[0]] + m.queue[1..];
  }

  /** The task returned is registered, was queued, and is now the current one. */
  lemma DispatchCoherent(m: Manager)
    requires Coherent(m)
    ensures Coherent(Dispatch(m).0) && Dispatch(m).0.registry == m.registry && Dispatch(m).0.states == m.states
    ensures Dispatch(m).1.Some? ==> Dispatch(m).1 == Dispatch(m).0.current && Dispatch(m).1 != m.current
    ensures Dispatch(m).1.None? ==> Dispatch(m).0.current == m.current
  {
    hide Coherent, Requeue;
    RequeueCoherent(m);
    if Requeue(m).queue != [] { PopCoherent(Requeue(m)); }
  }

  /** Killing a child readies a blocked task exactly if that task is the child's parent. */
  lemma KillWakesIff(m: Manager, id: TaskId, p: TaskId)
    requires Coherent(m) && id in m.states && m.states[id] == Dead && p in m.states && m.states[p] == Blocked
    ensures Kill(m, id).0.states[p] == Ready <==> m.registry[id].parent == Some(p)
    ensures m.registry[id].parent == Some(p) ==> p in Kill(m, id).0.queue
    ensures m.registry[id].parent != Some(p) ==> Kill(m, id).0.states[p] == Blocked
  {}
}

/** The running system: tasks, the processor and the reaper, one step per section that runs
    with interrupts off (src/task/scheduler.rs, src/task/mod.rs). */
module Scheduling {
  import opened Common
  import opened ReadyQueues
  import opened TaskStates

  /** The first task ever spawned. */
  const REAPER: TaskId := 1

  /** Stack pointer, page-table root, interrupt stack and system-call stack in force. */
  datatype Cpu = Cpu(rsp: nat, cr3: nat, rsp0: nat, kernelRsp: nat, bootRsp: nat)

  /** `pending` is what the reaper still has to kill, `reclaimed` what it has killed, `waits[p]`
      the own child that Blocked task `p` is waiting for, and `spaces` the user address spaces
      created and not torn down. */
  datatype System = System(tm: Manager, cpu: Cpu, nextId: TaskId, kernelPml4: nat,
                           pending: seq<TaskId>, reclaimed: seq<TaskId>, waits: map<TaskId, TaskId>, spaces: set<nat>)

  datatype Step =
    | Spawn(stackStart: nat, pml4: nat, privilege: Privilege)
    | SpawnFails
    | Wait(child: TaskId)
    | Block
    | Wake(id: TaskId)
    | Exit
    | Execute(rsp: nat)
    | Tick
    | Scan
    | Reap

  // ------------------------------------------------------------------
  // Steps
  // ------------------------------------------------------------------

  /** `context_switch` with its preparation: saves the outgoing stack pointer, loads the rest. */
  function Switch(s: System, from: Option<TaskId>, next: TaskId): System
    requires next in s.tm.registry && (from.Some? ==> from.value in s.tm.registry)
  {
    var t := s.tm.registry[next];
    var cpu := s.cpu.(rsp := t.rsp, cr3 := t.pml4, rsp0 := if t.privilege == UserMode then t.stackEnd else s.cpu.rsp0);
    match from
    case None => s.(cpu := cpu.(bootRsp := s.cpu.rsp))
    case Some(c) => s.(cpu := cpu, tm := s.tm.(registry := s.tm.registry[c := s.tm.registry[c].(rsp := s.cpu.rsp)]))
  }

  function SetKernelRsp(s: System): System {
    match s.tm.current
    case None => s
    case Some(c) => if c in s.tm.registry then s.(cpu := s.cpu.(kernelRsp := s.tm.registry[c].stackEnd)) else s
  }

  /** `schedule`. A task missing from the registry is never switched to or from. */
  function Schedule(s: System): System {
    var (m, next) := Dispatch(s.tm);
    var a := SetKernelRsp(s.(tm := m));
    if next.None? || next.value !in m.registry || (s.tm.current.Some? && s.tm.current.value !in m.registry) then a
    else Switch(a, s.tm.current, next.value)
  }

  /** The Dead tasks below `n`, in order. */
  function DeadBelow(states: map<TaskId, TaskState>, n: TaskId): seq<TaskId> {
    if n == 0 then []
    else if n - 1 in states && states[n - 1] == Dead then DeadBelow(states, n - 1) + [n - 1]
    else DeadBelow(states, n - 1)
  }

  /** Waiting ends when the waiter is no longer Blocked. */
  function StillWaiting(waits: map<TaskId, TaskId>, m: Manager): map<TaskId, TaskId> {
    map p | p in waits && p in m.states && m.states[p] == Blocked :: waits[p]
  }

  function WithManager(s: System, m: Manager): System {
    s.(tm := m, waits := StillWaiting(s.waits, m))
  }

  function WaitStep(s: System, child: TaskId): System {
    var (m, parked) := WaitForChild(s.tm, child);
    var t := WithManager(s, m);
    if parked && m.current.Some? && child in m.registry && m.registry[child].parent == m.current then
      t.(waits := t.waits[m.current.value := child])
    else t
  }

  function Apply(s: System, step: Step): System
    requires Enabled(s, step)
  {
    match step
    case Spawn(stack, pml4, privilege) =>
      s.(tm := Register(s.tm, s.nextId, NewTask(s.tm.current, pml4, privilege, stack)), nextId := s.nextId + 1,
         spaces := s.spaces + if privilege == UserMode then {pml4} else {})
    case SpawnFails => s.(nextId := s.nextId + 1)
    case Wait(child) => WaitStep(s, child)
    case Block => WithManager(s, BlockCurrent(s.tm))
    case Wake(id) => WithManager(s, Unblock(s.tm, id))
    case Exit => WithManager(s, ExitCurrent(s.tm))
    case Execute(rsp) => s.(cpu := s.cpu.(rsp := rsp))
    case Tick => Schedule(s)
    case Scan => s.(pending := DeadBelow(s.tm.states, s.nextId))
    case Reap =>
      WithManager(s, Kill(s.tm, s.pending[0]).0).(pending := s.pending[1..], reclaimed := s.reclaimed + [s.pending[0]],
                                                  spaces := s.spaces - TornDown(Kill(s.tm, s.pending[0]).1))
  }

  /** The address space that goes with a killed task. */
  function TornDown(task: Option<Task>): set<nat> {
    if task.Some? && task.value.privilege == UserMode then {task.value.pml4} else {}
  }

  predicate Apart(t: Task, stackStart: nat) {
    stackStart + STACK_SIZE <= t.stackStart || t.stackEnd <= stackStart
  }

  /** When a step can happen. A new kernel stack overlaps no other; user tasks get a PML4 of
      their own and kernel tasks the boot one; running code stays on its stack; the reaper is
      the first task, never blocks, and cannot be made to exit. */
  predicate Enabled(s: System, step: Step) {
    match step
    case Spawn(stack, pml4, privilege) =>
      && (s.nextId == REAPER ==> privilege == KernelMode)
      && (privilege == KernelMode ==> pml4 == s.kernelPml4)
      && (privilege == UserMode ==> pml4 != s.kernelPml4 && forall id :: id in s.tm.registry ==> s.tm.registry[id].pml4 != pml4)
      && (forall id :: id in s.tm.registry ==> Apart(s.tm.registry[id], stack))
    case SpawnFails => s.nextId != REAPER
    case Wait(_) => s.tm.current != Some(REAPER)
    case Block => s.tm.current != Some(REAPER)
    case Exit => s.tm.current != Some(REAPER)
    case Execute(rsp) => s.tm.current.Some? && s.tm.current.value in s.tm.registry ==> InStack(s.tm.registry[s.tm.current.value], rsp)
    case Scan => s.tm.current == Some(REAPER) && s.pending == []
    case Reap => s.tm.current == Some(REAPER) && s.pending != []
    case Wake(_) => true
    case Tick => true
  }

  // ------------------------------------------------------------------
  // The invariant of the system
  // ------------------------------------------------------------------

  /** Everything the processor runs on belongs to the current task. */
  ghost predicate OnCpu(s: System)
    requires Coherent(s.tm)
  {
    s.tm.current.Some? ==>
      var t := s.tm.registry[s.tm.current.value];
      InStack(t, s.cpu.rsp) && s.cpu.cr3 == t.pml4 && s.cpu.kernelRsp == t.stackEnd && (t.privilege == UserMode ==> s.cpu.rsp0 == t.stackEnd)
  }

  /** Task `id` can be resumed on its own stack, and its address space suits its privilege. */
  ghost predicate Resumable(t: Task, id: TaskId, nextId: TaskId, kernelPml4: nat) {
    && id < nextId && InStack(t, t.rsp) && t.stackEnd == t.stackStart + STACK_SIZE && (t.parent.Some? ==> t.parent.value < id)
    && (t.privilege == KernelMode <==> t.pml4 == kernelPml4)
  }

  ghost predicate Distinct(t: Task, u: Task) {
    Apart(t, u.stackStart) && (t.privilege == UserMode ==> t.pml4 != u.pml4)
  }

  /** Registered tasks are resumable and share neither stacks nor user address spaces. */
  ghost predicate Separate(registry: map<TaskId, Task>, nextId: TaskId, kernelPml4: nat) {
    && (forall id :: id in registry ==> Resumable(registry[id], id, nextId, kernelPml4))
    && (forall a, b :: a in registry && b in registry && a != b ==> Distinct(registry[a], registry[b]))
  }

  /** The reaper is always Ready; what it has to kill is Dead; what it killed is gone for good. */
  ghost predicate Reaping(s: System)
    requires Coherent(s.tm)
  {
    && s.nextId >= REAPER
    && (s.nextId > REAPER ==> REAPER in s.tm.states && s.tm.states[REAPER] == Ready && s.tm.registry[REAPER].privilege == KernelMode)
    && NoDuplicates(s.pending) && (forall id :: id in s.pending ==> id in s.tm.states && s.tm.states[id] == Dead)
    && NoDuplicates(s.reclaimed) && (forall id :: id in s.reclaimed ==> id !in s.tm.states && id < s.nextId)
  }

  /** Whoever waits for its own child is Blocked and the child is still there to end the wait. */
  ghost predicate NotStranded(s: System) {
    forall p :: p in s.waits ==>
      && p in s.tm.states && s.tm.states[p] == Blocked
      && s.waits[p] in s.tm.registry && s.tm.registry[s.waits[p]].parent == Some(p)
  }

  /** The address spaces around are exactly those the registered user tasks live in. */
  ghost predicate Housed(registry: map<TaskId, Task>, spaces: set<nat>) {
    && (forall id, p :: LivesIn(registry, id, p) ==> p in spaces)
    && (forall p :: p in spaces ==> exists id :: LivesIn(registry, id, p))
  }

  ghost predicate Sound(s: System) {
    Housed(s.tm.registry, s.spaces) && Coherent(s.tm) && Separate(s.tm.registry, s.nextId, s.kernelPml4) && OnCpu(s) && Reaping(s) && NotStranded(s)
  }

  /** The state before the first task is spawned. */
  predicate Boot(s: System) {
    s.tm == EMPTY && s.nextId == REAPER && s.pending == [] && s.reclaimed == [] && s.waits == map[] && s.spaces == {} && s.cpu.cr3 == s.kernelPml4
  }

  // ------------------------------------------------------------------
  // Every step keeps the invariant
  // ------------------------------------------------------------------

  /** A change of states that registers nobody, revives nobody and leaves the reaper alone. */
  ghost predicate StatesOnly(m: Manager, n: Manager) {
    && n.registry == m.registry && (n.current == m.current || n.current == None)
    && (forall id :: id in m.states ==> id in n.states)
    && (forall id :: id in m.states && m.states[id] == Dead ==> n.states[id] == Dead)
    && (REAPER in m.states && m.states[REAPER] == Ready ==> n.states[REAPER] == Ready)
  }

  lemma StatesOnlySound(s: System, n: Manager)
    requires Sound(s) && Coherent(n) && StatesOnly(s.tm, n)
    ensures Sound(WithManager(s, n))
  {
    hide NoDuplicates, InStack, Separate, Housed;
    var t := WithManager(s, n);
    CoherentKeys(s.tm);
    CoherentKeys(n);
    assert OnCpu(t) by { hide Coherent; }
    assert Reaping(t) by { hide Coherent; }
    assert NotStranded(t) by { hide Coherent; }
  }

  lemma CoherentKeys(m: Manager)
    requires Coherent(m)
    ensures m.current.Some? ==> m.current.value in m.states && m.states[m.current.value] != Dead
    ensures m.states.Keys == m.registry.Keys
  {}

  lemma BlockOnly(m: Manager)
    requires Coherent(m) && m.current != Some(REAPER)
    ensures Coherent(BlockCurrent(m)) && StatesOnly(m, BlockCurrent(m))
    ensures m.current.Some? ==> BlockCurrent(m).states[m.current.value] == Blocked
    ensures BlockCurrent(m).current == m.current
  {
    hide Coherent, Without;
    CoherentKeys(m);
    if m.current.Some? { SetStateCoherent(m, m.current.value, Blocked); }
  }

  lemma ExitOnly(m: Manager)
    requires Coherent(m) && m.current != Some(REAPER)
    ensures Coherent(ExitCurrent(m)) && StatesOnly(m, ExitCurrent(m))
  {
    hide Coherent, Without;
    CoherentKeys(m);
    ExitCoherent(m);
  }

  lemma UnblockOnly(m: Manager, id: TaskId)
    requires Coherent(m)
    ensures Coherent(Unblock(m, id)) && StatesOnly(m, Unblock(m, id))
  {
    hide Coherent, Without;
    CoherentKeys(m);
    if id in m.states { SetStateCoherent(m, id, Ready); }
  }

  lemma WaitSound(s: System, child: TaskId)
    requires Sound(s) && s.tm.current != Some(REAPER)
    ensures Sound(WaitStep(s, child))
  {
    hide Coherent, Separate, OnCpu, Reaping, SetState, BlockCurrent, Housed;
    BlockOnly(s.tm);
    CoherentKeys(s.tm);
    if child in s.tm.states && s.tm.states[child] != Dead {
      var t := WithManager(s, BlockCurrent(s.tm));
      StatesOnlySound(s, t.tm);
      CoherentKeys(t.tm);
      assert NotStranded(WaitStep(s, child));
      NewWait(t, WaitStep(s, child));
    } else {
      assert WithManager(s, s.tm) == s;
    }
  }

  lemma NewWait(s: System, t: System)
    requires Sound(s) && t == s.(waits := t.waits) && NotStranded(t)
    ensures Sound(t)
  {}

  // Spawning

  lemma SpawnSeparate(s: System, t: Task)
    requires Separate(s.tm.registry, s.nextId, s.kernelPml4) && Resumable(t, s.nextId, s.nextId + 1, s.kernelPml4)
    requires forall id :: id in s.tm.registry ==> Distinct(s.tm.registry[id], t) && Distinct(t, s.tm.registry[id])
    ensures Separate(s.tm.registry[s.nextId := t], s.nextId + 1, s.kernelPml4)
  {
    hide Distinct;
    forall id | id in s.tm.registry ensures Resumable(s.tm.registry[id], id, s.nextId + 1, s.kernelPml4) {
      assert Resumable(s.tm.registry[id], id, s.nextId, s.kernelPml4);
    }
  }

  lemma NewTaskDistinct(s: System, stack: nat, pml4: nat, privilege: Privilege, id: TaskId)
    requires Sound(s) && Enabled(s, Spawn(stack, pml4, privilege)) && id in s.tm.registry
    ensures var t := NewTask(s.tm.current, pml4, privilege, stack);
      Distinct(s.tm.registry[id], t) && Distinct(t, s.tm.registry[id])
  {
    hide Coherent, OnCpu, Reaping, NotStranded;
    assert Resumable(s.tm.registry[id], id, s.nextId, s.kernelPml4);
    assert Apart(s.tm.registry[id], stack);
  }

  lemma NewTaskResumable(s: System, stack: nat, pml4: nat, privilege: Privilege)
    requires Sound(s) && Enabled(s, Spawn(stack, pml4, privilege))
    ensures Resumable(NewTask(s.tm.current, pml4, privilege, stack), s.nextId, s.nextId + 1, s.kernelPml4)
    ensures s.nextId !in s.tm.registry
  {
    hide Coherent, OnCpu, Reaping, NotStranded, Distinct;
    CoherentKeys(s.tm);
    if s.tm.current.Some? {
      assert Resumable(s.tm.registry[s.tm.current.value], s.tm.current.value, s.nextId, s.kernelPml4);
    }
    assert s.nextId in s.tm.registry ==> Resumable(s.tm.registry[s.nextId], s.nextId, s.nextId, s.kernelPml4);
  }

  lemma SpawnSound(s: System, stack: nat, pml4: nat, privilege: Privilege)
    requires Sound(s) && Enabled(s, Spawn(stack, pml4, privilege))
    ensures Sound(Apply(s, Spawn(stack, pml4, privilege)))
  {
    hide Coherent, NewTask, Resumable, Distinct, Separate, InStack, Apart, NoDuplicates, Housed, LivesIn;
    var n, t := Apply(s, Spawn(stack, pml4, privilege)), NewTask(s.tm.current, pml4, privilege, stack);
    NewTaskResumable(s, stack, pml4, privilege);
    forall id | id in s.tm.registry ensures Distinct(s.tm.registry[id], t) && Distinct(t, s.tm.registry[id]) {
      NewTaskDistinct(s, stack, pml4, privilege, id);
    }
    SpawnSeparate(s, t);
    RegisterCoherent(s.tm, s.nextId, t);
    CoherentKeys(s.tm);
    assert OnCpu(n);
    assert NotStranded(n);
    NewTaskKind(s.tm.current, pml4, privilege, stack);
    SpawnHoused(s.tm.registry, s.spaces, s.nextId, t);
    assert Reaping(n);
  }

  lemma NewTaskKind(parent: Option<TaskId>, pml4: nat, privilege: Privilege, stack: nat)
    ensures NewTask(parent, pml4, privilege, stack).privilege == privilege && NewTask(parent, pml4, privilege, stack).pml4 == pml4
  {}

  lemma SpawnHoused(registry: map<TaskId, Task>, spaces: set<nat>, id: TaskId, t: Task)
    requires Housed(registry, spaces) && id !in registry
    ensures Housed(registry[id := t], spaces + if t.privilege == UserMode then {t.pml4} else {})
  {
    var now := registry[id := t];
    forall p | p in spaces ensures exists x :: LivesIn(now, x, p) {
      var x :| LivesIn(registry, x, p);
      assert LivesIn(now, x, p);
    }
    assert t.privilege == UserMode ==> LivesIn(now, id, t.pml4);
    forall x, p | LivesIn(now, x, p) && x != id ensures p in spaces { assert LivesIn(registry, x, p); }
  }

  // Reaping

  lemma KillSeparate(s: System, id: TaskId)
    requires Separate(s.tm.registry, s.nextId, s.kernelPml4)
    ensures Separate(s.tm.registry - {id}, s.nextId, s.kernelPml4)
  {}

  /** What killing a Dead task does to everybody else. */
  lemma KillOthers(m: Manager, id: TaskId)
    requires Coherent(m) && id in m.states && m.states[id] == Dead
    ensures var n := Kill(m, id).0;
      && n.registry == m.registry - {id} && n.states.Keys == m.states.Keys - {id} && n.current == m.current && m.current != Some(id)
      && (forall x :: x in n.states ==> n.states[x] == if m.states[x] == Blocked && m.registry[id].parent == Some(x) then Ready else m.states[x])
  {
    hide NoDuplicates, Without;
  }

  lemma KillLeavesNothing(m: Manager, id: TaskId)
    ensures Kill(m, id).0.registry == m.registry - {id} && id !in Kill(m, id).0.states
    ensures Kill(m, id).1 == if id in m.registry then Some(m.registry[id]) else None
  {
    hide Without;
  }

  lemma ReapSound(s: System)
    requires Sound(s) && Enabled(s, Reap)
    ensures Sound(Apply(s, Reap))
  {
    hide Coherent, Separate, OnCpu, Reaping, NotStranded, Kill, NoDuplicates, Housed, TornDown;
    var t, id := Apply(s, Reap), s.pending[0];
    PendingDead(s);
    CoherentKeys(s.tm);
    KillLeavesNothing(s.tm, id);
    ReapHoused(s.tm.registry, s.spaces, s.nextId, s.kernelPml4, id);
    KillCoherent(s.tm, id);
    KillOthers(s.tm, id);
    KillSeparate(s, id);
    ReapOnCpu(s, t, id);
    ReapNotStranded(s, t, id);
    ReapReaping(s, t);
  }

  /** Tearing down a killed user task's address space takes away that one and no other. */
  lemma ReapHoused(registry: map<TaskId, Task>, spaces: set<nat>, nextId: TaskId, kernelPml4: nat, id: TaskId)
    requires Housed(registry, spaces) && Separate(registry, nextId, kernelPml4) && id in registry
    ensures Housed(registry - {id}, spaces - TornDown(Some(registry[id])))
    ensures TornDown(Some(registry[id])) <= spaces
  {
    hide Resumable;
    var now, left := registry - {id}, spaces - TornDown(Some(registry[id]));
    assert registry[id].privilege == UserMode ==> LivesIn(registry, id, registry[id].pml4);
    forall x, p | LivesIn(now, x, p) ensures p in left {
      assert LivesIn(registry, x, p) && Distinct(registry[x], registry[id]);
    }
    forall p | p in left ensures exists x :: LivesIn(now, x, p) {
      var x :| LivesIn(registry, x, p);
      assert LivesIn(now, x, p);
    }
  }

  lemma PendingDead(s: System)
    requires Coherent(s.tm) && Reaping(s) && s.pending != []
    ensures s.pending[0] in s.tm.states && s.tm.states[s.pending[0]] == Dead
  {
    assert s.pending[0] in s.pending;
  }

  lemma ReapOnCpu(s: System, t: System, id: TaskId)
    requires Coherent(s.tm) && Coherent(t.tm) && OnCpu(s) && t.cpu == s.cpu && t.tm.current == s.tm.current != Some(id)
    requires t.tm.registry == s.tm.registry - {id}
    ensures OnCpu(t)
  {
    hide Coherent, InStack;
    CoherentKeys(s.tm);
    CoherentKeys(t.tm);
  }

  lemma ReapNotStranded(s: System, t: System, id: TaskId)
    requires Coherent(s.tm) && NotStranded(s) && id in s.tm.states && s.tm.states[id] == Dead
    requires t == WithManager(s, t.tm).(pending := t.pending, reclaimed := t.reclaimed, spaces := t.spaces)
    requires t.tm.registry == s.tm.registry - {id} && t.tm.states.Keys == s.tm.states.Keys - {id}
    requires forall x :: x in t.tm.states ==>
      t.tm.states[x] == if s.tm.states[x] == Blocked && s.tm.registry[id].parent == Some(x) then Ready else s.tm.states[x]
    ensures NotStranded(t)
  {
    hide Coherent;
    CoherentKeys(s.tm);
  }

  lemma ReapReaping(s: System, t: System)
    requires Coherent(s.tm) && Reaping(s) && s.pending != [] && Coherent(t.tm) && t.nextId == s.nextId
    requires Separate(s.tm.registry, s.nextId, s.kernelPml4)
    requires var id := s.pending[0];
      && t.pending == s.pending[1..] && t.reclaimed == s.reclaimed + [id]
      && t.tm.registry == s.tm.registry - {id} && t.tm.states.Keys == s.tm.states.Keys - {id}
      && forall x :: x in t.tm.states && s.tm.states[x] != Blocked ==> t.tm.states[x] == s.tm.states[x]
    ensures Reaping(t)
  {
    hide Coherent, Distinct;
    CoherentKeys(s.tm);
    var id := s.pending[0];
    assert s.tm.states[id] == Dead;
    assert Resumable(s.tm.registry[id], id, s.nextId, s.kernelPml4);
  }

  // Dispatching

  lemma SaveSeparate(registry: map<TaskId, Task>, nextId: TaskId, kernelPml4: nat, c: TaskId, rsp: nat)
    requires Separate(registry, nextId, kernelPml4) && c in registry && InStack(registry[c], rsp)
    ensures Separate(registry[c := registry[c].(rsp := rsp)], nextId, kernelPml4)
  {
    var saved := registry[c := registry[c].(rsp := rsp)];
    forall id | id in saved ensures Resumable(saved[id], id, nextId, kernelPml4) {
      assert Resumable(registry[id], id, nextId, kernelPml4);
    }
    forall a, b | a in saved && b in saved && a != b ensures Distinct(saved[a], saved[b]) {
      assert Distinct(registry[a], registry[b]);
    }
  }

  /** Saving a stack pointer concerns nobody but its owner. */
  lemma SaveCoherent(m: Manager, registry: map<TaskId, Task>)
    requires Coherent(m) && registry.Keys == m.registry.Keys
    ensures Coherent(m.(registry := registry))
  {
    hide NoDuplicates;
  }

  /** After a tick everything the processor runs on belongs to the task chosen. */
  lemma SwitchOnCpu(s: System)
    requires Coherent(s.tm) && OnCpu(s) && Separate(s.tm.registry, s.nextId, s.kernelPml4)
    requires Coherent(Schedule(s).tm)
    ensures OnCpu(Schedule(s))
  {
    hide Coherent, Distinct, Dispatch;
    DispatchCoherent(s.tm);
    CoherentKeys(s.tm);
    CoherentKeys(Dispatch(s.tm).0);
    var next := Dispatch(s.tm).1;
    if next.Some? {
      assert Resumable(s.tm.registry[next.value], next.value, s.nextId, s.kernelPml4);
    }
  }

  lemma ScheduleCoherent(s: System)
    requires Coherent(s.tm)
    ensures Coherent(Schedule(s).tm) && Schedule(s).tm.states == s.tm.states && Schedule(s).tm.registry.Keys == s.tm.registry.Keys
    ensures forall id :: id in s.tm.registry ==> s.tm.registry[id].(rsp := 0) == Schedule(s).tm.registry[id].(rsp := 0)
    ensures Schedule(s) == s.(tm := Schedule(s).tm, cpu := Schedule(s).cpu) && Schedule(s).tm.current == Dispatch(s.tm).0.current
    ensures Schedule(s).tm.queue == Dispatch(s.tm).0.queue
  {
    hide Coherent, Dispatch;
    DispatchCoherent(s.tm);
    CoherentKeys(s.tm);
    var m := Dispatch(s.tm).0;
    assert Schedule(s).tm == m.(registry := Schedule(s).tm.registry);
    SaveCoherent(m, Schedule(s).tm.registry);
  }

  lemma SaveHoused(registry: map<TaskId, Task>, saved: map<TaskId, Task>, spaces: set<nat>)
    requires Housed(registry, spaces) && saved.Keys == registry.Keys
    requires forall id :: id in registry ==> registry[id].(rsp := 0) == saved[id].(rsp := 0)
    ensures Housed(saved, spaces)
  {
    forall id, p ensures LivesIn(saved, id, p) <==> LivesIn(registry, id, p) {
      if id in registry { assert registry[id].(rsp := 0).pml4 == saved[id].(rsp := 0).pml4 && registry[id].(rsp := 0).privilege == saved[id].(rsp := 0).privilege; }
    }
  }

  lemma ScheduleSeparate(s: System)
    requires Coherent(s.tm) && OnCpu(s) && Separate(s.tm.registry, s.nextId, s.kernelPml4)
    ensures Separate(Schedule(s).tm.registry, s.nextId, s.kernelPml4)
  {
    hide Coherent, Dispatch, Separate, Resumable, Distinct;
    DispatchCoherent(s.tm);
    CoherentKeys(s.tm);
    if s.tm.current.Some? {
      SaveSeparate(s.tm.registry, s.nextId, s.kernelPml4, s.tm.current.value, s.cpu.rsp);
    }
  }

  lemma SwitchSound(s: System)
    requires Sound(s)
    ensures Sound(Schedule(s))
  {
    hide Coherent, Dispatch, Separate, OnCpu, NoDuplicates, Schedule, Housed;
    ScheduleCoherent(s);
    SaveHoused(s.tm.registry, Schedule(s).tm.registry, s.spaces);
    ScheduleSeparate(s);
    SwitchOnCpu(s);
    CoherentKeys(s.tm);
    CoherentKeys(Schedule(s).tm);
  }

  lemma {:induction false} DeadBelowMembers(states: map<TaskId, TaskState>, n: TaskId)
    ensures forall id :: id in DeadBelow(states, n) <==> id < n && id in states && states[id] == Dead
    ensures NoDuplicates(DeadBelow(states, n))
  {
    if n > 0 { DeadBelowMembers(states, n - 1); }
  }

  /** Every step keeps the invariant. */
  lemma StepSound(s: System, step: Step)
    requires Sound(s) && Enabled(s, step)
    ensures Sound(Apply(s, step))
  {
    match step
    case Spawn(stack, pml4, privilege) => SpawnSound(s, stack, pml4, privilege);
    case SpawnFails =>
    case Wait(child) => WaitSound(s, child);
    case Block => BlockOnly(s.tm); StatesOnlySound(s, BlockCurrent(s.tm));
    case Wake(id) => UnblockOnly(s.tm, id); StatesOnlySound(s, Unblock(s.tm, id));
    case Exit => ExitOnly(s.tm); StatesOnlySound(s, ExitCurrent(s.tm));
    case Execute(rsp) =>
    case Tick => SwitchSound(s);
    case Scan => DeadBelowMembers(s.tm.states, s.nextId);
    case Reap => ReapSound(s);
  }

  // ------------------------------------------------------------------
  // Whole runs
  // ------------------------------------------------------------------

  ghost predicate Admissible(s: System, steps: seq<Step>)
    decreases |steps|
  {
    steps != [] ==> Enabled(s, steps[0]) && Admissible(Apply(s, steps[0]), steps[1..])
  }

  ghost function Run(s: System, steps: seq<Step>): System
    requires Admissible(s, steps)
    decreases |steps|
  {
    if steps == [] then s else Run(Apply(s, steps[0]), steps[1..])
  }

  lemma BootSound(s: System)
    requires Boot(s)
    ensures Sound(s)
  {}

  /** Dispatch coherence on every run from any sound state, in particular from boot. */
  lemma {:induction false} RunSound(s: System, steps: seq<Step>)
    requires Sound(s) && Admissible(s, steps)
    ensures Sound(Run(s, steps))
    decreases |steps|
  {
    hide Sound, Apply, Enabled;
    if steps != [] {
      StepSound(s, steps[0]);
      RunSound(Apply(s, steps[0]), steps[1..]);
    }
  }

  // Dead is absorbing, and reclaimed exactly once

  ghost predicate Gone(s: System, id: TaskId) {
    id !in s.tm.states && id in s.reclaimed
  }

  lemma StepKeepsDead(s: System, step: Step, id: TaskId)
    requires Sound(s) && Enabled(s, step)
    ensures id in s.reclaimed ==> id in Apply(s, step).reclaimed
    ensures id in s.tm.states && s.tm.states[id] == Dead ==>
      Gone(Apply(s, step), id) || (id in Apply(s, step).tm.states && Apply(s, step).tm.states[id] == Dead)
    ensures id in s.pending ==> id in Apply(s, step).pending || id in Apply(s, step).reclaimed
  {
    hide Coherent, Separate, OnCpu, NotStranded, NoDuplicates, InStack, Schedule, Without;
    match step
    case Spawn(stack, pml4, privilege) => NewTaskResumable(s, stack, pml4, privilege); CoherentKeys(s.tm);
    case SpawnFails =>
    case Wait(child) => BlockOnly(s.tm);
    case Block => BlockOnly(s.tm);
    case Wake(x) => UnblockOnly(s.tm, x);
    case Exit => ExitOnly(s.tm);
    case Execute(_) =>
    case Tick => ScheduleCoherent(s);
    case Scan =>
    case Reap =>
      KillOthers(s.tm, s.pending[0]);
      assert s.pending == [s.pending[0]] + s.pending[1..];
  }

  /** A Dead task stays Dead until the reaper reclaims it, and never comes back after that. */
  lemma {:induction false} DeadUntilReclaimed(s: System, steps: seq<Step>, id: TaskId)
    requires Sound(s) && Admissible(s, steps)
    requires Gone(s, id) || (id in s.tm.states && s.tm.states[id] == Dead)
    ensures var t := Run(s, steps); Gone(t, id) || (id in t.tm.states && t.tm.states[id] == Dead && id !in t.reclaimed)
    ensures Gone(s, id) ==> Gone(Run(s, steps), id)
    decreases |steps|
  {
    hide Apply, Enabled;
    if steps != [] {
      StepSound(s, steps[0]);
      StepKeepsDead(s, steps[0], id);
      DeadUntilReclaimed(Apply(s, steps[0]), steps[1..], id);
    }
  }

  lemma {:induction false} PendingUntilReclaimed(s: System, steps: seq<Step>, id: TaskId)
    requires Sound(s) && Admissible(s, steps) && (id in s.pending || id in s.reclaimed)
    ensures id in Run(s, steps).pending || id in Run(s, steps).reclaimed
    decreases |steps|
  {
    hide Apply, Enabled, Sound;
    if steps != [] {
      StepSound(s, steps[0]);
      StepKeepsDead(s, steps[0], id);
      PendingUntilReclaimed(Apply(s, steps[0]), steps[1..], id);
    }
  }

  /** One pass of the reaper reclaims, exactly once, every task that was Dead when it looked. */
  lemma ReaperPass(s: System, steps: seq<Step>, id: TaskId)
    requires Sound(s) && Admissible(s, [Scan] + steps) && id in s.tm.states && s.tm.states[id] == Dead
    requires Run(s, [Scan] + steps).pending == []
    ensures Gone(Run(s, [Scan] + steps), id) && NoDuplicates(Run(s, [Scan] + steps).reclaimed)
  {
    hide Coherent, Separate, OnCpu, NotStranded, NoDuplicates, Enabled;
    var t := Apply(s, Scan);
    assert ([Scan] + steps)[1..] == steps;
    StepSound(s, Scan);
    DeadBelowMembers(s.tm.states, s.nextId);
    CoherentKeys(s.tm);
    DeadIsOld(s, id);
    PendingUntilReclaimed(t, steps, id);
    RunSound(t, steps);
  }

  lemma DeadIsOld(s: System, id: TaskId)
    requires Sound(s) && id in s.tm.states
    ensures id < s.nextId
  {
    hide OnCpu, NotStranded, NoDuplicates, Distinct;
    assert Resumable(s.tm.registry[id], id, s.nextId, s.kernelPml4);
  }

  /** The reaper never tears down the address space in use, nor one another task lives in. */
  lemma ReapedSpaceUnused(s: System, id: TaskId)
    requires Sound(s) && Enabled(s, Reap)
    requires s.tm.registry[s.pending[0]].privilege == UserMode && id in s.tm.registry && id != s.pending[0]
    ensures s.tm.registry[s.pending[0]].pml4 != s.cpu.cr3 && s.tm.registry[s.pending[0]].pml4 != s.tm.registry[id].pml4
  {
    hide NotStranded, NoDuplicates;
    var dead := s.pending[0];
    assert s.tm.states[dead] == Dead;
    assert Distinct(s.tm.registry[dead], s.tm.registry[id]);
    assert Distinct(s.tm.registry[dead], s.tm.registry[REAPER]);
  }

  ghost predicate Awake(s: System, p: TaskId) {
    p in s.tm.states && s.tm.states[p] == Ready && p in s.tm.queue && p !in s.waits
  }

  /** On every run the address space of a reaped user task is one that exists, and afterwards it no
      longer does: whatever runs between two kills, none is torn down twice or left behind. */
  lemma ReapedSpaceExists(s: System)
    requires Sound(s) && Enabled(s, Reap) && s.tm.registry[s.pending[0]].privilege == UserMode
    ensures s.tm.registry[s.pending[0]].pml4 in s.spaces
    ensures Apply(s, Reap).spaces == s.spaces - {s.tm.registry[s.pending[0]].pml4}
  {
    hide Separate, OnCpu, NotStranded, NoDuplicates, Coherent, Kill;
    CoherentKeys(s.tm);
    KillLeavesNothing(s.tm, s.pending[0]);
    assert LivesIn(s.tm.registry, s.pending[0], s.tm.registry[s.pending[0]].pml4);
  }

  /** A spawned user task's address space was nobody's before. */
  lemma SpawnedSpaceNew(s: System, stack: nat, pml4: nat)
    requires Sound(s) && Enabled(s, Spawn(stack, pml4, UserMode))
    ensures pml4 !in s.spaces
  {
    hide Separate, OnCpu, NotStranded, Reaping, Coherent, Apart;
    assert forall id :: !LivesIn(s.tm.registry, id, pml4);
  }

  /** Reclaiming the child a task waits for makes the task Ready and queues it. */
  lemma ReapEndsWait(s: System, p: TaskId)
    requires s.pending != [] && p in s.waits && s.waits[p] == s.pending[0]
    requires Sound(s) && Enabled(s, Reap)
    ensures Awake(Apply(s, Reap), p)
  {
    hide Separate, OnCpu, NoDuplicates, Without, Kill;
    var dead := s.pending[0];
    assert s.tm.states[dead] == Dead && s.tm.states[p] == Blocked;
    KillWakesIff(s.tm, dead, p);
    KillOthers(s.tm, dead);
  }

  // Bounded waiting

  function Ticks(steps: seq<Step>): nat {
    if steps == [] then 0 else Ticks(steps[1..]) + if steps[0] == Tick then 1 else 0
  }

  /** Task `t` is queued, not running, and at most `k` tasks go before it. */
  ghost predicate Waiting(m: Manager, t: TaskId, k: nat) {
    t in m.queue && m.current != Some(t) && Position(m.queue, t) <= k
  }

  lemma SetStateWaiting(m: Manager, id: TaskId, st: TaskState, t: TaskId, k: nat)
    requires Waiting(m, t, k) && (id != t || st == Ready)
    ensures Waiting(SetState(m, id, st), t, k)
  {
    if id != t { PositionWithout(m.queue, id, t); }
    PositionAppend(m.queue, id, t);
  }

  lemma TickWaiting(m: Manager, t: TaskId, k: nat)
    requires Waiting(m, t, k)
    ensures Dispatch(m).1 == Some(t) || (k > 0 && Waiting(Dispatch(m).0, t, k - 1))
  {
    if m.current.Some? { PositionAppend(m.queue, m.current.value, t); }
  }

  lemma StepWaiting(s: System, step: Step, t: TaskId, k: nat)
    requires Sound(s) && Enabled(s, step) && Waiting(s.tm, t, k) && step != Tick
    ensures Waiting(Apply(s, step).tm, t, k)
  {
    hide Separate, OnCpu, NotStranded, NoDuplicates, Without, InStack, SetState, Waiting;
    var m := s.tm;
    assert t in m.queue && m.current != Some(t) by { WaitingFacts(m, t, k); }
    match step
    case Spawn(stack, pml4, privilege) =>
      var u := m.(registry := m.registry[s.nextId := NewTask(m.current, pml4, privilege, stack)]);
      SameWaiting(m, u, t, k);
      SetStateWaiting(u, s.nextId, Ready, t, k);
    case SpawnFails =>
    case Wait(child) => if m.current.Some? { SetStateWaiting(m, m.current.value, Blocked, t, k); }
    case Block => if m.current.Some? { SetStateWaiting(m, m.current.value, Blocked, t, k); }
    case Wake(x) => SetStateWaiting(m, x, Ready, t, k);
    case Exit =>
      if m.current.Some? {
        SetStateWaiting(m, m.current.value, Dead, t, k);
        SameWaiting(SetState(m, m.current.value, Dead), ExitCurrent(m), t, k);
      }
    case Execute(_) =>
    case Scan =>
    case Reap =>
      var id := s.pending[0];
      assert m.states[id] == Dead && m.states[t] == Ready;
      var a := SetState(m, id, Dead);
      SetStateWaiting(m, id, Dead, t, k);
      if m.registry[id].parent.Some? { SetStateWaiting(a, m.registry[id].parent.value, Ready, t, k); }
      KillQueue(m, id);
      SameWaiting(if m.registry[id].parent.Some? then Unblock(a, m.registry[id].parent.value) else a, Kill(m, id).0, t, k);
  }

  lemma WaitingFacts(m: Manager, t: TaskId, k: nat)
    requires Waiting(m, t, k)
    ensures t in m.queue && m.current != Some(t)
  {}

  lemma KillQueue(m: Manager, id: TaskId)
    requires id in m.registry
    ensures var a := SetState(m, id, Dead);
      var b := if m.registry[id].parent.Some? then Unblock(a, m.registry[id].parent.value) else a;
      Kill(m, id).0.queue == b.queue && Kill(m, id).0.current == b.current
  {}

  lemma SameWaiting(m: Manager, n: Manager, t: TaskId, k: nat)
    requires Waiting(m, t, k) && n.queue == m.queue && (n.current == m.current || n.current == None)
    ensures Waiting(n, t, k)
  {}

  /** A task with `k` others before it is dispatched by the `k + 1`st tick at the latest, whatever
      happens in between: `j` steps are enough. */
  lemma {:induction false} BoundedWaiting(s: System, steps: seq<Step>, t: TaskId, k: nat) returns (j: nat)
    requires Sound(s) && Admissible(s, steps) && Waiting(s.tm, t, k) && Ticks(steps) > k
    ensures 0 < j <= |steps| && Ticks(steps[..j]) <= k + 1
    ensures Admissible(s, steps[..j]) && Run(s, steps[..j]).tm.current == Some(t)
    decreases |steps|
  {
    hide Sound, Enabled, Waiting, Schedule, Dispatch;
    var step, n := steps[0], Apply(s, steps[0]);
    assert steps[..1] == [step];
    StepSound(s, step);
    if step == Tick {
      TickWaiting(s.tm, t, k);
      ScheduleFacts(s);
      if Dispatch(s.tm).1 == Some(t) {
        assert Ticks([step]) == 1 + Ticks([]);
        assert Admissible(n, []) && Run(n, []) == n;
        return 1;
      }
      SameWaiting(Dispatch(s.tm).0, n.tm, t, k - 1);
      j := BoundedWaiting(n, steps[1..], t, k - 1);
    } else {
      StepWaiting(s, step, t, k);
      j := BoundedWaiting(n, steps[1..], t, k);
    }
    assert steps[1..][..j] == steps[..j + 1][1..];
    j := j + 1;
  }

  lemma ScheduleFacts(s: System)
    requires Sound(s)
    ensures Schedule(s).tm.current == Dispatch(s.tm).0.current && Schedule(s).tm.queue == Dispatch(s.tm).0.queue
    ensures Dispatch(s.tm).1.Some? ==> Dispatch(s.tm).1 == Dispatch(s.tm).0.current
  {
    ScheduleCoherent(s);
    DispatchCoherent(s.tm);
  }

  /** The reaper itself is never parked: it is running or waits in the queue. */
  lemma ReaperRuns(s: System)
    requires Sound(s) && s.nextId > REAPER
    ensures s.tm.current == Some(REAPER) || Waiting(s.tm, REAPER, |s.tm.queue|)
  {}
}
