/** A preempted task goes on where it stopped (src/task/scheduler.rs). */
module Resumption {
  import opened Common
  import opened ReadyQueues
  import opened TaskStates
  import opened Scheduling

  /** Where task `c` stands: its stack pointer, on the processor or saved. */
  function Point(s: System, c: TaskId): nat
    requires c in s.tm.registry
  {
    if s.tm.current == Some(c) then s.cpu.rsp else s.tm.registry[c].rsp
  }

  /** The task moves on, being on the processor. */
  predicate Moves(s: System, step: Step, c: TaskId) {
    step.Execute? && s.tm.current == Some(c)
  }

  ghost predicate Alive(s: System, c: TaskId) {
    c in s.tm.registry && c in s.tm.states && s.tm.states[c] != Dead
  }

  /** A tick leaves every task where it stands, whichever it switches between. */
  lemma TickPoint(s: System, c: TaskId)
    requires Sound(s) && c in s.tm.registry
    ensures c in Schedule(s).tm.registry && Point(Schedule(s), c) == Point(s, c)
  {
    hide Coherent, Dispatch, Separate, OnCpu, Reaping, NotStranded, Housed;
    ScheduleCoherent(s);
    DispatchCoherent(s.tm);
    CoherentKeys(s.tm);
    CoherentKeys(Dispatch(s.tm).0);
  }

  /** A switch from `a` to `c`: the processor's stack pointer is saved in `a`, and the one saved in
      `c` is loaded. */
  lemma TickSwitches(s: System, a: TaskId, c: TaskId)
    requires Sound(s) && s.tm.current == Some(a) && Schedule(s).tm.current == Some(c) && a != c
    ensures a in Schedule(s).tm.registry && c in s.tm.registry
    ensures Schedule(s).tm.registry[a].rsp == s.cpu.rsp && Schedule(s).cpu.rsp == s.tm.registry[c].rsp
  {
    hide Coherent, Schedule, Separate, OnCpu, Reaping, NotStranded, Housed;
    SwitchSound(s);
    ScheduleCoherent(s);
    CoherentKeys(s.tm);
    CoherentKeys(Schedule(s).tm);
    TickPoint(s, a);
    TickPoint(s, c);
  }

  /** Only running moves a task, and nothing changes what else it is. */
  lemma StepPoint(s: System, step: Step, c: TaskId)
    requires Sound(s) && Enabled(s, step) && c in s.tm.registry && Alive(Apply(s, step), c)
    ensures Point(Apply(s, step), c) == if Moves(s, step, c) then step.rsp else Point(s, c)
    ensures Apply(s, step).tm.registry[c].(rsp := 0) == s.tm.registry[c].(rsp := 0)
  {
    hide Coherent, Separate, OnCpu, NotStranded, NoDuplicates, InStack, Schedule, Without, NewTask, Housed;
    match step
    case Spawn(stack, pml4, privilege) => NewTaskResumable(s, stack, pml4, privilege);
    case SpawnFails =>
    case Wait(child) => BlockOnly(s.tm);
    case Block => BlockOnly(s.tm);
    case Wake(x) => UnblockOnly(s.tm, x);
    case Exit => ExitOnly(s.tm); CoherentKeys(s.tm);
    case Execute(_) =>
    case Tick => TickPoint(s, c); ScheduleCoherent(s);
    case Scan =>
    case Reap => KillOthers(s.tm, s.pending[0]);
  }

  /** The stack pointer `c` last ran at, if it was at `at` before. */
  ghost function LastAt(s: System, steps: seq<Step>, c: TaskId, at: nat): nat
    requires Admissible(s, steps)
    decreases |steps|
  {
    if steps == [] then at
    else LastAt(Apply(s, steps[0]), steps[1..], c, if Moves(s, steps[0], c) then steps[0].rsp else at)
  }

  /** Whatever is preempted, blocked, woken, spawned or reaped in between, a task that is still alive
      stands where its own last step left it, with the same stack, address space and parent. */
  lemma {:induction false} ResumesWhereItStopped(s: System, steps: seq<Step>, c: TaskId)
    requires Sound(s) && Admissible(s, steps) && c in s.tm.registry && Alive(Run(s, steps), c)
    ensures Point(Run(s, steps), c) == LastAt(s, steps, c, Point(s, c))
    ensures Run(s, steps).tm.registry[c].(rsp := 0) == s.tm.registry[c].(rsp := 0)
    decreases |steps|
  {
    hide Apply, Enabled, Point, Moves;
    if steps != [] {
      var t := Apply(s, steps[0]);
      StepSound(s, steps[0]);
      StepAlive(s, steps, c);
      StepPoint(s, steps[0], c);
      ResumesWhereItStopped(t, steps[1..], c);
    }
  }

  /** Alive at the end means alive after the first step. */
  lemma StepAlive(s: System, steps: seq<Step>, c: TaskId)
    requires Sound(s) && Admissible(s, steps) && steps != [] && c in s.tm.registry && Alive(Run(s, steps), c)
    ensures Alive(Apply(s, steps[0]), c)
  {
    hide Coherent, Separate, OnCpu, NotStranded, NoDuplicates, Housed, Apply, Enabled;
    var t := Apply(s, steps[0]);
    StepSound(s, steps[0]);
    StepKeepsDead(s, steps[0], c);
    CoherentKeys(s.tm);
    CoherentKeys(t.tm);
    StepKeepsTask(s, steps[0], c);
    if !Alive(t, c) { DeadUntilReclaimed(t, steps[1..], c); }
  }

  /** A task leaves the registry only when it is reclaimed. */
  lemma StepKeepsTask(s: System, step: Step, c: TaskId)
    requires Sound(s) && Enabled(s, step) && c in s.tm.registry
    ensures c in Apply(s, step).tm.registry || Gone(Apply(s, step), c)
  {
    hide Coherent, Separate, OnCpu, NotStranded, NoDuplicates, InStack, Schedule, Without, NewTask, Housed;
    match step
    case Spawn(stack, pml4, privilege) => NewTaskResumable(s, stack, pml4, privilege);
    case SpawnFails =>
    case Wait(child) => BlockOnly(s.tm);
    case Block => BlockOnly(s.tm);
    case Wake(x) => UnblockOnly(s.tm, x);
    case Exit => ExitOnly(s.tm);
    case Execute(_) =>
    case Tick => ScheduleCoherent(s);
    case Scan =>
    case Reap => KillOthers(s.tm, s.pending[0]);
  }

  /** In particular a task first runs on the context made for it at the spawn. */
  lemma StartsAtItsEntry(s: System, stack: nat, pml4: nat, privilege: Privilege, steps: seq<Step>)
    requires Sound(s) && Enabled(s, Spawn(stack, pml4, privilege))
    requires Admissible(Apply(s, Spawn(stack, pml4, privilege)), steps)
    requires Alive(Run(Apply(s, Spawn(stack, pml4, privilege)), steps), s.nextId)
    ensures Point(Run(Apply(s, Spawn(stack, pml4, privilege)), steps), s.nextId)
      == LastAt(Apply(s, Spawn(stack, pml4, privilege)), steps, s.nextId, NewTask(s.tm.current, pml4, privilege, stack).rsp)
  {
    var t := Apply(s, Spawn(stack, pml4, privilege));
    StepSound(s, Spawn(stack, pml4, privilege));
    SpawnPoint(s, stack, pml4, privilege);
    hide Apply, Enabled, Sound, Point;
    ResumesWhereItStopped(t, steps, s.nextId);
  }

  lemma SpawnPoint(s: System, stack: nat, pml4: nat, privilege: Privilege)
    requires Sound(s) && Enabled(s, Spawn(stack, pml4, privilege))
    ensures var t := Apply(s, Spawn(stack, pml4, privilege));
      s.nextId in t.tm.registry && Point(t, s.nextId) == NewTask(s.tm.current, pml4, privilege, stack).rsp
  {
    hide Separate, OnCpu, NotStranded, NoDuplicates, InStack, Without, NewTask, Housed;
    NewTaskResumable(s, stack, pml4, privilege);
  }
}
