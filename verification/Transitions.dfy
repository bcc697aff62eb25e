/** What every step does to the state of every task, and what follows for whole runs: who sleeps is
    not run until woken, and who has exited is never run again (src/task/task_manager.rs). */
module Transitions {
  import opened Common
  import opened ReadyQueues
  import opened TaskStates
  import opened Scheduling

  /** The state of task `x` after a step: only blocking, waiting for a living child and exiting change
      the current task's, only being woken, by name or by the death of a child, a Blocked one's. */
  ghost function StateAfter(s: System, step: Step, x: TaskId): TaskState
    requires x in s.tm.states && Enabled(s, step)
  {
    var was := s.tm.states[x];
    match step
    case Block => if s.tm.current == Some(x) then Blocked else was
    case Wait(child) => if s.tm.current == Some(x) && child in s.tm.states && s.tm.states[child] != Dead then Blocked else was
    case Exit => if s.tm.current == Some(x) then Dead else was
    case Wake(id) => if x == id && was == Blocked then Ready else was
    case Reap => if was == Blocked && ParentOf(s, s.pending[0]) == Some(x) then Ready else was
    case _ => was
  }

  ghost function ParentOf(s: System, id: TaskId): Option<TaskId> {
    if id in s.tm.registry then s.tm.registry[id].parent else None
  }

  lemma StepStates(s: System, step: Step, x: TaskId)
    requires Sound(s) && Enabled(s, step) && x in s.tm.states && x in Apply(s, step).tm.states
    ensures Apply(s, step).tm.states[x] == StateAfter(s, step, x)
  {
    hide Coherent, Separate, OnCpu, NotStranded, NoDuplicates, InStack, Schedule, Without, NewTask, Housed;
    CoherentKeys(s.tm);
    match step
    case Spawn(stack, pml4, privilege) => NewTaskResumable(s, stack, pml4, privilege);
    case Tick => ScheduleCoherent(s);
    case Reap => KillOthers(s.tm, s.pending[0]);
    case _ =>
  }

  /** Tasks appear by spawning, Ready and as the current one's children, and disappear by being reaped. */
  lemma StepTasks(s: System, step: Step)
    requires Sound(s) && Enabled(s, step)
    ensures var t := Apply(s, step);
      t.tm.states.Keys == match step
        case Spawn(_, _, _) => s.tm.states.Keys + {s.nextId}
        case Reap => s.tm.states.Keys - {s.pending[0]}
        case _ => s.tm.states.Keys
    ensures step.Spawn? ==> s.nextId !in s.tm.states && Apply(s, step).tm.states[s.nextId] == Ready && s.nextId in Apply(s, step).tm.registry
    ensures step.Spawn? ==> Apply(s, step).tm.registry[s.nextId].parent == s.tm.current && Apply(s, step).tm.registry[s.nextId].pml4 == step.pml4
  {
    hide Coherent, Separate, OnCpu, NotStranded, NoDuplicates, InStack, Schedule, Without, Housed;
    CoherentKeys(s.tm);
    match step
    case Spawn(stack, pml4, privilege) => NewTaskResumable(s, stack, pml4, privilege);
    case Tick => ScheduleCoherent(s);
    case Reap => KillOthers(s.tm, s.pending[0]);
    case _ =>
  }

  /** Blocked and off the processor. */
  ghost predicate Asleep(s: System, x: TaskId) {
    x in s.tm.states && s.tm.states[x] == Blocked && s.tm.current != Some(x)
  }

  /** Steps that end the sleep of `x`. */
  ghost predicate Rouses(s: System, step: Step, x: TaskId) {
    step == Wake(x) || (step.Reap? && s.pending != [] && ParentOf(s, s.pending[0]) == Some(x))
  }

  ghost predicate Undisturbed(s: System, steps: seq<Step>, x: TaskId)
    requires Admissible(s, steps)
    decreases |steps|
  {
    steps != [] ==> !Rouses(s, steps[0], x) && Undisturbed(Apply(s, steps[0]), steps[1..], x)
  }

  lemma StepAsleep(s: System, step: Step, x: TaskId)
    requires Sound(s) && Enabled(s, step) && Asleep(s, x) && !Rouses(s, step, x)
    ensures Asleep(Apply(s, step), x)
  {
    hide Separate, OnCpu, NotStranded, NoDuplicates, InStack, Without, NewTask, Housed, SetState, Coherent, Schedule;
    StepTasks(s, step);
    PendingNotBlocked(s, x);
    StepStates(s, step, x);
    StepCurrent(s, step, x);
  }

  lemma PendingNotBlocked(s: System, x: TaskId)
    requires Sound(s) && Asleep(s, x)
    ensures x !in s.pending
  {}

  /** Only a tick puts a task on the processor, and only one that was queued. */
  lemma StepCurrent(s: System, step: Step, x: TaskId)
    requires Sound(s) && Enabled(s, step) && s.tm.current != Some(x) && x in s.tm.states && s.tm.states[x] != Ready
    ensures Apply(s, step).tm.current != Some(x)
  {
    hide Separate, OnCpu, NotStranded, InStack, Without, NewTask, Housed;
    match step
    case Tick => DispatchedWasReady(s, x);
    case Reap => KillOthers(s.tm, s.pending[0]);
    case _ =>
  }

  lemma DispatchedWasReady(s: System, x: TaskId)
    requires Sound(s) && s.tm.current != Some(x) && x in s.tm.states && s.tm.states[x] != Ready
    ensures Schedule(s).tm.current != Some(x)
  {
    hide Separate, OnCpu, NotStranded, InStack, Without, NewTask, Housed, NoDuplicates, Schedule, Reaping;
    ScheduleFacts(s);
    RequeueCoherent(s.tm);
  }

  /** A task that sleeps is neither woken nor run until something rouses it. */
  lemma {:induction false} SleepsUntilRoused(s: System, steps: seq<Step>, x: TaskId)
    requires Sound(s) && Admissible(s, steps) && Asleep(s, x) && Undisturbed(s, steps, x)
    ensures Asleep(Run(s, steps), x)
    decreases |steps|
  {
    hide Apply, Enabled, Asleep, Rouses;
    if steps != [] {
      StepSound(s, steps[0]);
      StepAsleep(s, steps[0], x);
      SleepsUntilRoused(Apply(s, steps[0]), steps[1..], x);
    }
  }

  /** A task that has exited is never run again. */
  lemma ExitIsFinal(s: System, steps: seq<Step>, x: TaskId)
    requires Sound(s) && Enabled(s, Exit) && s.tm.current == Some(x) && Admissible(Apply(s, Exit), steps)
    ensures Apply(s, Exit).tm.current == None && Run(Apply(s, Exit), steps).tm.current != Some(x)
  {
    hide Coherent, Separate, OnCpu, NotStranded, NoDuplicates, InStack, Schedule, Without, Housed, Reaping;
    CoherentKeys(s.tm);
    StepSound(s, Exit);
    StepTasks(s, Exit);
    StepStates(s, Exit, x);
    DeadUntilReclaimed(Apply(s, Exit), steps, x);
    RunSound(Apply(s, Exit), steps);
    CoherentKeys(Run(Apply(s, Exit), steps).tm);
  }

  /** A roused task is Ready again and in the queue, so that it is run in its turn. */
  lemma RousedWaitsItsTurn(s: System, step: Step, x: TaskId)
    requires Sound(s) && Enabled(s, step) && Asleep(s, x) && Rouses(s, step, x)
    ensures x in Apply(s, step).tm.states && Apply(s, step).tm.states[x] == Ready && x in Apply(s, step).tm.queue
  {
    hide Separate, OnCpu, NotStranded, NoDuplicates, InStack, Schedule, Without, NewTask, Housed, SetState;
    StepSound(s, step);
    StepTasks(s, step);
    PendingNotBlocked(s, x);
    StepStates(s, step, x);
    RousedNotCurrent(s, step, x);
  }

  lemma RousedNotCurrent(s: System, step: Step, x: TaskId)
    requires Sound(s) && Enabled(s, step) && Asleep(s, x) && Rouses(s, step, x)
    ensures Apply(s, step).tm.current != Some(x)
  {
    hide Separate, OnCpu, NotStranded, NoDuplicates, InStack, Schedule, Without, NewTask, Housed;
    if step.Reap? { KillOthers(s.tm, s.pending[0]); }
  }
}
