/** The task manager, the scheduler and the reaper as they run: state updated in place
    (src/task/task_manager.rs, src/task/scheduler.rs, src/task/mod.rs). */
module TaskManagers {
  import opened Common
  import opened ReadyQueues
  import opened TaskStates
  import opened Scheduling
  import opened Resumption

  /** Task `x` is Blocked and the parent of `child`. */
  ghost predicate WaitsOn(m: Manager, x: TaskId, child: TaskId) {
    x in m.states && m.states[x] == Blocked && child in m.registry && m.registry[child].parent == Some(x)
  }

  class TaskManager {
    var queue: seq<TaskId>
    var registry: map<TaskId, Task>
    var states: map<TaskId, TaskState>
    var current: Option<TaskId>

    ghost function View(): Manager
      reads this
    {
      Manager(queue, registry, states, current)
    }

    constructor ()
      ensures View() == EMPTY
    {
      queue, registry, states, current := [], map[], map[], None;
    }

    method MarkReady(id: TaskId)
      modifies this`queue
      ensures View() == TaskStates.MarkReady(old(View()), id)
    {
      if id !in queue { queue := queue + [id]; }
    }

    method FetchNextTask() returns (next: Option<TaskId>)
      modifies this`queue
      ensures old(queue) == [] ==> next == None && queue == []
      ensures old(queue) != [] ==> next.Some? && old(queue) == [next.value] + queue
    {
      if queue == [] { return None; }
      next := Some(queue[0]);
      queue := queue[1..];
    }

    /** Removes every occurrence of `id`, keeping the order of the others. */
    method Retain(id: TaskId)
      modifies this`queue
      ensures queue == Without(old(queue), id)
    {
      var kept, rest := [], queue;
      while rest != []
        invariant kept + Without(rest, id) == Without(old(queue), id)
      {
        if rest[0] != id { kept := kept + [rest[0]]; }
        rest := rest[1..];
      }
      queue := kept;
    }

    method SetTaskState(id: TaskId, st: TaskState)
      modifies this`queue, this`states
      ensures View() == SetState(old(View()), id, st)
    {
      var was := if id in states then states[id] else Dead;
      states := states[id := st];
      if st == Ready && was != Ready {
        queue := queue + [id];
      } else if st != Ready && was == Ready {
        Retain(id);
      }
    }

    /** `spawn` and `spawn_dynamic`: the stack, if there is memory for it, starts at `stack`. A new
        task is the current one's child, waits at the end of the queue and displaces nobody. */
    method Spawn(id: TaskId, pml4: nat, privilege: Privilege, stack: Option<nat>) returns (r: Option<TaskId>)
      modifies this`queue, this`states, this`registry
      ensures stack.None? ==> r.None? && View() == old(View())
      ensures stack.Some? ==> r == Some(id) && View() == Register(old(View()), id, NewTask(old(current), pml4, privilege, stack.value))
      ensures old(Coherent(View())) && id !in old(registry) ==> Coherent(View())
      ensures stack.Some? && old(Coherent(View())) && id !in old(registry) ==>
        queue == old(queue) + [id] && states == old(states)[id := Ready] && registry[id].parent == old(current) && registry - {id} == old(registry)
    {
      if Coherent(View()) && id !in registry && stack.Some? {
        RegisterCoherent(View(), id, NewTask(current, pml4, privilege, stack.value));
      }
      if stack.None? { return None; }
      registry := registry[id := NewTask(current, pml4, privilege, stack.value)];
      SetTaskState(id, Ready);
      return Some(id);
    }

    /** The current task, if any, is Blocked and not queued afterwards. */
    method BlockCurrentTask()
      modifies this`queue, this`states
      ensures View() == BlockCurrent(old(View()))
      ensures old(Coherent(View())) ==> Coherent(View())
      ensures old(Coherent(View())) && current.Some? ==> states == old(states)[current.value := Blocked] && current.value !in queue
    {
      if Coherent(View()) && current.Some? { SetStateCoherent(View(), current.value, Blocked); }
      if current.Some? { SetTaskState(current.value, Blocked); }
    }

    /** Parks the current task exactly if the child exists and is not Dead: only then is it Blocked
        and out of the queue. */
    method WaitForChild(child: TaskId) returns (parked: bool)
      modifies this`queue, this`states
      ensures (View(), parked) == TaskStates.WaitForChild(old(View()), child)
      ensures parked <==> child in old(states) && old(states)[child] != Dead
      ensures !parked ==> View() == old(View())
      ensures old(Coherent(View())) ==> Coherent(View())
      ensures parked && old(Coherent(View())) && current.Some? ==> states == old(states)[current.value := Blocked] && current.value !in queue
    {
      if child in states && states[child] != Dead {
        BlockCurrentTask();
        return true;
      }
      return false;
    }

    /** Nobody is current afterwards; who was is Dead and not queued. */
    method ExitCurrentTask()
      modifies this`queue, this`states, this`current
      ensures View() == ExitCurrent(old(View()))
      ensures current == None
      ensures old(Coherent(View())) ==> Coherent(View())
      ensures old(Coherent(View())) && old(current).Some? ==>
        states == old(states)[old(current).value := Dead] && old(current).value !in queue
    {
      if Coherent(View()) { ExitCoherent(View()); }
      if current.Some? {
        SetTaskState(current.value, Dead);
        current := None;
      }
    }

    /** A Blocked task becomes Ready at the end of the queue, where it was not before; any other is
        left alone. */
    method UnblockTask(id: TaskId)
      modifies this`queue, this`states
      ensures View() == Unblock(old(View()), id)
      ensures old(Coherent(View())) ==> Coherent(View())
      ensures old(Coherent(View())) && id in old(states) && old(states)[id] == Blocked ==>
        states[id] == Ready && queue == old(queue) + [id] && id !in old(queue)
      ensures !(id in old(states) && old(states)[id] == Blocked) ==> View() == old(View())
    {
      if Coherent(View()) && id in states { SetStateCoherent(View(), id, Ready); }
      if id in states && states[id] == Blocked { SetTaskState(id, Ready); }
    }

    /** Of a Dead task nothing is left; a parent that was Blocked is Ready and queued, once, and
        everybody else is as before. */
    method Kill(id: TaskId) returns (task: Option<Task>)
      modifies this`queue, this`states, this`registry
      ensures (View(), task) == TaskStates.Kill(old(View()), id)
      ensures registry == old(registry) - {id} && id !in states
      ensures old(Coherent(View())) && id in old(states) && old(states)[id] == Dead ==> Coherent(View())
      ensures old(Coherent(View())) && id in old(states) && old(states)[id] == Dead ==>
        forall x :: x in states ==> states[x] == if WaitsOn(old(View()), x, id) then Ready else old(states)[x]
      ensures old(Coherent(View())) && id in old(states) && old(states)[id] == Dead ==>
        forall x :: x in states && WaitsOn(old(View()), x, id) ==> x in queue && x !in old(queue)
    {
      if Coherent(View()) && id in states && states[id] == Dead {
        KillCoherent(View(), id);
        forall x | x in states && WaitsOn(View(), x, id) { KillWakesIff(View(), id, x); }
        Scheduling.KillOthers(View(), id);
      }
      Scheduling.KillLeavesNothing(View(), id);
      SetTaskState(id, Dead);
      if id in registry {
        var parent := registry[id].parent;
        if parent.Some? && parent.value in states && states[parent.value] == Blocked {
          SetTaskState(parent.value, Ready);
        }
      }
      task := if id in registry then Some(registry[id]) else None;
      states := states - {id};
      registry := registry - {id};
    }

    /** The reaper's look at the state table, in key order. */
    method ScanDead(nextId: TaskId) returns (dead: seq<TaskId>)
      ensures dead == DeadBelow(states, nextId)
    {
      dead := [];
      for id := 0 to nextId
        invariant dead == DeadBelow(states, id)
      {
        if id in states && states[id] == Dead { dead := dead + [id]; }
      }
    }
  }

  class Processor {
    var rsp: nat
    var cr3: nat
    var rsp0: nat
    var kernelRsp: nat
    var bootRsp: nat

    ghost function View(): Cpu
      reads this
    {
      Cpu(rsp, cr3, rsp0, kernelRsp, bootRsp)
    }
  }

  /** A sound system stays sound with this manager and processor, and every task stands where it
      stood. */
  ghost predicate Undisturbed(s: System, m: Manager, cpu: Cpu) {
    var t := s.(tm := m, cpu := cpu);
    Sound(s) ==> Sound(t) && forall c :: c in s.tm.registry ==> c in m.registry && Point(t, c) == Point(s, c)
  }

  lemma AfterTick(s: System)
    ensures Undisturbed(s, Schedule(s).tm, Schedule(s).cpu)
  {
    hide Schedule, Point, Coherent, Separate, OnCpu, Reaping, NotStranded, Housed;
    if Sound(s) {
      SwitchSound(s);
      ScheduleCoherent(s);
      forall c | c in s.tm.registry ensures c in Schedule(s).tm.registry && Point(Schedule(s), c) == Point(s, c) { TickPoint(s, c); }
    }
  }

  /** One timer tick; `rest` is the part of the system a tick does not concern. The system stays
      sound, and every task stands where it stood. */
  method ScheduleTick(tm: TaskManager, cpu: Processor, ghost rest: System)
    requires rest.tm == tm.View() && rest.cpu == cpu.View()
    modifies tm, cpu
    ensures tm.View() == Schedule(rest).tm && cpu.View() == Schedule(rest).cpu
    ensures Undisturbed(rest, tm.View(), cpu.View())
  {
    AfterTick(rest);
    hide Undisturbed;
    var before := tm.current;
    var nextCr3, load := None, None;
    if before.Some? {
      var state := if before.value in tm.states then tm.states[before.value] else Ready;
      if state == Running || state == Ready { tm.MarkReady(before.value); }
    }
    assert tm.View() == Requeue(rest.tm);
    var next := tm.FetchNextTask();
    if next.Some? && next != before {
      tm.current := next;
      if (before.Some? ==> before.value in tm.registry) && next.value in tm.registry {
        var t := tm.registry[next.value];
        if t.privilege == UserMode { cpu.rsp0 := t.stackEnd; }
        nextCr3, load := Some(t.pml4), Some(t.rsp);
      }
    }
    assert tm.View() == Dispatch(rest.tm).0;
    if tm.current.Some? && tm.current.value in tm.registry {
      cpu.kernelRsp := tm.registry[tm.current.value].stackEnd;
    }
    if nextCr3.Some? && cpu.cr3 != nextCr3.value { cpu.cr3 := nextCr3.value; }
    if load.Some? {
      if before.Some? {
        tm.registry := tm.registry[before.value := tm.registry[before.value].(rsp := cpu.rsp)];
      } else {
        cpu.bootRsp := cpu.rsp;
      }
      cpu.rsp := load.value;
    }
  }
}
