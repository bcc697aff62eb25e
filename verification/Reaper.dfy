/** The reaper's loop over the Dead tasks it found (src/task/mod.rs): each is killed, and the
    address space of a user task is torn down. */
module Reaper {
  import opened Common
  import opened FrameState
  import opened PageTables
  import opened ReadyQueues
  import opened TaskStates
  import opened TaskManagers
  import opened Scheduling
  import opened World
  import opened AddressSpaces
  import opened Machines

  /** Some user task among `ids` lives in `space`. */
  ghost predicate Vacated(registry: map<TaskId, Task>, ids: seq<TaskId>, space: nat) {
    exists id :: id in ids && LivesIn(registry, id, space)
  }

  /** Every user task lives in one of the address spaces, and no two in the same one. */
  ghost predicate OwnSpaces(registry: map<TaskId, Task>, roots: seq<nat>) {
    && (forall id, space :: LivesIn(registry, id, space) ==> space in roots)
    && (forall a, b, space :: LivesIn(registry, a, space) && LivesIn(registry, b, space) ==> a == b)
  }

  lemma RootsDistinct(m: Memory, s: Frames, roots: seq<nat>, j: nat, k: nat)
    requires Consistent(m, s, roots) && j < |roots| && k < |roots| && j != k
    ensures roots[j] != roots[k]
  {
    hide Sub, Total, Refs, IsTable;
    Disjoint(m, s, roots, j, k, roots[j]);
  }

  /** Removing one address space removes it altogether and no other. */
  lemma WithoutMembers(m: Memory, s: Frames, roots: seq<nat>, k: nat, r: nat)
    requires Consistent(m, s, roots) && k < |roots|
    ensures r in AddressSpaces.Without(roots, k) <==> r in roots && r != roots[k]
  {
    hide Consistent;
    var rest := AddressSpaces.Without(roots, k);
    forall j | 0 <= j < |roots| && j != k ensures roots[j] != roots[k] && roots[j] in rest {
      RootsDistinct(m, s, roots, j, k);
      assert rest[if j < k then j else j - 1] == roots[j];
    }
  }

  /** In a sound system whose address spaces are the machine's, every user task has its own. */
  lemma SoundOwnSpaces(s: System, roots: seq<nat>)
    requires Sound(s) && forall p: nat :: p in roots <==> p in s.spaces
    ensures OwnSpaces(s.tm.registry, roots)
  {
    hide Coherent, OnCpu, Reaping, NotStranded, Resumable;
    forall a, b, space | LivesIn(s.tm.registry, a, space) && LivesIn(s.tm.registry, b, space) ensures a == b {
      assert a == b || Distinct(s.tm.registry[a], s.tm.registry[b]);
    }
  }

  /** Kills one task and, if it is a user task, tears down its address space and no other. What the
      call needs it keeps, so that other tasks may run between two kills. */
  method ReapOne(tm: TaskManager, mc: Machine, id: TaskId) returns (outcome: Outcome)
    requires mc.Valid() && OwnSpaces(tm.registry, mc.roots)
    modifies tm, mc`frames, mc`mem, mc`roots
    ensures outcome == Done && mc.Valid() && OwnSpaces(tm.registry, mc.roots)
    ensures tm.registry == old(tm.registry) - {id}
    ensures forall r :: r in mc.roots <==> r in old(mc.roots) && !LivesIn(old(tm.registry), id, r)
    ensures forall x: nat :: Outside(mc.mem, mc.frames, mc.roots, x) == old(Outside(mc.mem, mc.frames, mc.roots, x))
  {
    hide Consistent, Outside, AddressSpaces.Gone, Entries, TaskStates.Kill, Coherent;
    ghost var registry, roots := tm.registry, mc.roots;
    KillLeavesNothing(tm.View(), id);
    outcome := Done;
    var task := tm.Kill(id);
    if task.Some? && task.value.privilege == UserMode {
      var space := task.value.pml4;
      assert LivesIn(registry, id, space);
      ghost var k :| 0 <= k < |roots| && roots[k] == space;
      forall r ensures r in AddressSpaces.Without(roots, k) <==> r in roots && r != space {
        WithoutMembers(mc.mem, mc.frames, roots, k, r);
      }
      outcome := mc.DestroyUserAddressSpace(space, k);
    }
    forall x, space | LivesIn(tm.registry, x, space) ensures LivesIn(registry, x, space) && space in mc.roots {}
  }

  /** A whole pass: every task found Dead, one after the other. */
  method ReapAll(tm: TaskManager, mc: Machine, dead: seq<TaskId>) returns (outcome: Outcome)
    requires mc.Valid() && OwnSpaces(tm.registry, mc.roots)
    modifies tm, mc`frames, mc`mem, mc`roots
    ensures outcome == Done && mc.Valid() && OwnSpaces(tm.registry, mc.roots)
    ensures forall id :: id in tm.registry <==> id in old(tm.registry) && id !in dead
    ensures forall r :: r in mc.roots <==> r in old(mc.roots) && !Vacated(old(tm.registry), dead, r)
    ensures forall x: nat :: Outside(mc.mem, mc.frames, mc.roots, x) == old(Outside(mc.mem, mc.frames, mc.roots, x))
  {
    hide Consistent, Outside, OwnSpaces;
    ghost var registry, roots := tm.registry, mc.roots;
    outcome := Done;
    var i := 0;
    while i < |dead|
      invariant 0 <= i <= |dead| && outcome == Done && mc.Valid() && OwnSpaces(tm.registry, mc.roots)
      invariant forall id :: id in tm.registry <==> id in registry && id !in dead[..i]
      invariant forall id :: id in tm.registry ==> tm.registry[id] == registry[id]
      invariant forall r :: r in mc.roots <==> r in roots && !Vacated(registry, dead[..i], r)
      invariant forall x: nat :: Outside(mc.mem, mc.frames, mc.roots, x) == old(Outside(mc.mem, mc.frames, mc.roots, x))
    {
      assert dead[..i + 1] == dead[..i] + [dead[i]];
      VacatedStep(registry, dead, i);
      ghost var before := tm.registry;
      outcome := ReapOne(tm, mc, dead[i]);
      AlreadyGone(registry, before, dead, i);
      i := i + 1;
    }
    assert dead[..i] == dead;
  }

  /** A task listed twice lives nowhere the second time. */
  lemma AlreadyGone(registry: map<TaskId, Task>, now: map<TaskId, Task>, dead: seq<TaskId>, i: nat)
    requires i < |dead| && forall id :: id in now <==> id in registry && id !in dead[..i]
    requires forall id :: id in now ==> now[id] == registry[id]
    ensures forall r :: LivesIn(registry, dead[i], r) ==> LivesIn(now, dead[i], r) || Vacated(registry, dead[..i], r)
    ensures forall r :: LivesIn(now, dead[i], r) ==> LivesIn(registry, dead[i], r)
  {}

  lemma VacatedStep(registry: map<TaskId, Task>, dead: seq<TaskId>, i: nat)
    requires i < |dead|
    ensures forall r :: Vacated(registry, dead[..i + 1], r) <==> Vacated(registry, dead[..i], r) || LivesIn(registry, dead[i], r)
  {
    assert dead[..i + 1] == dead[..i] + [dead[i]];
    forall r | Vacated(registry, dead[..i], r) ensures Vacated(registry, dead[..i + 1], r) {
      var id :| id in dead[..i] && LivesIn(registry, id, r);
      assert id in dead[..i + 1];
    }
    forall r | LivesIn(registry, dead[i], r) ensures Vacated(registry, dead[..i + 1], r) {
      assert dead[i] in dead[..i + 1];
    }
  }
}
