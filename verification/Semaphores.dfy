/** Semaphore, task mutex and condition variable as a step system (src/core/sync.rs). Each
    atomic operation and each section with interrupts off is one step; any task may take the
    next one. */
module Semaphores {
  import opened Common

  type Tid = nat

  const U32 := 0x1_0000_0000

  /** Where a task is in `wait`: at the top of its loop, about to compare-exchange a value it
      read, about to enter the slow path, or halted after queueing itself on the semaphore or
      on the condition variable. */
  datatype Place = Outside | Top | Read(value: nat) | Slow | Parked | OnCondition

  /** `holders` has one entry per permit taken and not given back, `extra` counts signals by
      nobody holding a permit and `pending` those between their two halves. `woken` are the
      tasks a signal took from the queue that have not finished waiting, and `absorbed` counts
      signals that took an outdated entry instead. */
  datatype State = State(count: nat, queue: seq<Tid>, condition: seq<Tid>, places: map<Tid, Place>, blocked: set<Tid>,
                         holders: multiset<Tid>, extra: nat, pending: nat, woken: set<Tid>, absorbed: nat)

  datatype Step =
    | Enter(t: Tid)
    | Load(t: Tid)
    | CompareExchange(t: Tid)
    | SlowPath(t: Tid)
    | Resume(t: Tid)
    | SpuriousResume(t: Tid)
    | OtherWake(t: Tid)
    | Release(t: Tid)
    | ExtraSignal
    | Dequeue
    | ConditionWait(t: Tid)
    | NotifyOne
    | NotifyAll

  function At(s: State, t: Tid): Place {
    if t in s.places then s.places[t] else Outside
  }

  function Move(s: State, t: Tid, p: Place): State {
    s.(places := s.places[t := p])
  }

  function Acquire(s: State, t: Tid): State
    requires s.count > 0
  {
    Move(s, t, Outside).(count := s.count - 1, holders := s.holders + multiset{t}, woken := s.woken - {t})
  }

  /** `fetch_add(1)` on a 32-bit counter. */
  function Increment(s: State): State {
    s.(count := (s.count + 1) % U32)
  }

  /** The second half of a signal: the front of the queue, if any, is unblocked. */
  function TakeFront(s: State): State {
    if s.queue == [] then s
    else
      var t := s.queue[0];
      var a := s.(queue := s.queue[1..], blocked := s.blocked - {t});
      if At(s, t) == Parked && t in s.blocked then a.(woken := s.woken + {t}) else a.(absorbed := s.absorbed + 1)
  }

  function Enabled(s: State, step: Step): bool {
    match step
    case Enter(t) => At(s, t) == Outside
    case Load(t) => At(s, t) == Top
    case CompareExchange(t) => At(s, t).Read?
    case SlowPath(t) => At(s, t) == Slow
    case Resume(t) => (At(s, t) == Parked || At(s, t) == OnCondition) && t !in s.blocked
    case SpuriousResume(t) => (At(s, t) == Parked || At(s, t) == OnCondition) && t in s.blocked
    case OtherWake(t) => t in s.blocked
    case Release(t) => t in s.holders
    case ConditionWait(t) => t in s.holders && At(s, t) == Outside
    case Dequeue => s.pending > 0
    case ExtraSignal => true
    case NotifyOne => true
    case NotifyAll => true
  }

  function Apply(s: State, step: Step): State
    requires Enabled(s, step)
  {
    match step
    case Enter(t) => Move(s, t, Top)
    case Load(t) => Move(s, t, if s.count > 0 then Read(s.count) else Slow)
    case CompareExchange(t) =>
      if s.count == At(s, t).value && s.count > 0 then Acquire(s, t) else Move(s, t, Top)
    case SlowPath(t) =>
      if s.count > 0 then Acquire(s, t)
      else Move(s, t, Parked).(queue := s.queue + [t], blocked := s.blocked + {t}, woken := s.woken - {t})
    case Resume(t) => Move(s, t, Top)
    case SpuriousResume(t) => Move(s, t, Top)
    case OtherWake(t) => s.(blocked := s.blocked - {t})
    case Release(t) => Increment(s).(holders := s.holders - multiset{t}, pending := s.pending + 1)
    case ExtraSignal => Increment(s).(extra := s.extra + 1, pending := s.pending + 1)
    case Dequeue => TakeFront(s).(pending := s.pending - 1)
    case ConditionWait(t) =>
      TakeFront(Increment(Move(s, t, OnCondition).(condition := s.condition + [t], blocked := s.blocked + {t}, holders := s.holders - multiset{t})))
    case NotifyOne =>
      if s.condition == [] then s else s.(condition := s.condition[1..], blocked := s.blocked - {s.condition[0]})
    case NotifyAll => s.(condition := [], blocked := s.blocked - set t | t in s.condition)
  }

  // ------------------------------------------------------------------
  // Runs
  // ------------------------------------------------------------------

  function Initial(permits: nat): State {
    State(permits, [], [], map[], {}, multiset{}, 0, 0, {}, 0)
  }

  ghost predicate Admissible(s: State, steps: seq<Step>)
    decreases |steps|
  {
    steps != [] ==> Enabled(s, steps[0]) && Admissible(Apply(s, steps[0]), steps[1..])
  }

  ghost function Run(s: State, steps: seq<Step>): State
    requires Admissible(s, steps)
    decreases |steps|
  {
    if steps == [] then s else Run(Apply(s, steps[0]), steps[1..])
  }

  // ------------------------------------------------------------------
  // Permits are conserved
  // ------------------------------------------------------------------

  /** Permits available and taken add up to those ever supplied: modulo the width of the counter
      always, and exactly while the supply fits it. */
  ghost predicate Conserved(s: State, permits: nat) {
    && (s.count + |s.holders|) % U32 == (permits + s.extra) % U32
    && (permits + s.extra < U32 ==> s.count + |s.holders| == permits + s.extra)
  }

  lemma TakeFrontKeeps(s: State)
    ensures TakeFront(s).count == s.count && TakeFront(s).holders == s.holders && TakeFront(s).extra == s.extra
  {}

  /** Taking moves a permit from the counter to a holder. */
  lemma AcquireConserves(s: State, t: Tid, permits: nat)
    requires Conserved(s, permits) && s.count > 0
    ensures Conserved(Acquire(s, t), permits)
  {}

  /** Giving back moves it the other way; the counter cannot wrap while the supply fits. */
  lemma ReleaseConserves(s: State, n: State, t: Tid, permits: nat)
    requires Conserved(s, permits) && t in s.holders
    requires n.count == (s.count + 1) % U32 && n.holders == s.holders - multiset{t} && n.extra == s.extra
    ensures Conserved(n, permits)
  {
    assert s.holders == n.holders + multiset{t};
    assert |s.holders| == |n.holders| + 1;
    Shift(s.count + 1, |n.holders|);
  }

  lemma StepConserves(s: State, step: Step, permits: nat)
    requires Enabled(s, step) && Conserved(s, permits)
    ensures Conserved(Apply(s, step), permits)
  {
    hide At, TakeFront, Acquire, Conserved;
    match step
    case Release(t) => ReleaseConserves(s, Apply(s, step), t, permits);
    case ConditionWait(t) =>
      var a := Increment(Move(s, t, OnCondition).(condition := s.condition + [t], blocked := s.blocked + {t}, holders := s.holders - multiset{t}));
      TakeFrontKeeps(a);
      ReleaseConserves(s, Apply(s, step), t, permits);
    case CompareExchange(t) => if s.count > 0 { AcquireConserves(s, t, permits); } SupplyKept(s, Move(s, t, Top), permits);
    case SlowPath(t) => if s.count > 0 { AcquireConserves(s, t, permits); } else { SupplyKept(s, Apply(s, step), permits); }
    case Dequeue => TakeFrontKeeps(s); SupplyKept(s, Apply(s, step), permits);
    case ExtraSignal => ExtraConserves(s, permits);
    case _ => SameSupply(s, step); SupplyKept(s, Apply(s, step), permits);
  }

  lemma ExtraConserves(s: State, permits: nat)
    requires Conserved(s, permits)
    ensures Conserved(Apply(s, ExtraSignal), permits)
  {
    OneMore(s.count, |s.holders|, permits + s.extra);
  }

  lemma OneMore(count: nat, held: nat, supply: nat)
    requires (count + held) % U32 == supply % U32
    ensures ((count + 1) % U32 + held) % U32 == (supply + 1) % U32
  {
    Shift(count + 1, held);
    assert (count + held + 1) % U32 == (supply + 1) % U32;
  }

  lemma Shift(a: nat, b: nat)
    ensures (a % U32 + b) % U32 == (a + b) % U32
  {}

  lemma SupplyKept(s: State, n: State, permits: nat)
    requires Conserved(s, permits) && n.count == s.count && n.holders == s.holders && n.extra == s.extra
    ensures Conserved(n, permits)
  {}

  predicate Neutral(step: Step) {
    step.Enter? || step.Load? || step.Resume? || step.SpuriousResume? || step.OtherWake? || step.NotifyOne? || step.NotifyAll?
  }

  lemma SameSupply(s: State, step: Step)
    requires Enabled(s, step) && Neutral(step)
    ensures Apply(s, step).count == s.count && Apply(s, step).holders == s.holders && Apply(s, step).extra == s.extra
  {}

  lemma {:induction false} RunConserves(s: State, steps: seq<Step>, permits: nat)
    requires Conserved(s, permits) && Admissible(s, steps)
    ensures Conserved(Run(s, steps), permits)
    decreases |steps|
  {
    hide Enabled, Apply, Conserved;
    if steps != [] {
      StepConserves(s, steps[0], permits);
      RunConserves(Apply(s, steps[0]), steps[1..], permits);
    }
  }

  /** Semaphore safety on every interleaving, spurious resumes, barging and condition waits
      included, while the supply fits the counter. */
  lemma PermitsConserved(permits: nat, steps: seq<Step>)
    requires Admissible(Initial(permits), steps)
    ensures Conserved(Run(Initial(permits), steps), permits)
  {
    RunConserves(Initial(permits), steps, permits);
  }

  ghost predicate GuardsOnly(steps: seq<Step>) {
    forall i :: 0 <= i < |steps| ==> steps[i] != ExtraSignal
  }

  lemma {:induction false} NoExtra(s: State, steps: seq<Step>)
    requires Admissible(s, steps) && GuardsOnly(steps)
    ensures Run(s, steps).extra == s.extra
    decreases |steps|
  {
    if steps != [] {
      assert steps[0] != ExtraSignal;
      NoExtra(Apply(s, steps[0]), steps[1..]);
    }
  }

  /** A task mutex: at most one guard exists at any time, and the count stays at most one. */
  lemma MutualExclusion(steps: seq<Step>, a: Tid, b: Tid)
    requires Admissible(Initial(1), steps) && GuardsOnly(steps)
    ensures var s := Run(Initial(1), steps);
      s.count <= 1 && |s.holders| <= 1 && (s.count == 1 <==> s.holders == multiset{}) && (a in s.holders && b in s.holders ==> a == b)
  {
    var s := Run(Initial(1), steps);
    PermitsConserved(1, steps);
    NoExtra(Initial(1), steps);
    assert a in s.holders && b in s.holders && a != b ==> |s.holders - multiset{a} - multiset{b}| == |s.holders| - 2;
  }

  // ------------------------------------------------------------------
  // Waiting is paid for
  // ------------------------------------------------------------------

  /** The only way out of `wait`, after a condition wait too, is with a permit. */
  lemma LeavesWithPermit(s: State, step: Step, t: Tid)
    requires Enabled(s, step) && At(s, t) != Outside && At(Apply(s, step), t) == Outside
    ensures s.count > 0 && Apply(s, step).count == s.count - 1 && Apply(s, step).holders == s.holders + multiset{t}
  {
    hide TakeFront;
    if step.Dequeue? { TakeFrontPlaces(s); }
    if step.ConditionWait? { ConditionWaitEffect(s, step.t); }
  }

  lemma TakeFrontPlaces(s: State)
    ensures TakeFront(s).places == s.places
  {}

  /** A condition wait gives one permit back and is inside from then on. */
  lemma ConditionWaitEffect(s: State, t: Tid)
    requires Enabled(s, ConditionWait(t))
    ensures var n := Apply(s, ConditionWait(t));
      n.places == s.places[t := OnCondition] && n.holders == s.holders - multiset{t} && n.condition == s.condition + [t]
  {}

  /** Left alone, a task at the top of its loop needs two more steps: with a permit about it takes
      one and is out, without one it sleeps in the queue. */
  lemma Uncontended(s: State, t: Tid)
    requires At(s, t) == Top
    ensures Enabled(s, Load(t))
    ensures var a := Apply(s, Load(t));
      if s.count > 0 then Enabled(a, CompareExchange(t)) && At(Apply(a, CompareExchange(t)), t) == Outside
      else Enabled(a, SlowPath(t)) && var n := Apply(a, SlowPath(t)); At(n, t) == Parked && t in n.blocked && n.queue == s.queue + [t]
  {}

  /** Calls of `wait` by `t` that were made. */
  function Entries(steps: seq<Step>, t: Tid): nat
    decreases |steps|
  {
    if steps == [] then 0 else (if steps[0] == Enter(t) then 1 else 0) + Entries(steps[1..], t)
  }

  /** Permits `t` gave back for good. */
  function Releases(steps: seq<Step>, t: Tid): nat
    decreases |steps|
  {
    if steps == [] then 0 else (if steps[0] == Release(t) then 1 else 0) + Releases(steps[1..], t)
  }

  /** The permits a task holds, and the one it is waiting for. */
  function Stake(s: State, t: Tid): nat {
    s.holders[t] + if At(s, t) == Outside then 0 else 1
  }

  lemma AcquireStake(s: State, t: Tid, u: Tid)
    requires s.count > 0 && At(s, t) != Outside
    ensures Stake(Acquire(s, t), u) == Stake(s, u)
  {}

  lemma ReleaseStake(s: State, n: State, t: Tid, u: Tid)
    requires t in s.holders && n.holders == s.holders - multiset{t} && n.places == s.places
    ensures Stake(n, u) == Stake(s, u) - if u == t then 1 else 0
  {}

  lemma WaitStake(s: State, n: State, t: Tid, u: Tid)
    requires t in s.holders && At(s, t) == Outside && n.holders == s.holders - multiset{t} && n.places == s.places[t := OnCondition]
    ensures Stake(n, u) == Stake(s, u)
  {}

  lemma MoveStake(s: State, n: State, t: Tid, u: Tid)
    requires n.holders == s.holders && n.places == s.places[t := At(n, t)] && At(n, t) != Outside
    ensures Stake(n, u) == Stake(s, u) + if u == t && At(s, t) == Outside then 1 else 0
  {}

  lemma SameStake(s: State, n: State, u: Tid)
    requires n.holders == s.holders && n.places == s.places
    ensures Stake(n, u) == Stake(s, u)
  {}

  lemma StepStake(s: State, step: Step, t: Tid)
    requires Enabled(s, step)
    ensures Stake(Apply(s, step), t) == Stake(s, t) + (if step == Enter(t) then 1 else 0) - (if step == Release(t) then 1 else 0)
  {
    hide TakeFront, Acquire, Stake;
    var n := Apply(s, step);
    match step
    case Enter(u) => MoveStake(s, n, u, t);
    case Load(u) => MoveStake(s, n, u, t);
    case Resume(u) => MoveStake(s, n, u, t);
    case SpuriousResume(u) => MoveStake(s, n, u, t);
    case CompareExchange(u) => if s.count > 0 { AcquireStake(s, u, t); } MoveStake(s, Move(s, u, Top), u, t);
    case SlowPath(u) => if s.count > 0 { AcquireStake(s, u, t); } else { MoveStake(s, n, u, t); }
    case Release(u) => ReleaseStake(s, n, u, t);
    case ConditionWait(u) => ConditionWaitEffect(s, u); WaitStake(s, n, u, t);
    case Dequeue => TakeFrontPlaces(s); TakeFrontKeeps(s); SameStake(s, n, t);
    case _ => SameStake(s, n, t);
  }

  /** On every run: what a task holds, plus the one it waits for, is what it asked for less what it
      gave back. So every call of `wait` that returned took a permit. */
  lemma {:induction false} RunStake(s: State, steps: seq<Step>, t: Tid)
    requires Admissible(s, steps)
    ensures Stake(Run(s, steps), t) == Stake(s, t) + Entries(steps, t) - Releases(steps, t)
    decreases |steps|
  {
    hide Enabled, Apply, Stake;
    if steps != [] {
      StepStake(s, steps[0], t);
      RunStake(Apply(s, steps[0]), steps[1..], t);
    }
  }

  /** A condition wait returns with the mutex: once outside again, the task holds as much as before
      the wait, up to what it took and released since. */
  lemma GuardReacquired(s: State, steps: seq<Step>, t: Tid)
    requires Enabled(s, ConditionWait(t)) && Admissible(Apply(s, ConditionWait(t)), steps)
    ensures var n := Run(Apply(s, ConditionWait(t)), steps);
      At(n, t) == Outside ==> n.holders[t] == s.holders[t] + Entries(steps, t) - Releases(steps, t)
  {
    hide Enabled, Apply;
    StepStake(s, ConditionWait(t), t);
    RunStake(Apply(s, ConditionWait(t)), steps, t);
    assert At(s, t) == Outside by { OutsideBefore(s, t); }
  }

  lemma OutsideBefore(s: State, t: Tid)
    requires Enabled(s, ConditionWait(t))
    ensures At(s, t) == Outside
  {}

  // ------------------------------------------------------------------
  // Wake-ups
  // ------------------------------------------------------------------

  /** A woken task is on its way through `wait`. */
  ghost predicate Contending(s: State, t: Tid) {
    At(s, t) != Outside && At(s, t) != OnCondition && !(At(s, t) == Parked && t in s.blocked)
  }

  /** A permit lying around while tasks queue is somebody's business: a woken task that will
      look again, a signal about to take from the queue, or a signal spent on an outdated entry. */
  ghost predicate Accounted(s: State) {
    && (forall t :: t in s.woken ==> Contending(s, t))
    && (s.queue != [] ==> s.count <= |s.woken| + s.pending + s.absorbed)
  }

  lemma TakeFrontAccounted(s: State)
    requires forall t :: t in s.woken ==> Contending(s, t)
    requires s.queue != [] ==> s.count <= |s.woken| + s.pending + s.absorbed + 1
    ensures Accounted(TakeFront(s))
  {
    var n := TakeFront(s);
    forall t | t in n.woken ensures Contending(n, t) {
      assert t in s.woken ==> Contending(s, t);
    }
    assert s.queue != [] && At(s, s.queue[0]) == Parked && s.queue[0] in s.blocked ==> !Contending(s, s.queue[0]);
  }

  lemma MoveAccounted(s: State, t: Tid, p: Place)
    requires Accounted(s) && (p == Top || p == Slow || p.Read?)
    ensures Accounted(Move(s, t, p))
  {
    forall x | x in s.woken ensures Contending(Move(s, t, p), x) { assert Contending(s, x); }
  }

  lemma LeaveAccounted(s: State, n: State, t: Tid)
    requires Accounted(s) && n.woken == s.woken - {t} && (forall x :: x != t ==> At(n, x) == At(s, x) && (x in n.blocked ==> x in s.blocked))
    requires n.pending == s.pending && n.absorbed == s.absorbed && (n.count == 0 || (n.queue == s.queue && n.count == s.count - 1))
    ensures Accounted(n)
  {
    forall x | x in n.woken ensures Contending(n, x) { assert Contending(s, x); }
    assert t in s.woken ==> |s.woken - {t}| == |s.woken| - 1;
    assert t !in s.woken ==> s.woken - {t} == s.woken;
  }

  lemma AcquireAccounted(s: State, t: Tid)
    requires Accounted(s) && s.count > 0
    ensures Accounted(Acquire(s, t))
  {
    LeaveAccounted(s, Acquire(s, t), t);
  }

  lemma SameAccounted(s: State, n: State)
    requires Accounted(s) && n.woken == s.woken && n.places == s.places && n.blocked <= s.blocked && n.queue == s.queue
    requires n.count <= s.count + (n.pending - s.pending) && n.absorbed == s.absorbed
    ensures Accounted(n)
  {
    forall x | x in n.woken ensures Contending(n, x) { assert Contending(s, x); }
  }

  lemma ConditionWaitAccounted(s: State, t: Tid)
    requires Accounted(s) && Enabled(s, ConditionWait(t))
    ensures Accounted(Apply(s, ConditionWait(t)))
  {
    hide TakeFront;
    var a := Increment(Move(s, t, OnCondition).(condition := s.condition + [t], blocked := s.blocked + {t}, holders := s.holders - multiset{t}));
    forall x | x in s.woken ensures Contending(a, x) { assert Contending(s, x) && x != t; }
    TakeFrontAccounted(a);
  }

  lemma StepAccounted(s: State, step: Step)
    requires Accounted(s) && Enabled(s, step)
    ensures Accounted(Apply(s, step))
  {
    hide Accounted, TakeFront, Contending, Acquire;
    match step
    case Dequeue => DequeueAccounted(s);
    case ConditionWait(t) => ConditionWaitAccounted(s, t);
    case CompareExchange(t) =>
      if s.count == At(s, t).value && s.count > 0 { AcquireAccounted(s, t); } else { MoveAccounted(s, t, Top); }
    case SlowPath(t) => if s.count > 0 { AcquireAccounted(s, t); } else { LeaveAccounted(s, Apply(s, step), t); }
    case Enter(t) => MoveAccounted(s, t, Top);
    case Load(t) => MoveAccounted(s, t, if s.count > 0 then Read(s.count) else Slow);
    case Resume(t) => MoveAccounted(s, t, Top);
    case SpuriousResume(t) => MoveAccounted(s, t, Top);
    case OtherWake(_) => SameAccounted(s, Apply(s, step));
    case Release(_) => SameAccounted(s, Apply(s, step));
    case ExtraSignal => SameAccounted(s, Apply(s, step));
    case NotifyOne => SameAccounted(s, Apply(s, step));
    case NotifyAll => SameAccounted(s, Apply(s, step));
  }

  lemma DequeueAccounted(s: State)
    requires Accounted(s) && s.pending > 0
    ensures Accounted(TakeFront(s).(pending := s.pending - 1))
  {
    var a := s.(pending := s.pending - 1);
    forall x | x in a.woken ensures Contending(a, x) { assert Contending(s, x); }
    TakeFrontAccounted(a);
    assert TakeFront(a) == TakeFront(s).(pending := s.pending - 1);
  }

  /** On every run, whatever wakes the tasks. */
  lemma {:induction false} RunAccounted(s: State, steps: seq<Step>)
    requires Accounted(s) && Admissible(s, steps)
    ensures Accounted(Run(s, steps))
    decreases |steps|
  {
    hide Enabled, Apply, Accounted;
    if steps != [] {
      StepAccounted(s, steps[0]);
      RunAccounted(Apply(s, steps[0]), steps[1..]);
    }
  }

  // Without spurious wake-ups every queue entry is up to date.

  predicate NoRepeats(q: seq<Tid>) {
    forall i, j :: 0 <= i < j < |q| ==> q[i] != q[j]
  }

  /** Every parked task is in its queue, once, every queue entry is a parked task, and nobody else
      is Blocked. */
  ghost predicate Orderly(s: State) {
    && s.absorbed == 0 && NoRepeats(s.queue) && NoRepeats(s.condition)
    && (forall t :: t in s.queue <==> At(s, t) == Parked && t in s.blocked)
    && (forall t :: t in s.condition <==> At(s, t) == OnCondition && t in s.blocked)
    && (forall t :: t in s.blocked ==> At(s, t) == Parked || At(s, t) == OnCondition)
  }

  predicate Expected(step: Step) {
    !step.SpuriousResume? && !step.OtherWake?
  }

  lemma TailMembers(q: seq<Tid>, t: Tid)
    requires q != [] && NoRepeats(q)
    ensures NoRepeats(q[1..]) && (t in q[1..] <==> t in q && t != q[0])
  {
    assert q == [q[0]] + q[1..];
  }

  lemma TakeFrontOrderly(s: State)
    requires Orderly(s)
    ensures Orderly(TakeFront(s))
  {
    hide NoRepeats;
    if s.queue != [] {
      TailMembers(s.queue, 0);
      forall t ensures t in s.queue[1..] <==> t in s.queue && t != s.queue[0] { TailMembers(s.queue, t); }
      assert s.queue[0] in s.queue;
    }
  }

  /** A task that is not parked may move about outside the parked places. */
  lemma MoveOrderly(s: State, n: State, t: Tid)
    requires Orderly(s) && t !in s.queue && t !in s.condition
    requires n.places == s.places[t := At(n, t)] && At(n, t) != Parked && At(n, t) != OnCondition
    requires n.queue == s.queue && n.condition == s.condition && n.blocked == s.blocked && n.absorbed == 0
    ensures Orderly(n)
  {
    hide NoRepeats;
  }

  lemma ParkOrderly(s: State, t: Tid)
    requires Orderly(s) && At(s, t) == Slow && s.count == 0
    ensures Orderly(Apply(s, SlowPath(t)))
  {
    var n := Apply(s, SlowPath(t));
    assert t !in s.queue;
    forall x ensures x in n.queue <==> At(n, x) == Parked && x in n.blocked {}
  }

  lemma ConditionWaitOrderly(s: State, t: Tid)
    requires Orderly(s) && Enabled(s, ConditionWait(t))
    ensures Orderly(Apply(s, ConditionWait(t)))
  {
    hide TakeFront;
    var a := Increment(Move(s, t, OnCondition).(condition := s.condition + [t], blocked := s.blocked + {t}, holders := s.holders - multiset{t}));
    assert t !in s.condition;
    forall x ensures x in a.condition <==> At(a, x) == OnCondition && x in a.blocked {}
    TakeFrontOrderly(a);
  }

  lemma NotifyOrderly(s: State)
    requires Orderly(s)
    ensures Orderly(Apply(s, NotifyOne)) && Orderly(Apply(s, NotifyAll))
  {
    if s.condition != [] {
      TailMembers(s.condition, 0);
      forall t ensures t in s.condition[1..] <==> t in s.condition && t != s.condition[0] { TailMembers(s.condition, t); }
      assert s.condition[0] in s.condition;
    }
  }

  lemma StepOrderly(s: State, step: Step)
    requires Orderly(s) && Enabled(s, step) && Expected(step)
    ensures Orderly(Apply(s, step))
  {
    hide TakeFront, NoRepeats;
    match step
    case Dequeue => TakeFrontOrderly(s); SameOrderly(TakeFront(s), Apply(s, step));
    case ConditionWait(t) => ConditionWaitOrderly(s, t);
    case SlowPath(t) => if s.count == 0 { ParkOrderly(s, t); } else { MoveOrderly(s, Apply(s, step), t); }
    case CompareExchange(t) => MoveOrderly(s, Apply(s, step), t);
    case Enter(t) => MoveOrderly(s, Apply(s, step), t);
    case Load(t) => MoveOrderly(s, Apply(s, step), t);
    case Resume(t) => MoveOrderly(s, Apply(s, step), t);
    case Release(_) => SameOrderly(s, Apply(s, step));
    case ExtraSignal => SameOrderly(s, Apply(s, step));
    case NotifyOne => NotifyOrderly(s);
    case NotifyAll => NotifyOrderly(s);
  }

  lemma SameOrderly(s: State, n: State)
    requires Orderly(s) && n.places == s.places && n.queue == s.queue && n.condition == s.condition && n.blocked == s.blocked
    requires n.absorbed == s.absorbed
    ensures Orderly(n)
  {
    hide NoRepeats;
  }

  lemma {:induction false} RunOrderly(s: State, steps: seq<Step>)
    requires Orderly(s) && Admissible(s, steps) && forall i :: 0 <= i < |steps| ==> Expected(steps[i])
    ensures Orderly(Run(s, steps))
    decreases |steps|
  {
    hide Enabled, Apply, Orderly, Expected;
    if steps != [] {
      StepOrderly(s, steps[0]);
      RunOrderly(Apply(s, steps[0]), steps[1..]);
    }
  }

  /** Nothing is under way: no signal is half done and no woken task has yet to look again. */
  ghost predicate AtRest(s: State) {
    s.woken == {} && s.pending == 0
  }

  /** On every run at all, a permit left lying at rest while tasks queue was signalled to an
      outdated entry. */
  lemma LostOnlyToOutdated(permits: nat, steps: seq<Step>)
    requires Admissible(Initial(permits), steps)
    ensures var s := Run(Initial(permits), steps); AtRest(s) && s.queue != [] ==> s.count <= s.absorbed
  {
    RunAccounted(Initial(permits), steps);
  }

  /** No wake-up is lost while tasks resume only because they were signalled or notified: at
      rest with a permit to take, nobody is parked. */
  lemma NoLostWakeup(permits: nat, steps: seq<Step>, t: Tid)
    requires Admissible(Initial(permits), steps) && forall i :: 0 <= i < |steps| ==> Expected(steps[i])
    ensures var s := Run(Initial(permits), steps);
      && (s.queue != [] ==> s.count <= |s.woken| + s.pending)
      && (AtRest(s) && s.count > 0 ==> !(At(s, t) == Parked && t in s.blocked))
  {
    RunAccounted(Initial(permits), steps);
    RunOrderly(Initial(permits), steps);
  }

  /** Under the same hypothesis nobody leaves `wait` asleep: a task outside it, in particular one
      that holds a permit, is not Blocked. */
  lemma HolderAwake(permits: nat, steps: seq<Step>, t: Tid)
    requires Admissible(Initial(permits), steps) && forall i :: 0 <= i < |steps| ==> Expected(steps[i])
    ensures var s := Run(Initial(permits), steps); At(s, t) == Outside ==> t !in s.blocked
  {
    RunOrderly(Initial(permits), steps);
  }

  // ------------------------------------------------------------------
  // Order of wake-ups
  // ------------------------------------------------------------------

  /** Steps that take the front of the semaphore's queue. */
  predicate Takes(step: Step) {
    step.Dequeue? || step.ConditionWait?
  }

  predicate Notifies(step: Step) {
    step.NotifyOne? || step.NotifyAll?
  }

  function Taken(steps: seq<Step>): nat {
    if steps == [] then 0 else (if Takes(steps[0]) then 1 else 0) + Taken(steps[1..])
  }

  function Notifications(steps: seq<Step>): nat {
    if steps == [] then 0 else (if Notifies(steps[0]) then 1 else 0) + Notifications(steps[1..])
  }

  lemma StepQueue(s: State, step: Step, k: nat)
    requires Enabled(s, step) && k < |s.queue|
    ensures var n := Apply(s, step);
      if Takes(step) && k == 0 then s.queue[0] !in n.blocked
      else var j := if Takes(step) then k - 1 else k; j < |n.queue| && n.queue[j] == s.queue[k]
  {
    hide TakeFront, At, Acquire;
    match step
    case Dequeue => TakeFrontQueue(s);
    case ConditionWait(t) =>
      TakeFrontQueue(Increment(Move(s, t, OnCondition).(condition := s.condition + [t], blocked := s.blocked + {t}, holders := s.holders - multiset{t})));
    case CompareExchange(t) => if s.count > 0 { AcquireQueue(s, t); }
    case SlowPath(t) => if s.count > 0 { AcquireQueue(s, t); }
    case _ =>
  }

  lemma TakeFrontQueue(s: State)
    requires s.queue != []
    ensures TakeFront(s).queue == s.queue[1..] && s.queue[0] !in TakeFront(s).blocked
  {}

  lemma AcquireQueue(s: State, t: Tid)
    requires s.count > 0
    ensures Acquire(s, t).queue == s.queue
  {}

  lemma StepCondition(s: State, step: Step, k: nat)
    requires Enabled(s, step) && k < |s.condition|
    ensures var n := Apply(s, step);
      if Notifies(step) && (k == 0 || step.NotifyAll?) then s.condition[k] !in n.blocked
      else var j := if Notifies(step) then k - 1 else k; j < |n.condition| && n.condition[j] == s.condition[k]
  {
    if step.ConditionWait? { ConditionWaitEffect(s, step.t); }
  }

  /** Prefixes of runs are runs. */
  lemma Longer(s: State, steps: seq<Step>, n: nat)
    requires steps != [] && Enabled(s, steps[0]) && n < |steps| && Admissible(Apply(s, steps[0]), steps[1..][..n])
    ensures Admissible(s, steps[..n + 1]) && Run(s, steps[..n + 1]) == Run(Apply(s, steps[0]), steps[1..][..n])
  {
    hide Enabled, Apply;
    assert steps[..n + 1][1..] == steps[1..][..n];
  }

  /** First come, first served: by the time of `k + 1` notifications the task `k` places from the
      front of a condition variable has been unblocked, on every run. */
  lemma {:induction false} NotifiedInTurn(s: State, steps: seq<Step>, k: nat) returns (n: nat)
    requires Admissible(s, steps) && k < |s.condition| && Notifications(steps) > k
    ensures n <= |steps| && Admissible(s, steps[..n]) && s.condition[k] !in Run(s, steps[..n]).blocked
    decreases |steps|
  {
    hide Enabled, Apply;
    StepCondition(s, steps[0], k);
    if Notifies(steps[0]) && (k == 0 || steps[0].NotifyAll?) {
      n := 0;
    } else {
      n := NotifiedInTurn(Apply(s, steps[0]), steps[1..], if Notifies(steps[0]) then k - 1 else k);
    }
    Longer(s, steps, n);
    n := n + 1;
  }

  /** So with the semaphore itself, where signals and condition waits take from the queue. */
  lemma {:induction false} SignalledInTurn(s: State, steps: seq<Step>, k: nat) returns (n: nat)
    requires Admissible(s, steps) && k < |s.queue| && Taken(steps) > k
    ensures n <= |steps| && Admissible(s, steps[..n]) && s.queue[k] !in Run(s, steps[..n]).blocked
    decreases |steps|
  {
    hide Enabled, Apply;
    StepQueue(s, steps[0], k);
    if Takes(steps[0]) && k == 0 {
      n := 0;
    } else {
      n := SignalledInTurn(Apply(s, steps[0]), steps[1..], if Takes(steps[0]) then k - 1 else k);
    }
    Longer(s, steps, n);
    n := n + 1;
  }

  // The hypothesis of `NoLostWakeup` and `HolderAwake` cannot be dropped.

  lemma {:induction false} Extend(s: State, steps: seq<Step>, step: Step)
    requires Admissible(s, steps) && Enabled(Run(s, steps), step)
    ensures Admissible(s, steps + [step]) && Run(s, steps + [step]) == Apply(Run(s, steps), step)
    decreases |steps|
  {
    hide Enabled, Apply;
    if steps == [] {
      assert Admissible(Apply(s, step), []);
    } else {
      Extend(Apply(s, steps[0]), steps[1..], step);
      assert (steps + [step])[1..] == steps[1..] + [step];
    }
  }

  lemma Then(s: State, steps: seq<Step>, step: Step) returns (r: seq<Step>)
    requires Admissible(s, steps) && Enabled(Run(s, steps), step)
    ensures r == steps + [step] && Admissible(s, r) && Run(s, r) == Apply(Run(s, steps), step)
  {
    Extend(s, steps, step);
    return steps + [step];
  }

  /** Of the two unexpected steps only the one chosen occurs. */
  ghost predicate Without(steps: seq<Step>, unblocked: bool) {
    forall i :: 0 <= i < |steps| ==> !(if unblocked then steps[i].SpuriousResume? else steps[i].OtherWake?)
  }

  /** Task 1 waits in the queue. */
  lemma QueuedOnce() returns (steps: seq<Step>)
    ensures Admissible(Initial(0), steps) && Without(steps, true) && Without(steps, false)
    ensures Run(Initial(0), steps) == State(0, [1], [], map[1 := Parked], {1}, multiset{}, 0, 0, {}, 0)
  {
    var s := Initial(0);
    steps := [];
    assert Run(s, steps) == s;
    hide Run, Admissible;
    steps := Then(s, steps, Enter(1));
    steps := Then(s, steps, Load(1));
    steps := Then(s, steps, SlowPath(1));
  }

  /** One spurious resume is enough: the task takes the permit and leaves `wait` still Blocked, so
      the scheduler will not run it again. */
  lemma SleepingHolder() returns (steps: seq<Step>)
    ensures Admissible(Initial(0), steps)
    ensures var s := Run(Initial(0), steps); 1 in s.holders && At(s, 1) == Outside && 1 in s.blocked
  {
    hide Run, Admissible;
    var s := Initial(0);
    steps := QueuedOnce();
    steps := Then(s, steps, SpuriousResume(1));
    steps := Then(s, steps, ExtraSignal);
    steps := Then(s, steps, Load(1));
    steps := Then(s, steps, CompareExchange(1));
  }

  /** It resumes without having been signalled, spuriously or because something else unblocked
      it, and queues itself a second time. */
  lemma Duplicated(unblocked: bool) returns (steps: seq<Step>)
    ensures Admissible(Initial(0), steps) && Without(steps, unblocked)
    ensures Run(Initial(0), steps) == State(0, [1, 1], [], map[1 := Parked], {1}, multiset{}, 0, 0, {}, 0)
  {
    hide Run, Admissible;
    var s := Initial(0);
    steps := QueuedOnce();
    if unblocked {
      steps := Then(s, steps, OtherWake(1));
      steps := Then(s, steps, Resume(1));
    } else {
      steps := Then(s, steps, SpuriousResume(1));
    }
    assert Run(s, steps).places == map[1 := Top] && Run(s, steps).queue == [1];
    steps := Then(s, steps, Load(1));
    steps := Then(s, steps, SlowPath(1));
  }

  /** Task 2 queues up behind it. */
  lemma Behind(unblocked: bool) returns (steps: seq<Step>)
    ensures Admissible(Initial(0), steps) && Without(steps, unblocked)
    ensures Run(Initial(0), steps) == State(0, [1, 1, 2], [], map[1 := Parked, 2 := Parked], {1, 2}, multiset{}, 0, 0, {}, 0)
  {
    hide Run, Admissible;
    var s := Initial(0);
    steps := Duplicated(unblocked);
    steps := Then(s, steps, Enter(2));
    steps := Then(s, steps, Load(2));
    steps := Then(s, steps, SlowPath(2));
  }

  lemma Raised(unblocked: bool) returns (steps: seq<Step>)
    ensures Admissible(Initial(0), steps) && Without(steps, unblocked)
    ensures Run(Initial(0), steps) == State(1, [1, 1, 2], [], map[1 := Parked, 2 := Parked], {1, 2}, multiset{}, 1, 1, {}, 0)
  {
    hide Run, Admissible;
    steps := Behind(unblocked);
    steps := Then(Initial(0), steps, ExtraSignal);
  }

  /** A first signal wakes task 1. */
  lemma Overtaken(unblocked: bool) returns (steps: seq<Step>)
    ensures Admissible(Initial(0), steps) && Without(steps, unblocked)
    ensures Run(Initial(0), steps) == State(1, [1, 2], [], map[1 := Parked, 2 := Parked], {2}, multiset{}, 1, 0, {1}, 0)
  {
    hide Run, Admissible;
    steps := Raised(unblocked);
    assert [1, 1, 2][1..] == [1, 2] && {1, 2} - {1} == {2} && {} + {1} == {1};
    steps := Then(Initial(0), steps, Dequeue);
  }

  /** Task 1 takes the permit; its second entry is still in front of task 2's. */
  lemma Served(unblocked: bool) returns (steps: seq<Step>)
    ensures Admissible(Initial(0), steps) && Without(steps, unblocked)
    ensures Run(Initial(0), steps) == State(0, [1, 2], [], map[1 := Outside, 2 := Parked], {2}, multiset{1}, 1, 0, {}, 0)
  {
    hide Run, Admissible;
    var s := Initial(0);
    steps := Overtaken(unblocked);
    steps := Then(s, steps, Resume(1));
    steps := Then(s, steps, Load(1));
    steps := Then(s, steps, CompareExchange(1));
  }

  lemma Signalled(unblocked: bool) returns (steps: seq<Step>)
    ensures Admissible(Initial(0), steps) && Without(steps, unblocked)
    ensures Run(Initial(0), steps) == State(1, [1, 2], [], map[1 := Outside, 2 := Parked], {2}, multiset{1}, 2, 1, {}, 0)
  {
    hide Run, Admissible;
    steps := Served(unblocked);
    steps := Then(Initial(0), steps, ExtraSignal);
  }

  /** The next signal is spent on that entry. */
  lemma Wasted(unblocked: bool) returns (steps: seq<Step>)
    ensures Admissible(Initial(0), steps) && Without(steps, unblocked)
    ensures Run(Initial(0), steps) == State(1, [2], [], map[1 := Outside, 2 := Parked], {2}, multiset{1}, 2, 0, {}, 1)
  {
    hide Run, Admissible;
    steps := Signalled(unblocked);
    steps := Then(Initial(0), steps, Dequeue);
  }

  /** Either is enough: a permit stays unused while task 2 sleeps beside it. */
  lemma LostWakeup(unblocked: bool) returns (steps: seq<Step>)
    ensures Admissible(Initial(0), steps) && Without(steps, unblocked)
    ensures var s := Run(Initial(0), steps); AtRest(s) && s.count == 1 && s.queue == [2] && At(s, 2) == Parked && 2 in s.blocked
  {
    hide Run, Admissible, Without;
    steps := Wasted(unblocked);
  }
}
