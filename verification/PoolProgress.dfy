/** Progress of the running thread pool: which steps are the pool's own, how long a run can
    last without new calls, and that it comes to rest only when every task has been run. */
module PoolProgress {
  import opened Options
  import opened Sequences
  import opened ThreadPool

  // ---------------------------------------------------------------- own steps

  predicate IsCall(a: Action) {
    a.Enqueue?
  }

  /** A thread wakes up on a condition variable though nobody notified it. */
  predicate Spurious(s: State, a: Action) {
    || (a.WorkerStep? && a.i < |s.workers| && s.workers[a.i] == Asleep)
    || (a.OwnerStep? && s.owner == WaitAsleep)
  }

  /** A step that is neither a new call nor a spurious wakeup. */
  ghost predicate OwnSteps(s: State, a: Action) {
    Enabled(s, a) && !IsCall(a) && !a.Destroy? && !Spurious(s, a)
  }

  ghost predicate AtRest(s: State) {
    forall a :: !OwnSteps(s, a)
  }

  /** The thread that holds the mutex exists. */
  predicate HolderThere(s: State) {
    s.mutex.Some? ==>
      match s.mutex.value
      case W(i) => i < |s.workers|
      case E(j) => j < |s.enqueuers|
      case M => true
  }

  lemma HolderThereKept(s: State, a: Action)
    requires HolderThere(s) && Enabled(s, a)
    ensures HolderThere(Apply(s, a))
  {
    match a {
      case WorkerStep(i) =>
      case Enqueue(j, _) =>
      case EnqueuerStep(j, woken) =>
      case OwnerStep =>
      case Destroy =>
    }
  }

  lemma {:induction false} HolderAlwaysThere(s: State, actions: seq<Action>, r: State)
    requires HolderThere(s) && Reaches(s, actions, r)
    ensures HolderThere(r)
    decreases |actions|
  {
    if actions != [] {
      HolderThereKept(s, actions[0]);
      HolderAlwaysThere(Apply(s, actions[0]), actions[1..], r);
    }
  }

  /** Whoever holds the mutex can go on. */
  lemma HolderGoesOn(s: State) returns (a: Action)
    requires Exclusion(s) && Queue(s) && HolderThere(s) && s.mutex.Some?
    ensures OwnSteps(s, a)
  {
    match s.mutex.value {
      case W(i) =>
        assert WorkerHolds(s.workers[i]) && KnowsQueue(s, s.workers[i]);
        a := WorkerStep(i);
      case E(j) =>
        assert EnqueuerHolds(s.enqueuers[j]);
        a := EnqueuerStep(j, 0);
      case M =>
        assert OwnerHolds(s.owner);
        a := OwnerStep;
    }
  }

  // ---------------------------------------------------------------- runs without calls end

  /** Steps a worker of a running pool still has before it until it sleeps; carrying a task
      is paid for when it is queued, waking up by whoever notifies. */
  function WorkerLoad(w: Worker): nat {
    match w
    case Starting => 20
    case Counting => 19
    case Announcing => 18
    case Announced => 10
    case Idle => 9
    case Testing => 8
    case GoingToSleep => 5
    case Asleep => 0
    case Woken => 9
    case Passed => 7
    case Taking => 6
    case Carrying(_) => 12
    case Running(_) => 11
    case Exited => 0
  }

  const TASK_LOAD := 7

  function EnqueuerLoad(e: Enqueuer): nat {
    match e
    case Away => 0
    case Locking(_) => 20
    case Pushing(_) => 19
    case Pushed => 11
    case Notifying => 10
  }

  function OwnerLoad(o: Owner): nat {
    match o
    case Before => 6
    case WaitLocking => 5
    case WaitTesting => 3
    case WaitGoingToSleep => 1
    case WaitWoken => 4
    case WaitPassed => 1
    case _ => 0
  }

  /** A bound on the steps left until the running pool comes to rest. */
  function Load(s: State): nat {
    TASK_LOAD * |s.tasks| + Total(s.workers, WorkerLoad) + Total(s.enqueuers, EnqueuerLoad)
    + OwnerLoad(s.owner)
  }

  lemma WorkerLoadFalls(s: State, i: nat)
    requires !s.stop && Enabled(s, WorkerStep(i))
    ensures Load(StepWorker(s, i)) < Load(s) + if s.workers[i] == Asleep then 10 else 0
  {
    var s' := StepWorker(s, i);
    assert s'.workers == s.workers[i := s'.workers[i]];
    TotalUpdate(s.workers, WorkerLoad, i, s'.workers[i]);
  }

  lemma EnqueuerLoadFalls(s: State, j: nat, woken: nat)
    requires Enabled(s, EnqueuerStep(j, woken))
    ensures Load(StepEnqueuer(s, j, woken)) < Load(s)
  {
    var s' := StepEnqueuer(s, j, woken);
    TotalUpdate(s.enqueuers, EnqueuerLoad, j, s'.enqueuers[j]);
    if s.enqueuers[j] == Notifying && SomeAsleep(s) {
      TotalUpdate(s.workers, WorkerLoad, woken, Woken);
    }
  }

  /** Every own step brings the rest nearer; a call or a spurious wakeup costs a little. */
  lemma LoadFalls(s: State, a: Action)
    requires !s.stop && Shutdown(s) && Enabled(s, a) && !a.Destroy?
    ensures Load(Apply(s, a))
          < Load(s) + (if IsCall(a) then 21 else 0) + if Spurious(s, a) then 10 else 0
  {
    match a {
      case WorkerStep(i) => WorkerLoadFalls(s, i);
      case Enqueue(j, t) => TotalUpdate(s.enqueuers, EnqueuerLoad, j, Locking(t));
      case EnqueuerStep(j, woken) => EnqueuerLoadFalls(s, j, woken);
      case OwnerStep =>
    }
  }

  /** The spurious wakeups of a run. */
  function Wakeups(s: State, actions: seq<Action>): nat
    decreases |actions|
  {
    if actions == [] || !Enabled(s, actions[0]) then 0
    else (if Spurious(s, actions[0]) then 1 else 0) + Wakeups(Apply(s, actions[0]), actions[1..])
  }

  lemma {:induction false} StopStays(s: State, actions: seq<Action>, r: State)
    requires s.stop && Reaches(s, actions, r)
    ensures r.stop
    decreases |actions|
  {
    if actions != [] {
      StopStays(Apply(s, actions[0]), actions[1..], r);
    }
  }

  /** A run of the running pool is no longer than its load, its calls and its spurious
      wakeups allow. */
  lemma {:induction false} RunsSettle(s: State, actions: seq<Action>, r: State)
    requires Invariant(s) && Reaches(s, actions, r) && !r.stop
    ensures |actions| + Load(r) <= Load(s) + 21 * Count(actions, IsCall) + 10 * Wakeups(s, actions)
    decreases |actions|
  {
    if actions != [] {
      var s' := Apply(s, actions[0]);
      if s'.stop {
        StopStays(s', actions[1..], r);
      }
      InvariantKept(s, actions[0]);
      LoadFalls(s, actions[0]);
      RunsSettle(s', actions[1..], r);
    }
  }

  // ---------------------------------------------------------------- where they end

  /** A running pool at rest: nobody holds the mutex, no call is in progress, and every
      worker sleeps. */
  lemma RestingThreads(s: State)
    requires Exclusion(s) && Queue(s) && HolderThere(s) && Shutdown(s) && !s.stop && AtRest(s)
    ensures s.mutex == None
    ensures forall j :: 0 <= j < |s.enqueuers| ==> s.enqueuers[j] == Away
    ensures forall i :: 0 <= i < |s.workers| ==> s.workers[i] == Asleep
  {
    if s.mutex.Some? {
      var a := HolderGoesOn(s);
    }
    forall i | 0 <= i < |s.workers| ensures s.workers[i] == Asleep {
      assert !OwnSteps(s, WorkerStep(i));
      assert !WorkerHolds(s.workers[i]);
    }
    forall j | 0 <= j < |s.enqueuers| ensures s.enqueuers[j] == Away {
      assert !EnqueuerHolds(s.enqueuers[j]);
      var woken := if i :| 0 <= i < |s.workers| && s.workers[i] == Asleep then i else 0;
      assert !OwnSteps(s, EnqueuerStep(j, woken));
    }
  }

  lemma RestingTasks(s: State)
    requires Invariant(s) && !s.stop && |s.workers| > 0
    requires forall j :: 0 <= j < |s.enqueuers| ==> s.enqueuers[j] == Away
    requires forall i :: 0 <= i < |s.workers| ==> s.workers[i] == Asleep
    ensures s.tasks == [] && multiset(s.finished) == multiset(s.pushed)
  {
    assert s.workers[0] == Asleep;
    CountNone(s.workers, AwakeIdle);
    CountNone(s.enqueuers, Pending);
    forall t ensures multiset(s.popped)[t] == multiset(s.finished)[t] {
      CountNone(s.workers, HasInHand(t));
    }
    assert s.pushed == s.popped;
  }

  /** Progress: from every reachable state of a running pool with a worker, a run without
      new calls and spurious wakeups is bounded, and where it cannot go on no task is queued
      and what has been run is exactly what was passed to the calls of enqueue. */
  lemma RestsOnlyWhenDone(s: State, before: seq<Action>, m: State, after: seq<Action>, r: State)
    requires Init(s) && |s.workers| > 0 && Reaches(s, before, m) && Reaches(m, after, r) && !r.stop
    ensures |after| <= Load(m) + 21 * Count(after, IsCall) + 10 * Wakeups(m, after)
    ensures AtRest(r) ==> r.tasks == [] && multiset(r.finished) == multiset(r.pushed)
    ensures AtRest(r) ==> forall t :: multiset(r.finished)[t] == CallsOf(before + after, t)
  {
    InitInvariant(s);
    Always(s, before, m);
    Always(m, after, r);
    HolderAlwaysThere(s, before, m);
    HolderAlwaysThere(m, after, r);
    RunsSettle(m, after, r);
    if AtRest(r) {
      RestingThreads(r);
      RestingTasks(r);
      ReachesAppend(s, before, m, after, r);
      AllCallsRun(s, before + after, r);
    }
  }

  /** When nobody is inside enqueue and everything pushed has been run, all has been run that
      enqueue was called with. */
  lemma AllCallsRun(s: State, actions: seq<Action>, r: State)
    requires Init(s) && Reaches(s, actions, r) && multiset(r.finished) == multiset(r.pushed)
    requires forall j :: 0 <= j < |r.enqueuers| ==> r.enqueuers[j] == Away
    ensures forall t :: multiset(r.finished)[t] == CallsOf(actions, t)
  {
    forall t ensures multiset(r.finished)[t] == CallsOf(actions, t) {
      CallsArePushed(s, actions, r, t);
      CountNone(r.enqueuers, HoldsTask(t));
    }
  }

  /** While a task is queued in a running pool, somebody can go on. */
  lemma QueuedTaskMoves(s: State, actions: seq<Action>, r: State) returns (a: Action)
    requires Init(s) && |s.workers| > 0 && Reaches(s, actions, r) && !r.stop && r.tasks != []
    ensures OwnSteps(r, a)
  {
    RestsOnlyWhenDone(s, actions, r, [], r);
    a :| OwnSteps(r, a);
  }
}
