/** The destructor of the thread pool: exactly when it can hang with a worker asleep for
    good, and that it returns in every other case. */
module PoolShutdown {
  import opened Options
  import opened PoolProgress
  import opened Sequences
  import opened ThreadPool

  // ---------------------------------------------------------------- who falls asleep

  predicate SomeDrowsy(s: State) {
    exists i :: 0 <= i < |s.workers| && s.workers[i] == GoingToSleep
  }

  /** The owner waits for the workers and one of them sleeps, for the moment. */
  predicate Stalled(s: State) {
    s.owner == Joining && SomeAsleep(s)
  }

  /** The pool is stopped and nobody will fall asleep any more. */
  predicate Awake(s: State) {
    && s.stop && Stopped(s.owner) && !SomeDrowsy(s)
    && (s.owner != Stopping ==> !SomeAsleep(s))
  }

  lemma AwakeKeptByWorker(s: State, i: nat)
    requires Awake(s) && Enabled(s, WorkerStep(i))
    ensures Awake(StepWorker(s, i))
  {
    var s' := StepWorker(s, i);
    forall k | 0 <= k < |s'.workers|
      ensures s'.workers[k] != GoingToSleep && (s'.workers[k] == Asleep ==> s.workers[k] == Asleep)
    {
      assert s.workers[k] != GoingToSleep;
    }
  }

  lemma AwakeKept(s: State, a: Action)
    requires Awake(s) && Enabled(s, a)
    ensures Awake(Apply(s, a))
  {
    match a {
      case WorkerStep(i) => AwakeKeptByWorker(s, i);
      case Enqueue(j, _) =>
      case EnqueuerStep(j, woken) =>
      case OwnerStep =>
    }
  }

  lemma {:induction false} AwakeAlways(s: State, actions: seq<Action>, r: State)
    requires Awake(s) && Reaches(s, actions, r)
    ensures Awake(r)
    decreases |actions|
  {
    if actions != [] {
      AwakeKept(s, actions[0]);
      AwakeAlways(Apply(s, actions[0]), actions[1..], r);
    }
  }

  /** This run of the destructor, started in `s`, ends with a sleeper. */
  ghost predicate StallsBy(s: State, actions: seq<Action>, r: State)
    requires Enabled(s, Destroy)
  {
    Reaches(Apply(s, Destroy), actions, r) && Stalled(r)
  }

  ghost predicate CanStall(s: State)
    requires Enabled(s, Destroy)
  {
    exists actions, r :: StallsBy(s, actions, r)
  }

  lemma ReachesOne(s: State, a: Action)
    requires Enabled(s, a)
    ensures Reaches(s, [a], Apply(s, a))
  {
    assert [a][1..] == [];
  }

  lemma DrowsyStalls(s: State, i: nat) returns (actions: seq<Action>, r: State)
    requires Enabled(s, Destroy) && i < |s.workers| && s.workers[i] == GoingToSleep
    ensures StallsBy(s, actions, r)
  {
    var s1 := Apply(s, Destroy);
    var s2 := Apply(s1, OwnerStep);
    r := Apply(s2, WorkerStep(i));
    assert r.workers[i] == Asleep;
    actions := [OwnerStep, WorkerStep(i)];
    ReachesOne(s2, WorkerStep(i));
    assert actions[1..] == [WorkerStep(i)];
    assert Reaches(s1, actions, r);
  }

  /** Destroying the pool can reach a state in which the owner joins and a worker sleeps
      exactly when, at the moment `stop` is stored, some worker has found the predicate
      false and is not yet asleep. An enqueuer may still wake that worker. */
  lemma StallIff(s: State)
    requires Enabled(s, Destroy)
    ensures CanStall(s) <==> SomeDrowsy(s)
  {
    if SomeDrowsy(s) {
      var i :| 0 <= i < |s.workers| && s.workers[i] == GoingToSleep;
      var actions, r := DrowsyStalls(s, i);
    } else {
      forall actions, r | StallsBy(s, actions, r) ensures false {
        AwakeAlways(Apply(s, Destroy), actions, r);
      }
    }
  }

  // ---------------------------------------------------------------- the destructor returns

  /** Steps a worker still has before it, given that the pool is stopped; carrying a task is
      paid for when it is queued. */
  function WorkerEffort(w: Worker): nat {
    match w
    case Starting => 12
    case Counting => 11
    case Announcing => 10
    case Announced => 9
    case Idle => 8
    case Testing => 7
    case GoingToSleep => 11
    case Asleep => 10
    case Woken => 9
    case Passed => 6
    case Taking => 5
    case Carrying(_) => 14
    case Running(_) => 13
    case Exited => 0
  }

  const TASK_EFFORT := 10

  function EnqueuerEffort(e: Enqueuer): nat {
    match e
    case Away => 0
    case Locking(_) => 20
    case Pushing(_) => 19
    case Pushed => 8
    case Notifying => 7
  }

  function OwnerEffort(o: Owner): nat {
    match o
    case Stopping => 2
    case Joining => 1
    case _ => 0
  }

  /** A bound on the steps left until the pool is destroyed. */
  function Effort(s: State): nat {
    TASK_EFFORT * |s.tasks| + Total(s.workers, WorkerEffort) + Total(s.enqueuers, EnqueuerEffort)
    + OwnerEffort(s.owner)
  }

  /** The destructor has begun. */
  predicate Halting(s: State) {
    s.stop && Stopped(s.owner)
  }

  lemma WorkerEffortFalls(s: State, i: nat)
    requires Halting(s) && Enabled(s, WorkerStep(i))
    ensures Effort(StepWorker(s, i)) < Effort(s)
  {
    var s' := StepWorker(s, i);
    assert s'.workers == s.workers[i := s'.workers[i]];
    TotalUpdate(s.workers, WorkerEffort, i, s'.workers[i]);
  }

  lemma EnqueuerEffortFalls(s: State, j: nat, woken: nat)
    requires Enabled(s, EnqueuerStep(j, woken))
    ensures Effort(StepEnqueuer(s, j, woken)) < Effort(s)
  {
    var s' := StepEnqueuer(s, j, woken);
    TotalUpdate(s.enqueuers, EnqueuerEffort, j, s'.enqueuers[j]);
    if s.enqueuers[j] == Notifying && SomeAsleep(s) {
      TotalUpdate(s.workers, WorkerEffort, woken, Woken);
    }
  }

  lemma OwnerEffortFalls(s: State)
    requires Stopped(s.owner) && Enabled(s, OwnerStep)
    ensures Effort(StepOwner(s)) < Effort(s)
  {
    TotalAtMost(StepOwner(s).workers, s.workers, WorkerEffort);
  }

  /** Every step but a new call of enqueue brings the end nearer; a call costs a little. */
  lemma EffortFalls(s: State, a: Action)
    requires Halting(s) && Enabled(s, a)
    ensures Halting(Apply(s, a))
    ensures Effort(Apply(s, a)) < Effort(s) + if IsCall(a) then 21 else 0
  {
    match a {
      case WorkerStep(i) => WorkerEffortFalls(s, i);
      case Enqueue(j, t) => TotalUpdate(s.enqueuers, EnqueuerEffort, j, Locking(t));
      case EnqueuerStep(j, woken) => EnqueuerEffortFalls(s, j, woken);
      case OwnerStep => OwnerEffortFalls(s);
    }
  }

  lemma {:induction false} RunsEnd(s: State, actions: seq<Action>, r: State)
    requires Halting(s) && Reaches(s, actions, r)
    ensures Halting(r) && |actions| + Effort(r) <= Effort(s) + 21 * Count(actions, IsCall)
    decreases |actions|
  {
    if actions != [] {
      EffortFalls(s, actions[0]);
      RunsEnd(Apply(s, actions[0]), actions[1..], r);
    }
  }

  // ---------------------------------------------------------------- sleepers that will be woken

  predicate SomeLocking(s: State) {
    exists j :: 0 <= j < |s.enqueuers| && s.enqueuers[j].Locking?
  }

  /** Somebody is inside enqueue, and so going to notify. */
  predicate SomeCaller(s: State) {
    exists j :: 0 <= j < |s.enqueuers| && s.enqueuers[j] != Away
  }

  predicate Dozing(w: Worker) {
    w == GoingToSleep || w == Asleep
  }

  /** After `notify_all` at most one worker sleeps or is about to, and while it sleeps a
      caller of enqueue is on the way to notifying it; while it still holds the mutex, that
      caller waits for the mutex. */
  predicate Covered(s: State) {
    && Halting(s) && (SomeDrowsy(s) ==> SomeLocking(s))
    && (s.owner != Stopping ==>
          && (SomeAsleep(s) ==> SomeCaller(s))
          && forall i, k :: 0 <= i < k < |s.workers| ==>
               !(Dozing(s.workers[i]) && Dozing(s.workers[k])))
  }

  lemma CallerStays(s: State, s': State)
    requires s'.enqueuers == s.enqueuers
    ensures SomeLocking(s') == SomeLocking(s) && SomeCaller(s') == SomeCaller(s)
  {
  }

  lemma LockingIsCaller(s: State)
    requires SomeLocking(s)
    ensures SomeCaller(s)
  {
    var j :| 0 <= j < |s.enqueuers| && s.enqueuers[j].Locking?;
    assert s.enqueuers[j] != Away;
  }

  lemma CoveredKeptByWorker(s: State, i: nat)
    requires Covered(s) && Exclusion(s) && Enabled(s, WorkerStep(i))
    ensures Covered(StepWorker(s, i))
  {
    var s' := StepWorker(s, i);
    CallerStays(s, s');
    forall k | 0 <= k < |s.workers| && Dozing(s'.workers[k])
      ensures Dozing(s.workers[k]) && (s'.workers[k] == GoingToSleep ==> k != i)
    {
    }
    if s.workers[i] == GoingToSleep {
      LockingIsCaller(s);
    }
    if SomeDrowsy(s') {
      var k :| 0 <= k < |s.workers| && s'.workers[k] == GoingToSleep;
      assert s.workers[k] == GoingToSleep;
    }
    if SomeAsleep(s') && s.workers[i] != GoingToSleep {
      var k :| 0 <= k < |s.workers| && s'.workers[k] == Asleep;
      assert s.workers[k] == Asleep;
    }
  }

  lemma CoveredKeptByCaller(s: State, j: nat, woken: nat)
    requires Covered(s) && Exclusion(s) && Enabled(s, EnqueuerStep(j, woken))
    ensures Covered(StepEnqueuer(s, j, woken))
  {
    var s' := StepEnqueuer(s, j, woken);
    forall k | 0 <= k < |s.workers| && Dozing(s'.workers[k]) ensures s'.workers[k] == s.workers[k] {
    }
    if SomeDrowsy(s') {
      var k :| 0 <= k < |s.workers| && s'.workers[k] == GoingToSleep;
      assert s.workers[k] == GoingToSleep && s.mutex == Some(W(k));
      var l :| 0 <= l < |s.enqueuers| && s.enqueuers[l].Locking?;
      assert l != j && s'.enqueuers[l] == s.enqueuers[l];
    }
    if s.owner != Stopping && SomeAsleep(s') {
      var k :| 0 <= k < |s.workers| && s'.workers[k] == Asleep;
      assert s.workers[k] == Asleep;
      assert s'.enqueuers[j] != Away;
    }
  }

  lemma CoveredKeptByOwner(s: State)
    requires Covered(s) && Exclusion(s) && Enabled(s, OwnerStep)
    ensures Covered(StepOwner(s))
  {
    var s' := StepOwner(s);
    CallerStays(s, s');
    if SomeDrowsy(s') {
      var k :| 0 <= k < |s.workers| && s'.workers[k] == GoingToSleep;
      assert s.workers[k] == GoingToSleep;
    }
    forall i, k | 0 <= i < k < |s.workers| && s.owner == Stopping
      ensures !(Dozing(s'.workers[i]) && Dozing(s'.workers[k]))
    {
      assert s'.workers[i] == GoingToSleep ==> s.mutex == Some(W(i));
      assert s'.workers[k] == GoingToSleep ==> s.mutex == Some(W(k));
    }
  }

  lemma CoveredKeptByCall(s: State, j: nat, t: Task)
    requires Covered(s) && Enabled(s, Enqueue(j, t))
    ensures Covered(Apply(s, Enqueue(j, t)))
  {
    var s' := Apply(s, Enqueue(j, t));
    assert s'.enqueuers[j].Locking?;
    LockingIsCaller(s');
  }

  lemma CoveredKept(s: State, a: Action)
    requires Covered(s) && Exclusion(s) && Enabled(s, a)
    ensures Covered(Apply(s, a))
  {
    match a {
      case WorkerStep(i) => CoveredKeptByWorker(s, i);
      case Enqueue(j, t) => CoveredKeptByCall(s, j, t);
      case EnqueuerStep(j, woken) => CoveredKeptByCaller(s, j, woken);
      case OwnerStep => CoveredKeptByOwner(s);
    }
  }

  lemma {:induction false} CoveredAlways(s: State, actions: seq<Action>, r: State)
    requires Covered(s) && Invariant(s) && Reaches(s, actions, r)
    ensures Covered(r)
    decreases |actions|
  {
    if actions != [] {
      CoveredKept(s, actions[0]);
      InvariantKept(s, actions[0]);
      CoveredAlways(Apply(s, actions[0]), actions[1..], r);
    }
  }

  /** A caller of enqueue that waits for a free mutex, or only has to notify, can go on. */
  lemma CallerGoesOn(s: State) returns (a: Action)
    requires Exclusion(s) && s.mutex == None && SomeCaller(s)
    ensures OwnSteps(s, a)
  {
    var j :| 0 <= j < |s.enqueuers| && s.enqueuers[j] != Away;
    assert !EnqueuerHolds(s.enqueuers[j]);
    var woken := if i :| 0 <= i < |s.workers| && s.workers[i] == Asleep then i else 0;
    a := EnqueuerStep(j, woken);
  }

  /** As long as every sleeper will be notified, a pool that is not destroyed yet can take a
      step of its own. */
  lemma SomebodyGoesOn(s: State) returns (a: Action)
    requires Exclusion(s) && Queue(s) && HolderThere(s) && Covered(s) && s.owner != Destroyed
    ensures OwnSteps(s, a)
  {
    if s.owner == Stopping {
      a := OwnerStep;
    } else if s.mutex.Some? {
      a := HolderGoesOn(s);
    } else if SomeAsleep(s) {
      a := CallerGoesOn(s);
    } else if i :| 0 <= i < |s.workers| && s.workers[i] != Exited {
      assert !WorkerHolds(s.workers[i]) && s.workers[i] != Asleep;
      a := WorkerStep(i);
    } else {
      a := OwnerStep;
    }
  }

  /** When `stop` is stored, a worker is on its way to sleep and nobody waits in enqueue for
      the mutex it holds. */
  predicate Forsaken(s: State) {
    SomeDrowsy(s) && !SomeLocking(s)
  }

  /** The destructor returns: unless a worker was on its way to sleep when `stop` was stored
      and no caller of enqueue was waiting for the mutex, every run from there is bounded,
      apart from new calls of enqueue, and every state in which the pool is not destroyed
      has a next step that needs no spurious wakeup. */
  lemma DestructorReturns(s: State, before: seq<Action>, m: State, after: seq<Action>, r: State)
    requires Init(s) && Reaches(s, before, m) && Enabled(m, Destroy) && !Forsaken(m)
    requires Reaches(Apply(m, Destroy), after, r)
    ensures |after| <= Effort(Apply(m, Destroy)) + 21 * Count(after, IsCall)
    ensures r.owner == Destroyed || exists a :: OwnSteps(r, a)
    ensures !Stuck(r)
  {
    StopsInvariantly(s, before, m, after, r);
    RunsEnd(Apply(m, Destroy), after, r);
    CoveredAlways(Apply(m, Destroy), after, r);
    if r.owner != Destroyed {
      var a := SomebodyGoesOn(r);
    }
  }

  lemma StopsInvariantly(s: State, before: seq<Action>, m: State, after: seq<Action>, r: State)
    requires Init(s) && Reaches(s, before, m) && Enabled(m, Destroy)
    requires Reaches(Apply(m, Destroy), after, r)
    ensures Invariant(m) && Invariant(Apply(m, Destroy)) && Invariant(r) && HolderThere(r)
  {
    InitInvariant(s);
    Always(s, before, m);
    InvariantKept(m, Destroy);
    Always(Apply(m, Destroy), after, r);
    HolderAlwaysThere(s, before, m);
    HolderAlwaysThere(Apply(m, Destroy), after, r);
  }

  // ---------------------------------------------------------------- sleepers left for good

  /** The owner waits for the workers, one of them sleeps, and nobody is going to notify. */
  predicate Stuck(s: State) {
    Stalled(s) && !SomeCaller(s)
  }

  /** Only a new call or a spurious wakeup can end it. */
  lemma StuckKept(s: State, a: Action)
    requires Stuck(s) && OwnSteps(s, a)
    ensures Stuck(Apply(s, a))
  {
    var i :| 0 <= i < |s.workers| && s.workers[i] == Asleep;
    assert a.WorkerStep? && a.i != i;
    assert Apply(s, a).workers[i] == Asleep;
  }

  /** Taking own steps as long as there are any leaves a stuck pool stuck. */
  lemma {:induction false} RunsOut(s: State) returns (actions: seq<Action>, r: State)
    requires Halting(s) && Stuck(s)
    ensures Reaches(s, actions, r) && Stuck(r) && AtRest(r)
    decreases Effort(s)
  {
    if a :| OwnSteps(s, a) {
      StuckKept(s, a);
      EffortFalls(s, a);
      var rest;
      rest, r := RunsOut(Apply(s, a));
      actions := [a] + rest;
      assert actions[1..] == rest;
    } else {
      actions, r := [], s;
    }
  }

  /** Some run of the destructor, started in `s`, reaches a stuck state. */
  ghost predicate CanGetStuck(s: State)
    requires Enabled(s, Destroy)
  {
    exists actions, r :: Reaches(Apply(s, Destroy), actions, r) && Stuck(r)
  }

  /** Some run of the destructor ends, before it returns, where nothing but a new call or a
      spurious wakeup can happen. */
  ghost predicate CanHang(s: State)
    requires Enabled(s, Destroy)
  {
    exists actions, r :: Reaches(Apply(s, Destroy), actions, r) && r.owner != Destroyed && AtRest(r)
  }

  /** The enqueuers from position `n` on have left, the others at most have to notify. */
  predicate Leaving(s: State, n: nat) {
    forall j :: 0 <= j < |s.enqueuers| ==>
      s.enqueuers[j] == Away || (j < n && s.enqueuers[j] == Notifying)
  }

  /** With nobody asleep the notifications go nowhere. */
  lemma {:induction false} Depart(s: State, n: nat) returns (actions: seq<Action>, r: State)
    requires n <= |s.enqueuers| && Leaving(s, n) && !SomeAsleep(s)
    ensures Reaches(s, actions, r) && r.workers == s.workers && r.owner == s.owner
    ensures !SomeCaller(r)
    decreases n
  {
    if n == 0 {
      actions, r := [], s;
    } else if s.enqueuers[n - 1] == Away {
      actions, r := Depart(s, n - 1);
    } else {
      var a := EnqueuerStep(n - 1, 0);
      var rest;
      rest, r := Depart(Apply(s, a), n - 1);
      actions := [a] + rest;
      assert actions[1..] == rest;
    }
  }

  lemma ForsakenLeaving(s: State)
    requires Exclusion(s) && Forsaken(s)
    ensures Leaving(s, |s.enqueuers|)
  {
    var i :| 0 <= i < |s.workers| && s.workers[i] == GoingToSleep;
    assert s.mutex == Some(W(i));
    forall j | 0 <= j < |s.enqueuers| ensures s.enqueuers[j] == Away || s.enqueuers[j] == Notifying {
      assert !EnqueuerHolds(s.enqueuers[j]) && !s.enqueuers[j].Locking?;
    }
  }

  /** notify_all, then the notifications in progress, and only then the worker sleeps. */
  lemma ForsakenGetsStuck(s: State) returns (actions: seq<Action>, r: State)
    requires Exclusion(s) && Forsaken(s) && Enabled(s, Destroy)
    ensures Reaches(Apply(s, Destroy), actions, r) && Halting(r) && Stuck(r)
  {
    ForsakenLeaving(s);
    var i :| 0 <= i < |s.workers| && s.workers[i] == GoingToSleep;
    var s1 := Apply(s, Destroy);
    var s2 := Apply(s1, OwnerStep);
    assert s2.workers[i] == GoingToSleep;
    var mid, s3 := Depart(s2, |s2.enqueuers|);
    r := Apply(s3, WorkerStep(i));
    assert r.workers[i] == Asleep;
    ReachesOne(s3, WorkerStep(i));
    ReachesAppend(s2, mid, s3, [WorkerStep(i)], r);
    actions := [OwnerStep] + (mid + [WorkerStep(i)]);
    assert actions[1..] == mid + [WorkerStep(i)];
    RunsEnd(s1, actions, r);
  }

  lemma ForsakenHangs(s: State)
    requires Exclusion(s) && Forsaken(s) && Enabled(s, Destroy)
    ensures CanGetStuck(s) && CanHang(s)
  {
    var first, m := ForsakenGetsStuck(s);
    var rest, r := RunsOut(m);
    ReachesAppend(Apply(s, Destroy), first, m, rest, r);
  }

  /** Exactly when the destructor may never return: in every reachable state in which it can
      begin, some run of it comes to rest before it has returned, and some run leaves a worker
      asleep whom nobody is going to notify, exactly when a worker is on its way to sleep and
      no caller of enqueue waits for the mutex. */
  lemma HangsIff(s: State, before: seq<Action>, m: State)
    requires Init(s) && Reaches(s, before, m) && Enabled(m, Destroy)
    ensures CanHang(m) <==> Forsaken(m)
    ensures CanGetStuck(m) <==> Forsaken(m)
  {
    if Forsaken(m) {
      StopsInvariantly(s, before, m, [], Apply(m, Destroy));
      ForsakenHangs(m);
    } else {
      forall actions, r | Reaches(Apply(m, Destroy), actions, r)
        ensures !Stuck(r) && (r.owner == Destroyed || !AtRest(r))
      {
        DestructorReturns(s, before, m, actions, r);
      }
    }
  }

  /** Storing `stop` while the mutex is free rules both out. */
  lemma FreeMutexIsSafe(s: State, before: seq<Action>, r: State)
    requires Init(s) && Reaches(s, before, r) && Enabled(r, Destroy) && r.mutex == None
    ensures !CanStall(r) && !CanHang(r)
  {
    InitInvariant(s);
    Always(s, before, r);
    StallIff(r);
    HangsIff(s, before, r);
  }

  // ---------------------------------------------------------------- a stalled run

  /** A lone worker, `n` steps on its way to its first sleep. */
  function Drowsy(s: State, n: nat): State
    requires n <= 6 && |s.workers| == 1
  {
    if n == 0 then s
    else if n == 1 then s.(workers := [Counting], mutex := Some(W(0)))
    else if n == 2 then s.(workers := [Announcing], mutex := Some(W(0)), ready := 1)
    else if n == 3 then s.(workers := [Announced], mutex := Some(W(0)), ready := 1)
    else if n == 4 then s.(workers := [Idle], ready := 1)
    else if n == 5 then s.(workers := [Testing], mutex := Some(W(0)), ready := 1)
    else s.(workers := [GoingToSleep], mutex := Some(W(0)), ready := 1)
  }

  lemma {:induction false} ReachesDrowsy(s: State, n: nat) returns (actions: seq<Action>)
    requires Init(s) && |s.workers| == 1 && n <= 6
    ensures Reaches(s, actions, Drowsy(s, n))
  {
    actions := [];
    if n > 0 {
      actions := ReachesDrowsy(s, n - 1);
      var before := Drowsy(s, n - 1);
      assert s.workers == [Starting];
      assert Apply(before, WorkerStep(0)) == Drowsy(s, n);
      ReachesOne(before, WorkerStep(0));
      ReachesAppend(s, actions, before, [WorkerStep(0)], Drowsy(s, n));
      actions := actions + [WorkerStep(0)];
    }
  }

  /** `stop` is stored and notified without the mutex: a worker that has found the
      predicate false but is not yet asleep misses both. In the state reached the owner
      waits in join, the worker sleeps, and without a spurious wakeup nothing can move. */
  lemma ShutdownCanStall(s: State) returns (actions: seq<Action>, r: State)
    requires Init(s) && |s.workers| == 1 && s.enqueuers == []
    ensures Reaches(s, actions, r)
    ensures r.stop && r.owner == Joining && r.workers == [Asleep]
    ensures forall a :: Enabled(r, a) ==> a == WorkerStep(0)
  {
    actions := ReachesDrowsy(s, 6);
    var s6 := Drowsy(s, 6);
    var s7 := Apply(s6, Destroy);
    var s8 := Apply(s7, OwnerStep);
    assert s8.workers == [GoingToSleep];
    r := Apply(s8, WorkerStep(0));
    ReachesOne(s6, Destroy);
    ReachesAppend(s, actions, s6, [Destroy], s7);
    ReachesOne(s7, OwnerStep);
    ReachesAppend(s, actions + [Destroy], s7, [OwnerStep], s8);
    ReachesOne(s8, WorkerStep(0));
    ReachesAppend(s, actions + [Destroy] + [OwnerStep], s8, [WorkerStep(0)], r);
    actions := actions + [Destroy] + [OwnerStep] + [WorkerStep(0)];
    OnlyTheSleeper(r);
  }

  lemma OnlyTheSleeper(r: State)
    requires r.workers == [Asleep] && r.enqueuers == [] && r.owner == Joining
    ensures forall a :: Enabled(r, a) ==> a == WorkerStep(0)
  {
    assert r.workers[0] != Exited;
  }
}
