/** The thread pool as a step machine: every interleaving of the workers, the enqueuing
    threads and the owner (who may wait for the workers and later destroys the pool) is a
    sequence of actions. A step is one access to shared state. */
module ThreadPool {
  import opened Options
  import opened Sequences

  type Task = nat

  // ---------------------------------------------------------------- the machine

  /** Program counter of a worker. */
  datatype Worker =
    | Starting            // about to lock the mutex and report ready
    | Counting            // holds the mutex; about to increment readyThreads
    | Announcing          // holds the mutex; about to notify allThreadsReady
    | Announced           // holds the mutex; about to release it
    | Idle                // about to lock the mutex for the next task
    | Testing             // holds the mutex; about to evaluate the wait predicate
    | GoingToSleep        // holds the mutex; the predicate was false
    | Asleep              // blocked on the condition variable
    | Woken               // notified; about to lock the mutex again
    | Passed              // holds the mutex; the predicate was true
    | Taking              // holds the mutex; about to pop
    | Carrying(task: Task)  // holds the mutex; has popped
    | Running(task: Task)
    | Exited

  /** Program counter of a thread that calls enqueue. */
  datatype Enqueuer =
    | Away
    | Locking(task: Task)
    | Pushing(task: Task)  // holds the mutex
    | Pushed               // holds the mutex; about to release it
    | Notifying            // about to notify one worker

  /** Program counter of the pool's owner: waitForThreads, then the destructor. */
  datatype Owner =
    | Before
    | WaitLocking
    | WaitTesting          // holds the mutex
    | WaitGoingToSleep     // holds the mutex
    | WaitAsleep
    | WaitWoken
    | WaitPassed           // holds the mutex
    | Serving
    | Stopping             // stop is set; about to notify all
    | Joining
    | Destroyed

  datatype Thread = W(i: nat) | E(j: nat) | M

  datatype State = State(
    workers: seq<Worker>,
    enqueuers: seq<Enqueuer>,
    owner: Owner,
    mutex: Option<Thread>,
    tasks: seq<Task>,
    stop: bool,
    ready: nat,
    // history
    pushed: seq<Task>,
    popped: seq<Task>,
    finished: seq<Task>,
    pushedAtStop: nat
  )

  predicate Init(s: State) {
    && (forall i :: 0 <= i < |s.workers| ==> s.workers[i] == Starting)
    && (forall j :: 0 <= j < |s.enqueuers| ==> s.enqueuers[j] == Away)
    && s.owner == Before && s.mutex == None && s.tasks == [] && !s.stop && s.ready == 0
    && s.pushed == [] && s.popped == [] && s.finished == [] && s.pushedAtStop == 0
  }

  datatype Action =
    | WorkerStep(i: nat)
    | Enqueue(j: nat, task: Task)        // a call of enqueue begins
    | EnqueuerStep(j: nat, woken: nat)   // `woken` is the worker a notify_one picks
    | OwnerStep
    | Destroy                            // the destructor begins: stop is stored

  predicate SomeAsleep(s: State) {
    exists i :: 0 <= i < |s.workers| && s.workers[i] == Asleep
  }

  predicate Enabled(s: State, a: Action) {
    match a
    case WorkerStep(i) =>
      i < |s.workers| && (match s.workers[i]
        case Starting => s.mutex == None
        case Idle => s.mutex == None
        case Woken => s.mutex == None
        case Taking => s.tasks != []
        case Exited => false
        case _ => true)
    case Enqueue(j, _) => j < |s.enqueuers| && s.enqueuers[j] == Away
    case EnqueuerStep(j, woken) =>
      j < |s.enqueuers| && (match s.enqueuers[j]
        case Away => false
        case Locking(_) => s.mutex == None
        case Notifying => SomeAsleep(s) ==> woken < |s.workers| && s.workers[woken] == Asleep
        case _ => true)
    case OwnerStep =>
      (match s.owner
       case WaitLocking => s.mutex == None
       case WaitWoken => s.mutex == None
       case Serving => false
       case Joining => forall i :: 0 <= i < |s.workers| ==> s.workers[i] == Exited
       case Destroyed => false
       case _ => true)
    case Destroy => s.owner == Before || s.owner == Serving
  }

  function SetWorker(s: State, i: nat, w: Worker): State
    requires i < |s.workers|
  {
    s.(workers := s.workers[i := w])
  }

  function StepWorker(s: State, i: nat): State
    requires Enabled(s, WorkerStep(i))
  {
    match s.workers[i]
    case Starting => SetWorker(s, i, Counting).(mutex := Some(W(i)))
    case Counting => SetWorker(s, i, Announcing).(ready := s.ready + 1)
    case Announcing =>
      SetWorker(s, i, Announced).(owner := if s.owner == WaitAsleep then WaitWoken else s.owner)
    case Announced => SetWorker(s, i, Idle).(mutex := None)
    case Idle => SetWorker(s, i, Testing).(mutex := Some(W(i)))
    case Testing => SetWorker(s, i, if s.stop || s.tasks != [] then Passed else GoingToSleep)
    case GoingToSleep => SetWorker(s, i, Asleep).(mutex := None)
    case Asleep => SetWorker(s, i, Woken)  // a spurious wakeup
    case Woken => SetWorker(s, i, Testing).(mutex := Some(W(i)))
    case Passed =>
      if s.stop && s.tasks == [] then SetWorker(s, i, Exited).(mutex := None)
      else SetWorker(s, i, Taking)
    case Taking =>
      SetWorker(s, i, Carrying(s.tasks[0])).(tasks := s.tasks[1..], popped := s.popped + [s.tasks[0]])
    case Carrying(t) => SetWorker(s, i, Running(t)).(mutex := None)
    case Running(t) => SetWorker(s, i, Idle).(finished := s.finished + [t])
  }

  function SetEnqueuer(s: State, j: nat, e: Enqueuer): State
    requires j < |s.enqueuers|
  {
    s.(enqueuers := s.enqueuers[j := e])
  }

  function StepEnqueuer(s: State, j: nat, woken: nat): State
    requires Enabled(s, EnqueuerStep(j, woken))
  {
    match s.enqueuers[j]
    case Locking(t) => SetEnqueuer(s, j, Pushing(t)).(mutex := Some(E(j)))
    case Pushing(t) => SetEnqueuer(s, j, Pushed).(tasks := s.tasks + [t], pushed := s.pushed + [t])
    case Pushed => SetEnqueuer(s, j, Notifying).(mutex := None)
    case Notifying =>
      if SomeAsleep(s) then SetWorker(SetEnqueuer(s, j, Away), woken, Woken)
      else SetEnqueuer(s, j, Away)
  }

  function WakeAll(workers: seq<Worker>): (r: seq<Worker>)
    ensures |r| == |workers|
    ensures forall i :: 0 <= i < |r| ==> r[i] == if workers[i] == Asleep then Woken else workers[i]
  {
    seq(|workers|, i requires 0 <= i < |workers| =>
      if workers[i] == Asleep then Woken else workers[i])
  }

  function StepOwner(s: State): State
    requires Enabled(s, OwnerStep)
  {
    match s.owner
    case Before => s.(owner := WaitLocking)
    case WaitLocking => s.(owner := WaitTesting, mutex := Some(M))
    case WaitTesting =>
      s.(owner := if s.ready == |s.workers| then WaitPassed else WaitGoingToSleep)
    case WaitGoingToSleep => s.(owner := WaitAsleep, mutex := None)
    case WaitAsleep => s.(owner := WaitWoken)  // a spurious wakeup
    case WaitWoken => s.(owner := WaitTesting, mutex := Some(M))
    case WaitPassed => s.(owner := Serving, mutex := None)
    case Stopping => s.(owner := Joining, workers := WakeAll(s.workers))
    case Joining => s.(owner := Destroyed)
  }

  function Apply(s: State, a: Action): State
    requires Enabled(s, a)
  {
    match a
    case WorkerStep(i) => StepWorker(s, i)
    case Enqueue(j, t) => SetEnqueuer(s, j, Locking(t))
    case EnqueuerStep(j, woken) => StepEnqueuer(s, j, woken)
    case OwnerStep => StepOwner(s)
    case Destroy => s.(owner := Stopping, stop := true, pushedAtStop := |s.pushed|)
  }

  /** `r` is reached from `s` by the given interleaving. */
  ghost predicate Reaches(s: State, actions: seq<Action>, r: State)
    decreases |actions|
  {
    if actions == [] then r == s
    else Enabled(s, actions[0]) && Reaches(Apply(s, actions[0]), actions[1..], r)
  }

  lemma {:induction false} ReachesAppend(s: State, first: seq<Action>, m: State,
                                         second: seq<Action>, r: State)
    requires Reaches(s, first, m) && Reaches(m, second, r)
    ensures Reaches(s, first + second, r)
    decreases |first|
  {
    if first == [] {
      assert first + second == second;
    } else {
      ReachesAppend(Apply(s, first[0]), first[1..], m, second, r);
      assert (first + second)[1..] == first[1..] + second;
    }
  }

  // ---------------------------------------------------------------- mutual exclusion

  predicate WorkerHolds(w: Worker) {
    w == Counting || w == Announcing || w == Announced || w == Testing || w == GoingToSleep
    || w == Passed || w == Taking || w.Carrying?
  }

  predicate EnqueuerHolds(e: Enqueuer) {
    e.Pushing? || e == Pushed
  }

  predicate OwnerHolds(o: Owner) {
    o == WaitTesting || o == WaitGoingToSleep || o == WaitPassed
  }

  /** A thread is inside a critical section exactly when it holds the mutex. */
  predicate Exclusion(s: State) {
    && (forall i :: 0 <= i < |s.workers| ==> (WorkerHolds(s.workers[i]) <==> s.mutex == Some(W(i))))
    && (forall j :: 0 <= j < |s.enqueuers| ==>
          (EnqueuerHolds(s.enqueuers[j]) <==> s.mutex == Some(E(j))))
    && (OwnerHolds(s.owner) <==> s.mutex == Some(M))
  }

  lemma ExclusionKeptByWorker(s: State, i: nat)
    requires Exclusion(s) && Enabled(s, WorkerStep(i))
    ensures Exclusion(StepWorker(s, i))
  {
    var s' := StepWorker(s, i);
    assert forall k :: 0 <= k < |s.workers| && k != i ==> s'.workers[k] == s.workers[k];
    if WorkerHolds(s.workers[i]) {
      assert s.mutex == Some(W(i));
    }
  }

  lemma ExclusionKeptByEnqueuer(s: State, j: nat, woken: nat)
    requires Exclusion(s) && Enabled(s, EnqueuerStep(j, woken))
    ensures Exclusion(StepEnqueuer(s, j, woken))
  {
    if EnqueuerHolds(s.enqueuers[j]) {
      assert s.mutex == Some(E(j));
    }
  }

  lemma ExclusionKeptByOwner(s: State)
    requires Exclusion(s) && Enabled(s, OwnerStep)
    ensures Exclusion(StepOwner(s))
  {
  }

  lemma ExclusionKept(s: State, a: Action)
    requires Exclusion(s) && Enabled(s, a)
    ensures Exclusion(Apply(s, a))
  {
    match a {
      case WorkerStep(i) => ExclusionKeptByWorker(s, i);
      case Enqueue(j, _) =>
      case EnqueuerStep(j, woken) => ExclusionKeptByEnqueuer(s, j, woken);
      case OwnerStep => ExclusionKeptByOwner(s);
      case Destroy =>
    }
  }

  // ---------------------------------------------------------------- the queue

  /** What a worker inside its critical section knows about the queue. */
  predicate KnowsQueue(s: State, w: Worker) {
    && (w == Passed ==> s.stop || s.tasks != [])
    && (w == Taking ==> s.tasks != [])
    && (w == GoingToSleep && !s.stop ==> s.tasks == [])
  }

  /** The queue is first-in first-out, and pop never meets an empty queue. */
  predicate Queue(s: State) {
    && s.pushed == s.popped + s.tasks
    && forall i :: 0 <= i < |s.workers| ==> KnowsQueue(s, s.workers[i])
  }

  lemma TakingKeepsQueue(s: State, i: nat)
    requires Exclusion(s) && Queue(s) && Enabled(s, WorkerStep(i)) && s.workers[i] == Taking
    ensures Queue(StepWorker(s, i))
  {
    var s' := StepWorker(s, i);
    assert s.tasks == [s.tasks[0]] + s.tasks[1..];
    forall k | 0 <= k < |s'.workers| ensures KnowsQueue(s', s'.workers[k]) {
      OthersOutside(s, i, k);
    }
  }

  lemma OthersOutside(s: State, i: nat, k: nat)
    requires Exclusion(s) && i < |s.workers| && k < |s.workers| && WorkerHolds(s.workers[i])
    ensures k != i ==> !WorkerHolds(s.workers[k])
  {
    assert s.mutex == Some(W(i));
  }

  lemma QueueKeptByWorker(s: State, i: nat)
    requires Exclusion(s) && Queue(s) && Enabled(s, WorkerStep(i))
    ensures Queue(StepWorker(s, i))
  {
    if s.workers[i] == Taking {
      TakingKeepsQueue(s, i);
    } else {
      var s' := StepWorker(s, i);
      forall k | 0 <= k < |s'.workers| ensures KnowsQueue(s', s'.workers[k]) {
        assert KnowsQueue(s, s.workers[k]);
      }
    }
  }

  lemma QueueKept(s: State, a: Action)
    requires Exclusion(s) && Queue(s) && Enabled(s, a)
    ensures Queue(Apply(s, a))
  {
    match a {
      case WorkerStep(i) => QueueKeptByWorker(s, i);
      case Enqueue(j, _) =>
      case EnqueuerStep(j, woken) =>
      case OwnerStep =>
      case Destroy =>
    }
  }

  // ---------------------------------------------------------------- exactly once

  /** A worker that has popped `t` and not finished it. */
  function HasInHand(t: Task): Worker -> bool {
    (w: Worker) => Hands(w, t)
  }

  predicate Hands(w: Worker, t: Task) {
    (w.Carrying? || w.Running?) && w.task == t
  }

  function InHand(workers: seq<Worker>, t: Task): nat {
    Count(workers, HasInHand(t))
  }

  /** Every popped task is in the hands of one worker or has run to completion, once. */
  ghost predicate Conserved(s: State) {
    forall t :: multiset(s.popped)[t] == InHand(s.workers, t) + multiset(s.finished)[t]
  }

  lemma ConservedKeptByWorker(s: State, i: nat)
    requires Conserved(s) && Enabled(s, WorkerStep(i))
    ensures Conserved(StepWorker(s, i))
  {
    var s' := StepWorker(s, i);
    forall t ensures multiset(s'.popped)[t] == InHand(s'.workers, t) + multiset(s'.finished)[t] {
      CountUpdate(s.workers, HasInHand(t), i, s'.workers[i]);
      assert s'.workers == s.workers[i := s'.workers[i]];
      CountedPush(s, i, t);
    }
  }

  lemma CountedPush(s: State, i: nat, t: Task)
    requires Enabled(s, WorkerStep(i))
    ensures var s' := StepWorker(s, i);
      multiset(s'.popped)[t] + multiset(s.finished)[t] + InHandOf(s.workers[i], t)
      == multiset(s.popped)[t] + multiset(s'.finished)[t] + InHandOf(s'.workers[i], t)
  {
    var w := s.workers[i];
    if w == Taking {
      TaskTaken(s, i, t);
    } else if w.Running? {
      TaskFinished(s, i, t);
    } else {
      NoTaskMoves(s, i);
    }
  }

  lemma TaskTaken(s: State, i: nat, t: Task)
    requires Enabled(s, WorkerStep(i)) && s.workers[i] == Taking
    ensures var s' := StepWorker(s, i);
      && s'.finished == s.finished
      && multiset(s'.popped)[t] == multiset(s.popped)[t] + InHandOf(s'.workers[i], t)
  {
    CountAppend(s.popped, s.tasks[0], t);
  }

  lemma TaskFinished(s: State, i: nat, t: Task)
    requires Enabled(s, WorkerStep(i)) && s.workers[i].Running?
    ensures var s' := StepWorker(s, i);
      && s'.popped == s.popped && s'.workers[i] == Idle
      && multiset(s'.finished)[t] == multiset(s.finished)[t] + InHandOf(s.workers[i], t)
  {
    CountAppend(s.finished, s.workers[i].task, t);
  }

  lemma NoTaskMoves(s: State, i: nat)
    requires Enabled(s, WorkerStep(i)) && s.workers[i] != Taking && !s.workers[i].Running?
    ensures var s' := StepWorker(s, i);
      && s'.popped == s.popped && s'.finished == s.finished
      && forall t :: Hands(s'.workers[i], t) == Hands(s.workers[i], t)
  {
  }

  lemma CountAppend(s: seq<Task>, x: Task, t: Task)
    ensures multiset(s + [x])[t] == multiset(s)[t] + if x == t then 1 else 0
  {
  }

  function InHandOf(w: Worker, t: Task): nat {
    if Hands(w, t) then 1 else 0
  }

  /** A worker that wakes up has nothing in its hands, before or after. */
  lemma WakingConserves(s: State, j: nat, woken: nat)
    requires Conserved(s) && Enabled(s, EnqueuerStep(j, woken))
    ensures Conserved(StepEnqueuer(s, j, woken))
  {
    if s.enqueuers[j] == Notifying && SomeAsleep(s) {
      forall t ensures InHand(s.workers[woken := Woken], t) == InHand(s.workers, t) {
        CountUpdate(s.workers, HasInHand(t), woken, Woken);
      }
    }
  }

  lemma OwnerConserves(s: State)
    requires Conserved(s) && Enabled(s, OwnerStep)
    ensures Conserved(StepOwner(s))
  {
    forall t ensures InHand(StepOwner(s).workers, t) == InHand(s.workers, t) {
      CountSame(s.workers, StepOwner(s).workers, HasInHand(t));
    }
  }

  lemma ConservedKept(s: State, a: Action)
    requires Conserved(s) && Enabled(s, a)
    ensures Conserved(Apply(s, a))
  {
    match a {
      case WorkerStep(i) => ConservedKeptByWorker(s, i);
      case Enqueue(j, _) =>
      case EnqueuerStep(j, woken) => WakingConserves(s, j, woken);
      case OwnerStep => OwnerConserves(s);
      case Destroy =>
    }
  }

  // ---------------------------------------------------------------- no lost wakeup

  /** Awake and on the way to the next test of the predicate, or past it with a task due. */
  predicate AwakeIdle(w: Worker) {
    w == Starting || w == Counting || w == Announcing || w == Announced || w == Idle
    || w == Testing || w == Woken || w == Passed || w == Taking
  }

  predicate Pending(e: Enqueuer) {
    e == Pushed || e == Notifying
  }

  /** While the pool is running, a sleeping worker is never needed: there are at most as
      many queued tasks as awake idle workers and notifications still to come. */
  predicate NoLostWakeup(s: State) {
    !s.stop && SomeAsleep(s) ==>
      |s.tasks| <= Count(s.workers, AwakeIdle) + Count(s.enqueuers, Pending)
  }

  lemma WakeupKeptByWorker(s: State, i: nat)
    requires Exclusion(s) && Queue(s) && NoLostWakeup(s) && Enabled(s, WorkerStep(i))
    ensures NoLostWakeup(StepWorker(s, i))
  {
    var s' := StepWorker(s, i);
    CountUpdate(s.workers, AwakeIdle, i, s'.workers[i]);
    if s.workers[i] != GoingToSleep && SomeAsleep(s') {
      var k :| 0 <= k < |s'.workers| && s'.workers[k] == Asleep;
      assert s.workers[k] == Asleep;
    }
  }

  lemma WakeupKeptByEnqueuer(s: State, j: nat, woken: nat)
    requires NoLostWakeup(s) && Enabled(s, EnqueuerStep(j, woken))
    ensures NoLostWakeup(StepEnqueuer(s, j, woken))
  {
    var s' := StepEnqueuer(s, j, woken);
    CountUpdate(s.enqueuers, Pending, j, s'.enqueuers[j]);
    if s.enqueuers[j] == Notifying && SomeAsleep(s) {
      CountUpdate(s.workers, AwakeIdle, woken, Woken);
    }
  }

  lemma WakeupKept(s: State, a: Action)
    requires Exclusion(s) && Queue(s) && NoLostWakeup(s) && Enabled(s, a)
    requires s.owner == Stopping ==> s.stop
    ensures NoLostWakeup(Apply(s, a))
  {
    match a {
      case WorkerStep(i) => WakeupKeptByWorker(s, i);
      case Enqueue(j, t) => CountUpdate(s.enqueuers, Pending, j, Locking(t));
      case EnqueuerStep(j, woken) => WakeupKeptByEnqueuer(s, j, woken);
      case OwnerStep =>
      case Destroy =>
    }
  }

  // ---------------------------------------------------------------- shutdown

  predicate Stopped(o: Owner) {
    o == Stopping || o == Joining || o == Destroyed
  }

  /** Nobody exits before the destructor starts, nor before everything that was pushed by
      then has been popped. */
  predicate Shutdown(s: State) {
    && (s.stop <==> Stopped(s.owner))
    && s.pushedAtStop <= |s.pushed|
    && forall i :: 0 <= i < |s.workers| && s.workers[i] == Exited ==>
         s.stop && s.pushedAtStop <= |s.popped|
  }

  lemma ShutdownKept(s: State, a: Action)
    requires Queue(s) && Shutdown(s) && Enabled(s, a)
    ensures Shutdown(Apply(s, a))
  {
    match a {
      case WorkerStep(i) =>
      case Enqueue(j, _) =>
      case EnqueuerStep(j, woken) =>
      case OwnerStep =>
      case Destroy =>
    }
  }

  // ---------------------------------------------------------------- waitForThreads

  predicate Reported(w: Worker) {
    w != Starting && w != Counting
  }

  /** readyThreads counts the workers that have reported, and the owner does not sleep
      through the last report. */
  predicate Readiness(s: State) {
    && s.ready == Count(s.workers, Reported)
    && (s.owner == WaitGoingToSleep ==> s.ready < |s.workers|)
    && (s.owner == WaitAsleep && s.ready == |s.workers| ==>
          exists i :: 0 <= i < |s.workers| && s.workers[i] == Announcing)
    && (s.owner == WaitPassed || s.owner == Serving ==> s.ready == |s.workers|)
  }

  lemma ReportsCounted(s: State, i: nat)
    requires s.ready == Count(s.workers, Reported) && Enabled(s, WorkerStep(i))
    ensures var s' := StepWorker(s, i); s'.ready == Count(s'.workers, Reported)
  {
    var s' := StepWorker(s, i);
    CountUpdate(s.workers, Reported, i, s'.workers[i]);
  }

  /** While the owner sleeps over a full count, somebody is still about to notify it. */
  lemma AnnouncerStays(s: State, i: nat)
    requires Exclusion(s) && Readiness(s) && Enabled(s, WorkerStep(i))
    requires StepWorker(s, i).owner == WaitAsleep && StepWorker(s, i).ready == |s.workers|
    ensures var s' := StepWorker(s, i);
      exists k :: 0 <= k < |s'.workers| && s'.workers[k] == Announcing
  {
    var s' := StepWorker(s, i);
    if s.workers[i] == Counting {
      assert s'.workers[i] == Announcing;
    } else {
      var k :| 0 <= k < |s.workers| && s.workers[k] == Announcing;
      assert s'.workers[k] == Announcing;
    }
  }

  lemma ReadinessKeptByWorker(s: State, i: nat)
    requires Exclusion(s) && Readiness(s) && Enabled(s, WorkerStep(i))
    ensures Readiness(StepWorker(s, i))
  {
    var s' := StepWorker(s, i);
    ReportsCounted(s, i);
    CountAll(s'.workers, Reported);
    if s'.owner == WaitAsleep && s'.ready == |s.workers| {
      AnnouncerStays(s, i);
    } else if s.workers[i] == Counting {
      CountAll(s.workers, Reported);
      assert !Reported(s.workers[i]);
    }
  }

  lemma ReadinessKept(s: State, a: Action)
    requires Exclusion(s) && Readiness(s) && Enabled(s, a)
    ensures Readiness(Apply(s, a))
  {
    var s' := Apply(s, a);
    match a {
      case WorkerStep(i) => ReadinessKeptByWorker(s, i);
      case Enqueue(j, _) =>
      case EnqueuerStep(j, woken) =>
        if s.enqueuers[j] == Notifying && SomeAsleep(s) {
          CountUpdate(s.workers, Reported, woken, Woken);
          assert forall k :: 0 <= k < |s.workers| && s.workers[k] == Announcing ==>
                   s'.workers[k] == Announcing;
        }
      case OwnerStep =>
        CountSame(s.workers, s'.workers, Reported);
        CountAll(s.workers, Reported);
      case Destroy =>
    }
  }

  // ---------------------------------------------------------------- every interleaving

  ghost predicate Invariant(s: State) {
    Exclusion(s) && Queue(s) && Conserved(s) && NoLostWakeup(s) && Shutdown(s) && Readiness(s)
  }

  lemma InitInvariant(s: State)
    requires Init(s)
    ensures Invariant(s)
  {
    forall t ensures InHand(s.workers, t) == 0 {
      CountNone(s.workers, HasInHand(t));
    }
    CountNone(s.workers, Reported);
  }

  lemma InvariantKept(s: State, a: Action)
    requires Invariant(s) && Enabled(s, a)
    ensures Invariant(Apply(s, a)) && |Apply(s, a).workers| == |s.workers|
  {
    ExclusionKept(s, a);
    QueueKept(s, a);
    ConservedKept(s, a);
    WakeupKept(s, a);
    ShutdownKept(s, a);
    ReadinessKept(s, a);
  }

  lemma {:induction false} Always(s: State, actions: seq<Action>, r: State)
    requires Invariant(s) && Reaches(s, actions, r)
    ensures Invariant(r) && |r.workers| == |s.workers|
    decreases |actions|
  {
    if actions != [] {
      InvariantKept(s, actions[0]);
      Always(Apply(s, actions[0]), actions[1..], r);
    }
  }

  /** In every interleaving tasks are popped in the order they were enqueued, and none is
      run more often than it was enqueued. */
  lemma PoppedInOrderRunOnce(s: State, actions: seq<Action>, r: State)
    requires Init(s) && Reaches(s, actions, r)
    ensures r.popped <= r.pushed
    ensures forall t :: multiset(r.finished)[t] + InHand(r.workers, t) == multiset(r.popped)[t]
    ensures multiset(r.finished) <= multiset(r.pushed)
  {
    InitInvariant(s);
    Always(s, actions, r);
    assert r.pushed == r.popped + r.tasks;
    assert multiset(r.pushed) == multiset(r.popped) + multiset(r.tasks);
  }

  // ---------------------------------------------------------------- the calls of enqueue

  predicate Calls(a: Action, t: Task) {
    a.Enqueue? && a.task == t
  }

  function CallsWith(t: Task): Action -> bool {
    (a: Action) => Calls(a, t)
  }

  /** How often a run calls enqueue with `t`. */
  function CallsOf(actions: seq<Action>, t: Task): nat {
    Count(actions, CallsWith(t))
  }

  predicate Holds(e: Enqueuer, t: Task) {
    (e.Locking? || e.Pushing?) && e.task == t
  }

  function HoldsTask(t: Task): Enqueuer -> bool {
    (e: Enqueuer) => Holds(e, t)
  }

  /** The calls with `t` that have not pushed it yet. */
  function Underway(s: State, t: Task): nat {
    Count(s.enqueuers, HoldsTask(t))
  }

  lemma StepAnswersCalls(s: State, a: Action, t: Task)
    requires Enabled(s, a)
    ensures multiset(Apply(s, a).pushed)[t] + Underway(Apply(s, a), t)
         == multiset(s.pushed)[t] + Underway(s, t) + if Calls(a, t) then 1 else 0
  {
    match a {
      case WorkerStep(i) =>
      case Enqueue(j, x) => CountUpdate(s.enqueuers, HoldsTask(t), j, Locking(x));
      case EnqueuerStep(j, woken) => PushAnswersCall(s, j, woken, t);
      case OwnerStep =>
      case Destroy =>
    }
  }

  lemma PushAnswersCall(s: State, j: nat, woken: nat, t: Task)
    requires Enabled(s, EnqueuerStep(j, woken))
    ensures var s' := StepEnqueuer(s, j, woken);
      multiset(s'.pushed)[t] + Underway(s', t) == multiset(s.pushed)[t] + Underway(s, t)
  {
    var s' := StepEnqueuer(s, j, woken);
    assert s'.enqueuers == s.enqueuers[j := s'.enqueuers[j]];
    CountUpdate(s.enqueuers, HoldsTask(t), j, s'.enqueuers[j]);
    if s.enqueuers[j].Pushing? {
      CountAppend(s.pushed, s.enqueuers[j].task, t);
    }
  }

  lemma {:induction false} RunAnswersCalls(s: State, actions: seq<Action>, r: State, t: Task)
    requires Reaches(s, actions, r)
    ensures multiset(r.pushed)[t] + Underway(r, t)
         == multiset(s.pushed)[t] + Underway(s, t) + CallsOf(actions, t)
    decreases |actions|
  {
    if actions != [] {
      StepAnswersCalls(s, actions[0], t);
      RunAnswersCalls(Apply(s, actions[0]), actions[1..], r, t);
    }
  }

  /** In every interleaving each call's task has been pushed, once, or the call has not got
      so far yet. */
  lemma CallsArePushed(s: State, actions: seq<Action>, r: State, t: Task)
    requires Init(s) && Reaches(s, actions, r)
    ensures CallsOf(actions, t) == multiset(r.pushed)[t] + Underway(r, t)
  {
    CountNone(s.enqueuers, HoldsTask(t));
    RunAnswersCalls(s, actions, r, t);
  }

  /** Every call's task has been run, is in the hands of one worker, is queued, or has not
      been pushed yet; and is so once. */
  lemma CallsAccounted(s: State, actions: seq<Action>, r: State, t: Task)
    requires Init(s) && Reaches(s, actions, r)
    ensures CallsOf(actions, t) == multiset(r.finished)[t] + InHand(r.workers, t)
                                   + multiset(r.tasks)[t] + Underway(r, t)
  {
    CallsArePushed(s, actions, r, t);
    InitInvariant(s);
    Always(s, actions, r);
    assert multiset(r.pushed) == multiset(r.popped) + multiset(r.tasks);
  }

  /** The tasks of the calls in the order in which they are pushed; `calls` is what each
      enqueuer was last called with. */
  function PushOrder(s: State, calls: map<nat, Task>, actions: seq<Action>): seq<Task>
    decreases |actions|
  {
    if actions == [] || !Enabled(s, actions[0]) then []
    else
      PushedBy(s, calls, actions[0])
      + PushOrder(Apply(s, actions[0]), CalledWith(calls, actions[0]), actions[1..])
  }

  function CalledWith(calls: map<nat, Task>, a: Action): map<nat, Task> {
    if a.Enqueue? then calls[a.j := a.task] else calls
  }

  function PushedBy(s: State, calls: map<nat, Task>, a: Action): seq<Task> {
    if a.EnqueuerStep? && a.j < |s.enqueuers| && s.enqueuers[a.j].Pushing? && a.j in calls
    then [calls[a.j]] else []
  }

  /** An enqueuer that has not pushed yet holds what it was last called with. */
  predicate HoldsCalls(s: State, calls: map<nat, Task>) {
    forall j :: 0 <= j < |s.enqueuers| && (s.enqueuers[j].Locking? || s.enqueuers[j].Pushing?) ==>
      j in calls && calls[j] == s.enqueuers[j].task
  }

  lemma HoldsCallsKept(s: State, a: Action, calls: map<nat, Task>)
    requires Enabled(s, a) && HoldsCalls(s, calls)
    ensures HoldsCalls(Apply(s, a), CalledWith(calls, a))
    ensures Apply(s, a).pushed == s.pushed + PushedBy(s, calls, a)
  {
    match a {
      case WorkerStep(i) =>
      case Enqueue(j, _) =>
      case EnqueuerStep(j, woken) => HoldsCallsInside(s, j, woken, calls);
      case OwnerStep =>
      case Destroy =>
    }
  }

  lemma HoldsCallsInside(s: State, j: nat, woken: nat, calls: map<nat, Task>)
    requires Enabled(s, EnqueuerStep(j, woken)) && HoldsCalls(s, calls)
    ensures HoldsCalls(StepEnqueuer(s, j, woken), calls)
    ensures StepEnqueuer(s, j, woken).pushed
         == s.pushed + PushedBy(s, calls, EnqueuerStep(j, woken))
  {
  }

  lemma {:induction false} RunPushesInOrder(s: State, calls: map<nat, Task>, actions: seq<Action>,
                                            r: State)
    requires Reaches(s, actions, r) && HoldsCalls(s, calls)
    ensures r.pushed == s.pushed + PushOrder(s, calls, actions)
    decreases |actions|
  {
    if actions != [] {
      var s', calls' := Apply(s, actions[0]), CalledWith(calls, actions[0]);
      HoldsCallsKept(s, actions[0], calls);
      RunPushesInOrder(s', calls', actions[1..], r);
      Regroup(s.pushed, PushedBy(s, calls, actions[0]), PushOrder(s', calls', actions[1..]));
    }
  }

  lemma Regroup(a: seq<Task>, b: seq<Task>, c: seq<Task>)
    ensures (a + b) + c == a + (b + c)
  {
  }

  /** First in, first out, in terms of the calls: tasks are popped in the order in which the
      calls of enqueue push them, and what is pushed and not popped is queued in that order. */
  lemma PoppedInCallOrder(s: State, actions: seq<Action>, r: State)
    requires Init(s) && Reaches(s, actions, r)
    ensures PushOrder(s, map[], actions) == r.popped + r.tasks
  {
    InitInvariant(s);
    Always(s, actions, r);
    RunPushesInOrder(s, map[], actions, r);
    assert [] + PushOrder(s, map[], actions) == PushOrder(s, map[], actions);
  }

  /** What was popped and is in nobody's hands has been run. */
  lemma NobodyHolds(r: State)
    requires Conserved(r) && forall i :: 0 <= i < |r.workers| ==> r.workers[i] == Exited
    ensures multiset(r.finished) == multiset(r.popped)
  {
    forall t ensures multiset(r.finished)[t] == multiset(r.popped)[t] {
      CountNone(r.workers, HasInHand(t));
    }
  }

  lemma ExitedAccounted(s: State, actions: seq<Action>, r: State)
    requires Init(s) && Reaches(s, actions, r)
    requires forall i :: 0 <= i < |r.workers| ==> r.workers[i] == Exited
    ensures forall t ::
      CallsOf(actions, t) == multiset(r.finished)[t] + multiset(r.tasks)[t] + Underway(r, t)
  {
    forall t ensures
      CallsOf(actions, t) == multiset(r.finished)[t] + multiset(r.tasks)[t] + Underway(r, t)
    {
      CallsAccounted(s, actions, r, t);
      CountNone(r.workers, HasInHand(t));
    }
  }

  /** Drain: once all workers of a non-empty pool have exited, everything enqueued before
      the destructor started has run to completion exactly once, in the hands of nobody;
      and if nothing was pushed afterwards, the queue is empty and that is everything. Each
      call's task has been run, is still queued, or has not been pushed yet. */
  lemma Drained(s: State, actions: seq<Action>, r: State)
    requires Init(s) && |s.workers| >= 1 && Reaches(s, actions, r)
    requires forall i :: 0 <= i < |r.workers| ==> r.workers[i] == Exited
    ensures r.stop && r.pushedAtStop <= |r.pushed| && r.pushed[..r.pushedAtStop] <= r.popped
    ensures multiset(r.finished) == multiset(r.popped)
    ensures |r.pushed| == r.pushedAtStop ==>
              r.tasks == [] && multiset(r.finished) == multiset(r.pushed)
    ensures forall t ::
      CallsOf(actions, t) == multiset(r.finished)[t] + multiset(r.tasks)[t] + Underway(r, t)
  {
    InitInvariant(s);
    Always(s, actions, r);
    assert r.workers[0] == Exited;
    NobodyHolds(r);
    ExitedAccounted(s, actions, r);
    assert r.pushed == r.popped + r.tasks;
    assert r.pushed[..r.pushedAtStop] == r.popped[..r.pushedAtStop];
  }

  /** Pushing only appends, and what was pushed before `stop` is remembered. */
  lemma {:induction false} PushedGrows(s: State, actions: seq<Action>, r: State)
    requires Reaches(s, actions, r)
    ensures s.pushed <= r.pushed
    ensures Stopped(s.owner) ==> Stopped(r.owner) && r.pushedAtStop == s.pushedAtStop
    decreases |actions|
  {
    if actions != [] {
      PushedGrows(Apply(s, actions[0]), actions[1..], r);
    }
  }

  /** Drain, in terms of the calls: once all workers have exited, every task passed to
      enqueue before the destructor began has been run, as often as it was passed, unless the
      call had not pushed it when the destructor began; and if no call was underway then and none was
      made later, what has been run is exactly what was passed to enqueue. */
  lemma DrainedCalls(s: State, before: seq<Action>, m: State, after: seq<Action>, r: State, t: Task)
    requires Init(s) && |s.workers| >= 1 && Reaches(s, before, m) && Enabled(m, Destroy)
    requires Reaches(Apply(m, Destroy), after, r)
    requires forall i :: 0 <= i < |r.workers| ==> r.workers[i] == Exited
    ensures CallsOf(before, t) <= multiset(r.finished)[t] + Underway(m, t)
    ensures multiset(r.finished)[t] <= CallsOf(before, t) + CallsOf(after, t)
    ensures Underway(m, t) == 0 && CallsOf(after, t) == 0 ==>
              multiset(r.finished)[t] == CallsOf(before, t)
  {
    var m' := Apply(m, Destroy);
    CallsArePushed(s, before, m, t);
    RunAnswersCalls(m', after, r, t);
    PushedGrows(m', after, r);
    StoppedInvariantly(s, before, m, after, r);
    NobodyHolds(r);
    PrefixOccurs(r.popped, r.pushed, m.pushed, t);
  }

  lemma StoppedInvariantly(s: State, before: seq<Action>, m: State, after: seq<Action>, r: State)
    requires Init(s) && |s.workers| >= 1 && Reaches(s, before, m) && Enabled(m, Destroy)
    requires Reaches(Apply(m, Destroy), after, r)
    requires forall i :: 0 <= i < |r.workers| ==> r.workers[i] == Exited
    ensures Conserved(r) && r.pushed == r.popped + r.tasks && |m.pushed| <= |r.popped|
  {
    InitInvariant(s);
    Always(s, before, m);
    InvariantKept(m, Destroy);
    Always(Apply(m, Destroy), after, r);
    PushedGrows(Apply(m, Destroy), after, r);
    assert r.workers[0] == Exited;
  }

  lemma PrefixOccurs(popped: seq<Task>, pushed: seq<Task>, first: seq<Task>, t: Task)
    requires popped <= pushed && first <= pushed && |first| <= |popped|
    ensures multiset(first)[t] <= multiset(popped)[t] <= multiset(pushed)[t]
  {
    assert popped == first + popped[|first|..];
    assert pushed == popped + pushed[|popped|..];
  }

  /** No lost wakeup, in every interleaving. */
  lemma NeverOversleeps(s: State, actions: seq<Action>, r: State)
    requires Init(s) && Reaches(s, actions, r) && !r.stop && SomeAsleep(r)
    ensures |r.tasks| <= Count(r.workers, AwakeIdle) + Count(r.enqueuers, Pending)
  {
    InitInvariant(s);
    Always(s, actions, r);
  }

  /** When waitForThreads has returned, every worker has reported; and while the owner
      sleeps some report is still to come. */
  lemma WaitForThreads(s: State, actions: seq<Action>, r: State)
    requires Init(s) && Reaches(s, actions, r)
    ensures r.owner == Serving ==> forall i :: 0 <= i < |r.workers| ==> Reported(r.workers[i])
    ensures r.owner == WaitAsleep ==>
      exists i :: 0 <= i < |r.workers| && (!Reported(r.workers[i]) || r.workers[i] == Announcing)
  {
    InitInvariant(s);
    Always(s, actions, r);
    CountAll(r.workers, Reported);
  }

  /** Mutual exclusion, and pop never meets an empty queue, in every interleaving. */
  lemma CriticalSections(s: State, actions: seq<Action>, r: State, i: nat, k: nat)
    requires Init(s) && Reaches(s, actions, r) && i < |r.workers| && k < |r.workers|
    ensures WorkerHolds(r.workers[i]) && WorkerHolds(r.workers[k]) ==> i == k
    ensures r.workers[i] == Taking ==> r.tasks != []
  {
    InitInvariant(s);
    Always(s, actions, r);
    assert KnowsQueue(r, r.workers[i]);
  }
}
