/** Progress of the first version's client queue: without new calls of enqueue it comes to
    rest, and only when every socket has been handed out. */
module QueueProgress {
  import opened ClientQueue
  import opened Options
  import opened QueueCalls
  import opened Sequences

  // ---------------------------------------------------------------- own steps

  predicate IsCall(x: Action) {
    x.Enqueue?
  }

  /** A consumer wakes up on the condition variable though nobody signalled. */
  predicate Spurious(s: State, x: Action) {
    x.ConsumerStep? && x.j < |s.consumers| && s.consumers[x.j] == Asleep
  }

  ghost predicate OwnSteps(s: State, x: Action) {
    Enabled(s, x) && !IsCall(x) && !Spurious(s, x)
  }

  ghost predicate AtRest(s: State) {
    forall x :: !OwnSteps(s, x)
  }

  // ---------------------------------------------------------------- runs without calls end

  /** Steps a consumer still has before it until it sleeps; what it does with a node is paid
      for when the node is linked in, waking up by whoever signals. */
  function ConsumerLoad(c: Consumer): nat {
    match c
    case Busy => 5
    case Locking => 4
    case TestingHead => 3
    case Asleep => 0
    case Woken => 4
    case Reading => 2
    case Advancing(_, _) => 1
    case FixingTail(_, _) => 8
    case Freeing(_, _) => 7
    case Returning(_) => 6
  }

  const NODE_LOAD := 8

  function ProducerLoad(p: Producer): nat {
    match p
    case Away => 0
    case Prepared(_) => 18
    case TestingTail(_) => 17
    case LinkingFirst(_) => 16
    case LinkingNext(_) => 16
    case SettingTail(_) => 7
    case Signalling => 6
    case Releasing => 1
  }

  /** A bound on the steps left until the queue comes to rest. */
  function Load(s: State): nat {
    NODE_LOAD * |s.spine| + Total(s.consumers, ConsumerLoad) + Total(s.producers, ProducerLoad)
  }

  lemma ConsumerLoadFalls(s: State, j: nat)
    requires Enabled(s, ConsumerStep(j))
    ensures Load(StepConsumer(s, j)) < Load(s) + if s.consumers[j] == Asleep then 5 else 0
  {
    var s' := StepConsumer(s, j);
    assert s'.consumers == s.consumers[j := s'.consumers[j]];
    TotalUpdate(s.consumers, ConsumerLoad, j, s'.consumers[j]);
  }

  lemma ProducerLoadFalls(s: State, i: nat, woken: nat)
    requires Enabled(s, ProducerStep(i, woken))
    ensures Load(StepProducer(s, i, woken)) < Load(s)
  {
    var s' := StepProducer(s, i, woken);
    assert s'.producers == s.producers[i := s'.producers[i]];
    TotalUpdate(s.producers, ProducerLoad, i, s'.producers[i]);
    if s.producers[i] == Signalling && SomeAsleep(s) {
      TotalUpdate(s.consumers, ConsumerLoad, woken, Woken);
    }
  }

  /** Every own step brings the rest nearer; a call or a spurious wakeup costs a little. */
  lemma LoadFalls(s: State, x: Action)
    requires Enabled(s, x)
    ensures Load(Apply(s, x))
          < Load(s) + (if IsCall(x) then 19 else 0) + if Spurious(s, x) then 5 else 0
  {
    match x {
      case Enqueue(i, _, a) => TotalUpdate(s.producers, ProducerLoad, i, Prepared(a));
      case ProducerStep(i, woken) => ProducerLoadFalls(s, i, woken);
      case ConsumerStep(j) => ConsumerLoadFalls(s, j);
    }
  }

  /** The spurious wakeups of a run. */
  function Wakeups(s: State, actions: seq<Action>): nat
    decreases |actions|
  {
    if actions == [] || !Enabled(s, actions[0]) then 0
    else (if Spurious(s, actions[0]) then 1 else 0) + Wakeups(Apply(s, actions[0]), actions[1..])
  }

  lemma {:induction false} RunsSettle(s: State, actions: seq<Action>, r: State)
    requires Reaches(s, actions, r)
    ensures |actions| + Load(r) <= Load(s) + 19 * Count(actions, IsCall) + 5 * Wakeups(s, actions)
    decreases |actions|
  {
    if actions != [] {
      LoadFalls(s, actions[0]);
      RunsSettle(Apply(s, actions[0]), actions[1..], r);
    }
  }

  // ---------------------------------------------------------------- where they end

  /** Whoever holds the mutex can go on. */
  lemma HolderGoesOn(s: State) returns (x: Action)
    requires ListInvariant(s) && s.mutex.Some?
    ensures OwnSteps(s, x)
  {
    match s.mutex.value {
      case P(i) =>
        assert ProducerHolds(s.producers[i]) && ProducerKnows(s, s.producers[i]);
        var woken := if j :| 0 <= j < |s.consumers| && s.consumers[j] == Asleep then j else 0;
        x := ProducerStep(i, woken);
      case C(j) =>
        assert ConsumerHolds(s.consumers[j]) && ConsumerKnows(s, s.consumers[j]);
        x := ConsumerStep(j);
    }
  }

  /** A queue at rest: nobody holds the mutex, no call is in progress, every consumer
      sleeps. */
  lemma RestingThreads(s: State)
    requires ListInvariant(s) && AtRest(s)
    ensures s.mutex == None
    ensures forall i :: 0 <= i < |s.producers| ==> s.producers[i] == Away
    ensures forall j :: 0 <= j < |s.consumers| ==> s.consumers[j] == Asleep
  {
    if s.mutex.Some? {
      var x := HolderGoesOn(s);
    }
    forall i | 0 <= i < |s.producers| ensures s.producers[i] == Away {
      assert !ProducerHolds(s.producers[i]);
      assert !OwnSteps(s, ProducerStep(i, 0));
    }
    forall j | 0 <= j < |s.consumers| ensures s.consumers[j] == Asleep {
      assert !ConsumerHolds(s.consumers[j]);
      assert !OwnSteps(s, ConsumerStep(j));
    }
  }

  lemma RestingList(s: State)
    requires Invariant(s) && |s.consumers| > 0
    requires forall i :: 0 <= i < |s.producers| ==> s.producers[i] == Away
    requires forall j :: 0 <= j < |s.consumers| ==> s.consumers[j] == Asleep
    ensures s.spine == [] && s.head == None && s.dequeued == s.enqueued
  {
    assert s.consumers[0] == Asleep;
    CountNone(s.consumers, AwakeIdle);
    CountNone(s.producers, Pending);
  }

  /** Progress: a run without new calls and spurious wakeups is bounded, and where a queue
      with a consumer cannot go on, the list is empty and dequeue has returned exactly the
      sockets that enqueue was called with, in the order of linking. */
  lemma RestsOnlyWhenDone(s: State, before: seq<Action>, m: State, after: seq<Action>, r: State)
    requires Init(s) && |s.consumers| > 0 && Reaches(s, before, m) && Reaches(m, after, r)
    ensures |after| <= Load(m) + 19 * Count(after, IsCall) + 5 * Wakeups(m, after)
    ensures AtRest(r) ==> r.spine == [] && r.head == None && r.dequeued == r.enqueued
    ensures AtRest(r) ==> HandedOut(s, before + after) == LinkOrder(s, map[], before + after)
    ensures AtRest(r) ==> forall v :: multiset(HandedOut(s, before + after))[v]
                                      == CallsOf(before + after, v)
  {
    InitInvariant(s);
    Always(s, before, m);
    Always(m, after, r);
    SameThreads(s, before, m);
    SameThreads(m, after, r);
    RunsSettle(m, after, r);
    if AtRest(r) {
      RestingThreads(r);
      RestingList(r);
      ReachesAppend(s, before, m, after, r);
      AllReturned(s, before + after, r);
    }
  }

  lemma {:induction false} ReachesAppend(s: State, first: seq<Action>, m: State,
                                         second: seq<Action>, r: State)
    requires Reaches(s, first, m) && Reaches(m, second, r)
    ensures Reaches(s, first + second, r)
    decreases |first|
  {
    if first == [] {
      assert first + second == second;
    } else {
      ReachesAppend(Apply(s, first[0]), first[1..], m, second, r);
      assert (first + second)[1..] == first[1..] + second;
    }
  }

  /** When nobody is inside and everything linked in was taken out, all has been returned. */
  lemma AllReturned(s: State, actions: seq<Action>, r: State)
    requires Init(s) && Reaches(s, actions, r)
    requires r.mutex == None && r.dequeued == r.enqueued
    requires forall i :: 0 <= i < |r.producers| ==> r.producers[i] == Away
    ensures HandedOut(s, actions) == LinkOrder(s, map[], actions)
    ensures forall v :: multiset(HandedOut(s, actions))[v] == CallsOf(actions, v)
  {
    LinksInOrder(s, actions, r);
    HandsOutInOrder(s, actions, r);
    forall v ensures multiset(r.enqueued)[v] == CallsOf(actions, v) {
      CallsAreLinked(s, actions, r, v);
      NothingUnderway(r, v);
    }
  }

  lemma NothingUnderway(s: State, v: Socket)
    requires forall i :: 0 <= i < |s.producers| ==> s.producers[i] == Away
    ensures Underway(s, v) == 0
  {
    CountNone(Carried(s), IsSocket(v));
  }

  lemma {:induction false} SameThreads(s: State, actions: seq<Action>, r: State)
    requires Reaches(s, actions, r)
    ensures |r.consumers| == |s.consumers|
    decreases |actions|
  {
    if actions != [] {
      SameThreads(Apply(s, actions[0]), actions[1..], r);
    }
  }

  /** While a client waits in the list, somebody can go on. */
  lemma WaitingClientMoves(s: State, actions: seq<Action>, r: State) returns (x: Action)
    requires Init(s) && |s.consumers| > 0 && Reaches(s, actions, r) && r.spine != []
    ensures OwnSteps(r, x)
  {
    RestsOnlyWhenDone(s, actions, r, [], r);
    x :| OwnSteps(r, x);
  }
}
