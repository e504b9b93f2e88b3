/** The first version's client queue seen by its callers: what enqueue was called with, and
    what dequeue returned. */
module QueueCalls {
  import opened ClientQueue
  import opened Options
  import opened Sequences

  // ---------------------------------------------------------------- calls of enqueue

  predicate Calls(x: Action, v: Socket) {
    x.Enqueue? && x.socket == v
  }

  function CallsWith(v: Socket): Action -> bool {
    (x: Action) => Calls(x, v)
  }

  /** How often a run calls enqueue with `v`. */
  function CallsOf(actions: seq<Action>, v: Socket): nat {
    Count(actions, CallsWith(v))
  }

  /** The socket in a node that its producer still owns alone. */
  function SocketIn(heap: map<Addr, Node>, p: Producer): Option<Socket> {
    match OwnedByProducer(p)
    case None => None
    case Some(a) => if a in heap then Some(heap[a].socket) else None
  }

  /** For each producer the socket it has not linked in yet. */
  function Carried(s: State): (c: seq<Option<Socket>>)
    ensures |c| == |s.producers|
    ensures forall i :: 0 <= i < |c| ==> c[i] == SocketIn(s.heap, s.producers[i])
  {
    seq(|s.producers|, i requires 0 <= i < |s.producers| => SocketIn(s.heap, s.producers[i]))
  }

  function IsSocket(v: Socket): Option<Socket> -> bool {
    (o: Option<Socket>) => o == Some(v)
  }

  function Underway(s: State, v: Socket): nat {
    Count(Carried(s), IsSocket(v))
  }

  predicate Links(s: State, x: Action) {
    x.ProducerStep? && x.i < |s.producers|
    && (s.producers[x.i].LinkingFirst? || s.producers[x.i].LinkingNext?)
  }

  /** A call takes up a socket. */
  lemma CallCarries(s: State, i: nat, v: Socket, a: Addr)
    requires ListInvariant(s) && Enabled(s, Enqueue(i, v, a))
    ensures Carried(Apply(s, Enqueue(i, v, a))) == Carried(s)[i := Some(v)] && Carried(s)[i] == None
  {
    var s' := Apply(s, Enqueue(i, v, a));
    forall k | 0 <= k < |s.producers| && k != i ensures Carried(s')[k] == Carried(s)[k] {
      assert PrivateNode(s, OwnedByProducer(s.producers[k]));
    }
  }

  /** Linking in appends the socket that was carried. */
  lemma LinkDelivers(s: State, i: nat, woken: nat)
    requires ListInvariant(s) && Enabled(s, ProducerStep(i, woken)) && Links(s, ProducerStep(i, woken))
    ensures var s' := StepProducer(s, i, woken);
      && Carried(s)[i].Some? && Carried(s') == Carried(s)[i := None]
      && s'.enqueued == s.enqueued + [Carried(s)[i].value]
  {
    var s' := StepProducer(s, i, woken);
    assert PrivateNode(s, OwnedByProducer(s.producers[i]));
    forall k | 0 <= k < |s.producers| && k != i ensures Carried(s')[k] == Carried(s)[k] {
      assert s'.producers[k] == s.producers[k];
    }
  }

  lemma ProducerCarries(s: State, i: nat, woken: nat)
    requires Enabled(s, ProducerStep(i, woken)) && !Links(s, ProducerStep(i, woken))
    ensures var s' := StepProducer(s, i, woken);
      Carried(s') == Carried(s) && s'.enqueued == s.enqueued
  {
    var s' := StepProducer(s, i, woken);
    assert SocketIn(s'.heap, s'.producers[i]) == SocketIn(s.heap, s.producers[i]);
  }

  lemma ConsumerCarries(s: State, j: nat)
    requires ListInvariant(s) && Enabled(s, ConsumerStep(j))
    ensures var s' := StepConsumer(s, j); Carried(s') == Carried(s) && s'.enqueued == s.enqueued
  {
    if s.consumers[j].Freeing? {
      FreeingCarries(s, j);
    }
  }

  lemma FreeingCarries(s: State, j: nat)
    requires Private(s) && Enabled(s, ConsumerStep(j)) && s.consumers[j].Freeing?
    ensures Carried(StepConsumer(s, j)) == Carried(s)
  {
    var s', temp := StepConsumer(s, j), s.consumers[j].temp;
    assert OwnedByConsumer(s.consumers[j]) == Some(temp);
    forall k | 0 <= k < |s.producers| ensures Carried(s')[k] == Carried(s)[k] {
      assert PrivateNode(s, OwnedByProducer(s.producers[k]));
      assert OwnedByProducer(s.producers[k]) != Some(temp);
    }
  }

  /** Every other step leaves alone what is carried and what was linked in. */
  lemma OthersCarry(s: State, x: Action)
    requires ListInvariant(s) && Enabled(s, x) && !x.Enqueue? && !Links(s, x)
    ensures Carried(Apply(s, x)) == Carried(s) && Apply(s, x).enqueued == s.enqueued
  {
    if x.ProducerStep? {
      ProducerCarries(s, x.i, x.woken);
    } else {
      ConsumerCarries(s, x.j);
    }
  }

  lemma CountAppend(q: seq<Socket>, x: Socket, v: Socket)
    ensures multiset(q + [x])[v] == multiset(q)[v] + if x == v then 1 else 0
  {
  }

  lemma StepAnswersCalls(s: State, x: Action, v: Socket)
    requires ListInvariant(s) && Enabled(s, x)
    ensures multiset(Apply(s, x).enqueued)[v] + Underway(Apply(s, x), v)
         == multiset(s.enqueued)[v] + Underway(s, v) + if Calls(x, v) then 1 else 0
  {
    if x.Enqueue? {
      CallCarries(s, x.i, x.socket, x.addr);
      CountUpdate(Carried(s), IsSocket(v), x.i, Some(x.socket));
    } else if Links(s, x) {
      LinkDelivers(s, x.i, x.woken);
      CountUpdate(Carried(s), IsSocket(v), x.i, None);
      CountAppend(s.enqueued, Carried(s)[x.i].value, v);
    } else {
      OthersCarry(s, x);
    }
  }

  lemma {:induction false} RunAnswersCalls(s: State, actions: seq<Action>, r: State, v: Socket)
    requires Invariant(s) && Reaches(s, actions, r)
    ensures multiset(r.enqueued)[v] + Underway(r, v)
         == multiset(s.enqueued)[v] + Underway(s, v) + CallsOf(actions, v)
    decreases |actions|
  {
    if actions != [] {
      StepAnswersCalls(s, actions[0], v);
      InvariantKept(s, actions[0]);
      RunAnswersCalls(Apply(s, actions[0]), actions[1..], r, v);
    }
  }

  /** In every interleaving the socket of each call of enqueue has been linked in, once, or
      is still carried by its caller. */
  lemma CallsAreLinked(s: State, actions: seq<Action>, r: State, v: Socket)
    requires Init(s) && Reaches(s, actions, r)
    ensures CallsOf(actions, v) == multiset(r.enqueued)[v] + Underway(r, v)
  {
    InitInvariant(s);
    CountNone(Carried(s), IsSocket(v));
    RunAnswersCalls(s, actions, r, v);
  }

  // ---------------------------------------------------------------- the order of linking

  /** The sockets of the calls in the order in which their nodes are linked in; `calls` is
      what each producer was last called with. */
  function LinkOrder(s: State, calls: map<nat, Socket>, actions: seq<Action>): seq<Socket>
    decreases |actions|
  {
    if actions == [] || !Enabled(s, actions[0]) then []
    else
      LinkedBy(s, calls, actions[0])
      + LinkOrder(Apply(s, actions[0]), CalledWith(calls, actions[0]), actions[1..])
  }

  function CalledWith(calls: map<nat, Socket>, x: Action): map<nat, Socket> {
    if x.Enqueue? then calls[x.i := x.socket] else calls
  }

  function LinkedBy(s: State, calls: map<nat, Socket>, x: Action): seq<Socket> {
    if Links(s, x) && x.i in calls then [calls[x.i]] else []
  }

  /** What a producer carries is what it was last called with. */
  ghost predicate CarriesCalls(s: State, calls: map<nat, Socket>) {
    forall i :: 0 <= i < |s.producers| && Carried(s)[i].Some? ==>
      i in calls && calls[i] == Carried(s)[i].value
  }

  lemma CarriesKept(s: State, x: Action, calls: map<nat, Socket>)
    requires ListInvariant(s) && Enabled(s, x) && CarriesCalls(s, calls)
    ensures CarriesCalls(Apply(s, x), CalledWith(calls, x))
    ensures Apply(s, x).enqueued == s.enqueued + LinkedBy(s, calls, x)
  {
    if x.Enqueue? {
      CallCarries(s, x.i, x.socket, x.addr);
    } else if Links(s, x) {
      LinkDelivers(s, x.i, x.woken);
    } else {
      OthersCarry(s, x);
    }
  }

  lemma {:induction false} RunLinksInOrder(s: State, calls: map<nat, Socket>, actions: seq<Action>,
                                           r: State)
    requires Invariant(s) && Reaches(s, actions, r) && CarriesCalls(s, calls)
    ensures r.enqueued == s.enqueued + LinkOrder(s, calls, actions)
    decreases |actions|
  {
    if actions != [] {
      var x := actions[0];
      var s', calls' := Apply(s, x), CalledWith(calls, x);
      CarriesKept(s, x, calls);
      InvariantKept(s, x);
      RunLinksInOrder(s', calls', actions[1..], r);
      Regroup(s.enqueued, LinkedBy(s, calls, x), LinkOrder(s', calls', actions[1..]));
    }
  }

  lemma Regroup(a: seq<Socket>, b: seq<Socket>, c: seq<Socket>)
    ensures (a + b) + c == a + (b + c)
  {
  }

  // ---------------------------------------------------------------- what dequeue returns

  /** The sockets that calls of dequeue return, in order. */
  function HandedOut(s: State, actions: seq<Action>): seq<Socket>
    decreases |actions|
  {
    if actions == [] || !Enabled(s, actions[0]) then []
    else Returns(s, actions[0]) + HandedOut(Apply(s, actions[0]), actions[1..])
  }

  function Returns(s: State, x: Action): seq<Socket>
    requires Enabled(s, x)
  {
    if x.ConsumerStep? && s.consumers[x.j].Returning? then [s.consumers[x.j].socket] else []
  }

  predicate HasTaken(c: Consumer) {
    c.FixingTail? || c.Freeing? || c.Returning?
  }

  /** The socket taken out of the list and not returned yet. */
  function InHand(s: State): seq<Socket> {
    match s.mutex
    case Some(C(j)) =>
      if j < |s.consumers| && HasTaken(s.consumers[j]) then [s.consumers[j].socket] else []
    case _ => []
  }

  lemma StepHandsOut(s: State, x: Action, past: seq<Socket>)
    requires Exclusion(s) && Enabled(s, x) && s.dequeued == past + InHand(s)
    ensures Apply(s, x).dequeued == past + Returns(s, x) + InHand(Apply(s, x))
  {
    HolderOnly(s);
    if x.ConsumerStep? && ConsumerHolds(s.consumers[x.j]) {
      assert s.mutex == Some(C(x.j));
    } else if x.ProducerStep? && ProducerHolds(s.producers[x.i]) {
      assert s.mutex == Some(P(x.i));
    }
  }

  lemma {:induction false} RunHandsOut(s: State, actions: seq<Action>, r: State, past: seq<Socket>)
    requires Invariant(s) && Reaches(s, actions, r) && s.dequeued == past + InHand(s)
    ensures r.dequeued == past + HandedOut(s, actions) + InHand(r)
    decreases |actions|
  {
    if actions != [] {
      var x := actions[0];
      var s' := Apply(s, x);
      StepHandsOut(s, x, past);
      InvariantKept(s, x);
      RunHandsOut(s', actions[1..], r, past + Returns(s, x));
      Regroup(past, Returns(s, x), HandedOut(s', actions[1..]));
    }
  }

  /** In every interleaving: the calls of dequeue return, in order, a prefix of the sockets
      that enqueue was called with, in the order in which their nodes were linked in; what is
      linked in and not returned is in the list, or in the hands of one consumer. */
  lemma ReturnsInOrder(s: State, actions: seq<Action>, r: State)
    requires Init(s) && Reaches(s, actions, r)
    ensures Chain(r)
    ensures LinkOrder(s, map[], actions)
         == HandedOut(s, actions) + InHand(r) + Values(r.heap, r.spine)
    ensures r.enqueued == LinkOrder(s, map[], actions)
    ensures r.dequeued == HandedOut(s, actions) + InHand(r)
  {
    RefinesFifo(s, actions, r);
    LinksInOrder(s, actions, r);
    HandsOutInOrder(s, actions, r);
  }

  lemma LinksInOrder(s: State, actions: seq<Action>, r: State)
    requires Init(s) && Reaches(s, actions, r)
    ensures r.enqueued == LinkOrder(s, map[], actions)
  {
    InitInvariant(s);
    RunLinksInOrder(s, map[], actions, r);
    assert [] + LinkOrder(s, map[], actions) == LinkOrder(s, map[], actions);
  }

  lemma HandsOutInOrder(s: State, actions: seq<Action>, r: State)
    requires Init(s) && Reaches(s, actions, r)
    ensures r.dequeued == HandedOut(s, actions) + InHand(r)
  {
    InitInvariant(s);
    RunHandsOut(s, actions, r, []);
    assert [] + HandedOut(s, actions) == HandedOut(s, actions);
  }
}
