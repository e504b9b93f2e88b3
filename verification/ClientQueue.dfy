/** The first version's linked client queue under every interleaving: enqueue and dequeue
    as single statements over a heap of nodes, one mutex and one condition variable. */
module ClientQueue {
  import opened Options
  import opened Sequences

  type Addr = nat
  type Socket = int

  datatype Node = Node(socket: Socket, next: Option<Addr>)

  // ---------------------------------------------------------------- the machine

  /** Program counter of a thread that calls enqueue; `a` is its new node. */
  datatype Producer =
    | Away
    | Prepared(a: Addr)   // node filled in, about to lock
    | TestingTail(a: Addr)
    | LinkingFirst(a: Addr)
    | LinkingNext(a: Addr)
    | SettingTail(a: Addr)
    | Signalling
    | Releasing

  /** Program counter of a thread that calls dequeue; `temp` is the node it takes out. */
  datatype Consumer =
    | Busy                // not in dequeue
    | Locking
    | TestingHead
    | Asleep
    | Woken
    | Reading
    | Advancing(temp: Addr, socket: Socket)
    | FixingTail(temp: Addr, socket: Socket)
    | Freeing(temp: Addr, socket: Socket)
    | Returning(socket: Socket)

  datatype Thread = P(i: nat) | C(j: nat)

  datatype State = State(
    producers: seq<Producer>,
    consumers: seq<Consumer>,
    heap: map<Addr, Node>,
    head: Option<Addr>,
    tail: Option<Addr>,
    mutex: Option<Thread>,
    // history
    spine: seq<Addr>,        // the nodes linked in, front to back
    enqueued: seq<Socket>,
    dequeued: seq<Socket>
  )

  predicate Init(s: State) {
    && (forall i :: 0 <= i < |s.producers| ==> s.producers[i] == Away)
    && (forall j :: 0 <= j < |s.consumers| ==> s.consumers[j] == Busy)
    && s.heap == map[] && s.head == None && s.tail == None && s.mutex == None
    && s.spine == [] && s.enqueued == [] && s.dequeued == []
  }

  datatype Action =
    | Enqueue(i: nat, socket: Socket, addr: Addr)   // malloc may return any free address
    | ProducerStep(i: nat, woken: nat)              // `woken` is whom a signal wakes
    | ConsumerStep(j: nat)

  predicate SomeAsleep(s: State) {
    exists j :: 0 <= j < |s.consumers| && s.consumers[j] == Asleep
  }

  /** When a thread can take its next step: the mutex is free where it locks, and every
      pointer it follows points to an allocated node. */
  predicate Enabled(s: State, x: Action) {
    match x
    case Enqueue(i, _, a) => i < |s.producers| && s.producers[i] == Away && a !in s.heap
    case ProducerStep(i, woken) => i < |s.producers| && ProducerEnabled(s, s.producers[i], woken)
    case ConsumerStep(j) => j < |s.consumers| && ConsumerEnabled(s, s.consumers[j])
  }

  predicate ProducerEnabled(s: State, p: Producer, woken: nat) {
    match p
    case Away => false
    case Prepared(_) => s.mutex == None
    case LinkingNext(_) => s.tail.Some? && s.tail.value in s.heap
    case Signalling => SomeAsleep(s) ==> woken < |s.consumers| && s.consumers[woken] == Asleep
    case _ => true
  }

  predicate ConsumerEnabled(s: State, c: Consumer) {
    match c
    case Locking => s.mutex == None
    case Woken => s.mutex == None
    case Reading => s.head.Some? && s.head.value in s.heap
    case Advancing(_, _) => s.head.Some? && s.head.value in s.heap && s.spine != []
    case Freeing(temp, _) => temp in s.heap
    case _ => true
  }

  function StepProducer(s: State, i: nat, woken: nat): State
    requires Enabled(s, ProducerStep(i, woken))
  {
    match s.producers[i]
    case Prepared(a) => s.(producers := s.producers[i := TestingTail(a)], mutex := Some(P(i)))
    case TestingTail(a) =>
      s.(producers := s.producers[i := if s.tail == None then LinkingFirst(a) else LinkingNext(a)])
    case LinkingFirst(a) =>
      Linked(s, i, a).(head := Some(a))
    case LinkingNext(a) =>
      var t := s.tail.value;
      Linked(s, i, a).(heap := s.heap[t := s.heap[t].(next := Some(a))])
    case SettingTail(a) => s.(producers := s.producers[i := Signalling], tail := Some(a))
    case Signalling =>
      s.(producers := s.producers[i := Releasing],
         consumers := if SomeAsleep(s) then s.consumers[woken := Woken] else s.consumers)
    case Releasing => s.(producers := s.producers[i := Away], mutex := None)
  }

  function Linked(s: State, i: nat, a: Addr): State
    requires i < |s.producers|
  {
    s.(producers := s.producers[i := SettingTail(a)], spine := s.spine + [a],
       enqueued := s.enqueued + if a in s.heap then [s.heap[a].socket] else [])
  }

  function StepConsumer(s: State, j: nat): State
    requires Enabled(s, ConsumerStep(j))
  {
    match s.consumers[j]
    case Busy => s.(consumers := s.consumers[j := Locking])
    case Locking => s.(consumers := s.consumers[j := TestingHead], mutex := Some(C(j)))
    case TestingHead =>
      if s.head == None then s.(consumers := s.consumers[j := Asleep], mutex := None)
      else s.(consumers := s.consumers[j := Reading])
    case Asleep => s.(consumers := s.consumers[j := Woken])  // a spurious wakeup
    case Woken => s.(consumers := s.consumers[j := TestingHead], mutex := Some(C(j)))
    case Reading =>
      s.(consumers := s.consumers[j := Advancing(s.head.value, s.heap[s.head.value].socket)])
    case Advancing(temp, v) =>
      s.(consumers := s.consumers[j := FixingTail(temp, v)], head := s.heap[s.head.value].next,
         spine := s.spine[1..], dequeued := s.dequeued + [v])
    case FixingTail(temp, v) =>
      s.(consumers := s.consumers[j := Freeing(temp, v)],
         tail := if s.head == None then None else s.tail)
    case Freeing(temp, v) =>
      s.(consumers := s.consumers[j := Returning(v)], heap := s.heap - {temp})
    case Returning(_) => s.(consumers := s.consumers[j := Busy], mutex := None)
  }

  function Apply(s: State, x: Action): State
    requires Enabled(s, x)
  {
    match x
    case Enqueue(i, socket, a) =>
      s.(producers := s.producers[i := Prepared(a)], heap := s.heap[a := Node(socket, None)])
    case ProducerStep(i, woken) => StepProducer(s, i, woken)
    case ConsumerStep(j) => StepConsumer(s, j)
  }

  ghost predicate Reaches(s: State, actions: seq<Action>, r: State)
    decreases |actions|
  {
    if actions == [] then r == s
    else Enabled(s, actions[0]) && Reaches(Apply(s, actions[0]), actions[1..], r)
  }

  // ---------------------------------------------------------------- mutual exclusion

  predicate ProducerHolds(p: Producer) {
    !p.Away? && !p.Prepared?
  }

  predicate ConsumerHolds(c: Consumer) {
    c == TestingHead || c == Reading || c.Advancing? || c.FixingTail? || c.Freeing? || c.Returning?
  }

  predicate Exclusion(s: State) {
    && (forall i :: 0 <= i < |s.producers| ==>
          (ProducerHolds(s.producers[i]) <==> s.mutex == Some(P(i))))
    && (forall j :: 0 <= j < |s.consumers| ==>
          (ConsumerHolds(s.consumers[j]) <==> s.mutex == Some(C(j))))
    && (s.mutex.Some? ==> match s.mutex.value
          case P(i) => i < |s.producers|
          case C(j) => j < |s.consumers|)
  }

  lemma ExclusionKeptByProducer(s: State, i: nat, woken: nat)
    requires Exclusion(s) && Enabled(s, ProducerStep(i, woken))
    ensures Exclusion(StepProducer(s, i, woken))
  {
    assert ProducerHolds(s.producers[i]) ==> s.mutex == Some(P(i));
  }

  lemma ExclusionKeptByConsumer(s: State, j: nat)
    requires Exclusion(s) && Enabled(s, ConsumerStep(j))
    ensures Exclusion(StepConsumer(s, j))
  {
    assert ConsumerHolds(s.consumers[j]) ==> s.mutex == Some(C(j));
  }

  lemma ExclusionKept(s: State, x: Action)
    requires Exclusion(s) && Enabled(s, x)
    ensures Exclusion(Apply(s, x))
  {
    match x {
      case Enqueue(i, _, _) =>
      case ProducerStep(i, woken) => ExclusionKeptByProducer(s, i, woken);
      case ConsumerStep(j) => ExclusionKeptByConsumer(s, j);
    }
  }

  // ---------------------------------------------------------------- the linked list

  function Successor(spine: seq<Addr>, k: nat): Option<Addr> {
    if k + 1 < |spine| then Some(spine[k + 1]) else None
  }

  /** `head` starts the chain of nodes `spine`, which ends in a null pointer. */
  ghost predicate Chained(heap: map<Addr, Node>, head: Option<Addr>, spine: seq<Addr>) {
    && Distinct(spine)
    && (forall k :: 0 <= k < |spine| ==> spine[k] in heap)
    && (forall k :: 0 <= k < |spine| ==> heap[spine[k]].next == Successor(spine, k))
    && head == if spine == [] then None else Some(spine[0])
  }

  ghost predicate Chain(s: State) {
    Chained(s.heap, s.head, s.spine)
  }

  /** The sockets in the list, front to back. */
  function Values(heap: map<Addr, Node>, spine: seq<Addr>): (v: seq<Socket>)
    requires forall k :: 0 <= k < |spine| ==> spine[k] in heap
    ensures |v| == |spine| && forall k :: 0 <= k < |v| ==> v[k] == heap[spine[k]].socket
  {
    seq(|spine|, k requires 0 <= k < |spine| => heap[spine[k]].socket)
  }

  lemma ChainedElsewhere(heap: map<Addr, Node>, heap': map<Addr, Node>, head: Option<Addr>,
                         spine: seq<Addr>)
    requires Chained(heap, head, spine)
    requires forall k :: 0 <= k < |spine| ==> spine[k] in heap' && heap'[spine[k]] == heap[spine[k]]
    ensures Chained(heap', head, spine) && Values(heap', spine) == Values(heap, spine)
  {
  }

  lemma ChainedFirst(heap: map<Addr, Node>, a: Addr)
    requires a in heap && heap[a].next == None
    ensures Chained(heap, Some(a), [a]) && Values(heap, [a]) == [heap[a].socket]
  {
  }

  lemma ChainedLink(heap: map<Addr, Node>, head: Option<Addr>, spine: seq<Addr>, a: Addr)
    requires Chained(heap, head, spine) && spine != []
    requires a in heap && a !in spine && heap[a].next == None
    ensures var t := spine[|spine| - 1]; var heap' := heap[t := heap[t].(next := Some(a))];
      Chained(heap', head, spine + [a])
      && Values(heap', spine + [a]) == Values(heap, spine) + [heap[a].socket]
  {
    var t := spine[|spine| - 1];
    assert a != t;
    assert forall k :: 0 <= k < |spine| - 1 ==> spine[k] != t;
  }

  lemma ChainedAdvance(heap: map<Addr, Node>, head: Option<Addr>, spine: seq<Addr>)
    requires Chained(heap, head, spine) && spine != []
    ensures Chained(heap, heap[spine[0]].next, spine[1..]) && spine[0] !in spine[1..]
    ensures Values(heap, spine) == [heap[spine[0]].socket] + Values(heap, spine[1..])
  {
    var rest := spine[1..];
    forall k | 0 <= k < |rest| ensures heap[rest[k]].next == Successor(rest, k) {
      assert rest[k] == spine[k + 1];
    }
    assert heap[spine[0]].next == Successor(spine, 0);
  }

  function LastOf(spine: seq<Addr>): Option<Addr> {
    if spine == [] then None else Some(spine[|spine| - 1])
  }

  /** Whose turn it is in a critical section, as far as the tail pointer is concerned. */
  function ExpectedTail(s: State): Option<Addr> {
    match s.mutex
    case Some(P(i)) =>
      if i < |s.producers| && s.producers[i].SettingTail? && s.spine != []
      then LastOf(s.spine[..|s.spine| - 1]) else LastOf(s.spine)
    case Some(C(j)) =>
      if j < |s.consumers| && s.consumers[j].FixingTail? && s.spine == []
      then Some(s.consumers[j].temp) else LastOf(s.spine)
    case None => LastOf(s.spine)
  }

  /** The node a producer still owns alone, or a consumer has taken out. */
  function OwnedByProducer(p: Producer): Option<Addr> {
    if p.Prepared? || p.TestingTail? || p.LinkingFirst? || p.LinkingNext? then Some(p.a) else None
  }

  function OwnedByConsumer(c: Consumer): Option<Addr> {
    if c.FixingTail? || c.Freeing? then Some(c.temp) else None
  }

  predicate PrivateNode(s: State, o: Option<Addr>) {
    o.Some? ==> o.value in s.heap && o.value !in s.spine
  }

  predicate FreshNode(s: State, o: Option<Addr>) {
    o.Some? ==> o.value in s.heap && s.heap[o.value].next == None
  }

  /** Nodes outside the list belong to one thread each. */
  ghost predicate Private(s: State) {
    && (forall i :: 0 <= i < |s.producers| ==>
          PrivateNode(s, OwnedByProducer(s.producers[i]))
          && FreshNode(s, OwnedByProducer(s.producers[i])))
    && (forall j :: 0 <= j < |s.consumers| ==> PrivateNode(s, OwnedByConsumer(s.consumers[j])))
    && (forall i, k :: 0 <= i < k < |s.producers| && OwnedByProducer(s.producers[i]).Some? ==>
          OwnedByProducer(s.producers[i]) != OwnedByProducer(s.producers[k]))
    && (forall i, j :: 0 <= i < |s.producers| && 0 <= j < |s.consumers| ==>
          OwnedByProducer(s.producers[i]).Some? ==>
          OwnedByProducer(s.producers[i]) != OwnedByConsumer(s.consumers[j]))
  }

  /** What a thread inside its critical section knows. */
  predicate ProducerKnows(s: State, p: Producer) {
    && (p.LinkingFirst? ==> s.spine == [])
    && (p.LinkingNext? ==> s.spine != [])
    && (p.SettingTail? ==> s.spine != [] && s.spine[|s.spine| - 1] == p.a)
  }

  predicate ConsumerKnows(s: State, c: Consumer) {
    && (c == Reading ==> s.spine != [])
    && (c.Advancing? ==> s.spine != [] && s.spine[0] == c.temp && c.temp in s.heap
                         && s.heap[c.temp].socket == c.socket)
  }

  predicate Knowledge(s: State) {
    && (forall i :: 0 <= i < |s.producers| ==> ProducerKnows(s, s.producers[i]))
    && (forall j :: 0 <= j < |s.consumers| ==> ConsumerKnows(s, s.consumers[j]))
  }

  ghost predicate Fifo(s: State)
    requires Chain(s)
  {
    s.enqueued == s.dequeued + Values(s.heap, s.spine)
  }

  ghost predicate ListInvariant(s: State) {
    Exclusion(s) && Chain(s) && s.tail == ExpectedTail(s) && Private(s) && Knowledge(s) && Fifo(s)
  }

  /** The mutex holder is the only thread whose counter matters for the tail. */
  lemma HolderOnly(s: State)
    requires Exclusion(s)
    ensures forall i :: 0 <= i < |s.producers| && ProducerHolds(s.producers[i]) ==>
              s.mutex == Some(P(i))
    ensures forall j :: 0 <= j < |s.consumers| && ConsumerHolds(s.consumers[j]) ==>
              s.mutex == Some(C(j))
  {
  }

  /** The new node becomes the last one of the chain. */
  lemma LinkingList(s: State, i: nat, woken: nat)
    requires ListInvariant(s) && Enabled(s, ProducerStep(i, woken))
    requires s.producers[i].LinkingFirst? || s.producers[i].LinkingNext?
    ensures Chain(StepProducer(s, i, woken)) && Fifo(StepProducer(s, i, woken))
  {
    assert OwnedByProducer(s.producers[i]) == Some(s.producers[i].a);
    assert ProducerKnows(s, s.producers[i]);
    if s.producers[i].LinkingFirst? {
      LinkedFirstList(s, i, s.producers[i].a);
    } else {
      assert s.mutex == Some(P(i));
      LinkedNextList(s, i, woken, s.producers[i].a);
    }
  }

  lemma LinkedFirstList(s: State, i: nat, a: Addr)
    requires Chain(s) && Fifo(s) && i < |s.producers| && s.spine == []
    requires a in s.heap && s.heap[a].next == None
    ensures var s' := Linked(s, i, a).(head := Some(a)); Chain(s') && Fifo(s')
  {
    ChainedFirst(s.heap, a);
    assert s.spine + [a] == [a];
  }

  lemma LinkedNextList(s: State, i: nat, woken: nat, a: Addr)
    requires Chain(s) && Fifo(s) && Enabled(s, ProducerStep(i, woken))
    requires s.producers[i] == LinkingNext(a) && s.spine != []
    requires a in s.heap && a !in s.spine && s.heap[a].next == None
    requires s.tail == LastOf(s.spine)
    ensures Chain(StepProducer(s, i, woken)) && Fifo(StepProducer(s, i, woken))
  {
    ChainedLink(s.heap, s.head, s.spine, a);
    FifoLink(s.enqueued, s.dequeued, Values(s.heap, s.spine), s.heap[a].socket);
  }

  /** A socket linked in at the end keeps the order. */
  lemma FifoLink(enqueued: seq<Socket>, dequeued: seq<Socket>, values: seq<Socket>, v: Socket)
    requires enqueued == dequeued + values
    ensures enqueued + [v] == dequeued + (values + [v])
  {
  }

  lemma LinkingPrivate(s: State, i: nat, woken: nat)
    requires ListInvariant(s) && Enabled(s, ProducerStep(i, woken))
    requires s.producers[i].LinkingFirst? || s.producers[i].LinkingNext?
    ensures Private(StepProducer(s, i, woken))
  {
    var a, s' := s.producers[i].a, StepProducer(s, i, woken);
    assert OwnedByProducer(s.producers[i]) == Some(a);
    assert s.mutex == Some(P(i)) && ProducerKnows(s, s.producers[i]);
    assert forall x :: x in s'.spine <==> x in s.spine || x == a;
  }

  lemma LinkingKnown(s: State, i: nat, woken: nat)
    requires Exclusion(s) && Knowledge(s) && Enabled(s, ProducerStep(i, woken))
    requires s.producers[i].LinkingFirst? || s.producers[i].LinkingNext?
    ensures Knowledge(StepProducer(s, i, woken))
  {
    HolderOnly(s);
    assert s.mutex == Some(P(i));
  }

  lemma LinkingTail(s: State, i: nat, woken: nat)
    requires Exclusion(s) && s.tail == ExpectedTail(s) && Enabled(s, ProducerStep(i, woken))
    requires s.producers[i].LinkingFirst? || s.producers[i].LinkingNext?
    ensures var s' := StepProducer(s, i, woken); s'.tail == ExpectedTail(s')
  {
    var s' := StepProducer(s, i, woken);
    assert s.mutex == Some(P(i));
    assert s'.spine[..|s'.spine| - 1] == s.spine;
  }

  lemma LinkingKept(s: State, i: nat, woken: nat)
    requires ListInvariant(s) && Enabled(s, ProducerStep(i, woken))
    requires s.producers[i].LinkingFirst? || s.producers[i].LinkingNext?
    ensures ListInvariant(StepProducer(s, i, woken))
  {
    ExclusionKept(s, ProducerStep(i, woken));
    LinkingList(s, i, woken);
    LinkingPrivate(s, i, woken);
    LinkingKnown(s, i, woken);
    LinkingTail(s, i, woken);
  }

  lemma ProducerKept(s: State, i: nat, woken: nat)
    requires ListInvariant(s) && Enabled(s, ProducerStep(i, woken))
    ensures ListInvariant(StepProducer(s, i, woken))
  {
    if s.producers[i].LinkingFirst? || s.producers[i].LinkingNext? {
      LinkingKept(s, i, woken);
    } else {
      ProducerMoves(s, i, woken);
    }
  }

  /** Memory and list as before, and every thread owns what it owned or less. */
  ghost predicate Quiet(s: State, s': State) {
    && s'.heap == s.heap && s'.spine == s.spine && s'.head == s.head
    && s'.enqueued == s.enqueued && s'.dequeued == s.dequeued
    && |s'.producers| == |s.producers| && |s'.consumers| == |s.consumers|
    && (forall i :: 0 <= i < |s.producers| ==>
          OwnedByProducer(s'.producers[i]) == None
          || OwnedByProducer(s'.producers[i]) == OwnedByProducer(s.producers[i]))
    && (forall j :: 0 <= j < |s.consumers| ==>
          OwnedByConsumer(s'.consumers[j]) == None
          || OwnedByConsumer(s'.consumers[j]) == OwnedByConsumer(s.consumers[j]))
  }

  lemma QuietKeeps(s: State, s': State)
    requires Quiet(s, s') && Chain(s) && Private(s) && Fifo(s)
    ensures Chain(s') && Private(s') && Fifo(s')
  {
  }

  /** The remaining steps change only counters, the mutex and the tail pointer. */
  lemma ProducerMoves(s: State, i: nat, woken: nat)
    requires ListInvariant(s) && Enabled(s, ProducerStep(i, woken))
    requires !s.producers[i].LinkingFirst? && !s.producers[i].LinkingNext?
    ensures ListInvariant(StepProducer(s, i, woken))
  {
    ExclusionKept(s, ProducerStep(i, woken));
    var s' := StepProducer(s, i, woken);
    assert Quiet(s, s');
    QuietKeeps(s, s');
    ProducerMovesKnown(s, i, woken);
  }

  lemma ProducerMovesKnown(s: State, i: nat, woken: nat)
    requires Exclusion(s) && Knowledge(s) && Enabled(s, ProducerStep(i, woken))
    requires !s.producers[i].LinkingFirst? && !s.producers[i].LinkingNext?
    requires s.tail == ExpectedTail(s)
    ensures var s' := StepProducer(s, i, woken); Knowledge(s') && s'.tail == ExpectedTail(s')
  {
    HolderOnly(s);
    assert ProducerKnows(s, s.producers[i]);
  }

  /** The taken node leaves the list and belongs to the consumer. */
  lemma AdvancingPrivate(s: State, j: nat, i: nat)
    requires Chain(s) && Enabled(s, ConsumerStep(j)) && s.consumers[j].Advancing?
    requires ConsumerKnows(s, s.consumers[j]) && i < |s.producers|
    requires PrivateNode(s, OwnedByProducer(s.producers[i]))
    ensures PrivateNode(StepConsumer(s, j), OwnedByProducer(s.producers[i]))
    ensures OwnedByProducer(s.producers[i]) != Some(s.consumers[j].temp)
    ensures PrivateNode(StepConsumer(s, j), Some(s.consumers[j].temp))
  {
    ChainedAdvance(s.heap, s.head, s.spine);
    assert s.consumers[j].temp in s.spine;
    assert s.spine == [s.spine[0]] + s.spine[1..];
  }

  lemma AdvancingAllPrivate(s: State, j: nat)
    requires ListInvariant(s) && Enabled(s, ConsumerStep(j)) && s.consumers[j].Advancing?
    ensures Private(StepConsumer(s, j))
  {
    HolderOnly(s);
    forall i | 0 <= i < |s.producers|
      ensures PrivateNode(StepConsumer(s, j), OwnedByProducer(s.producers[i]))
      ensures OwnedByProducer(s.producers[i]) != Some(s.consumers[j].temp)
    {
      AdvancingPrivate(s, j, i);
    }
    assert PrivateNode(StepConsumer(s, j), Some(s.consumers[j].temp)) by {
      ChainedAdvance(s.heap, s.head, s.spine);
    }
    forall k | 0 <= k < |s.consumers| && k != j ensures OwnedByConsumer(s.consumers[k]) == None {
      assert !ConsumerHolds(s.consumers[k]);
    }
  }

  lemma AdvancingChain(s: State, j: nat)
    requires Chain(s) && Enabled(s, ConsumerStep(j)) && s.consumers[j].Advancing?
    ensures Chain(StepConsumer(s, j))
  {
    ChainedAdvance(s.heap, s.head, s.spine);
  }

  /** The first socket moves from the list to what was handed out. */
  lemma FifoAdvance(enqueued: seq<Socket>, dequeued: seq<Socket>, values: seq<Socket>, v: Socket,
                    rest: seq<Socket>)
    requires enqueued == dequeued + values && values == [v] + rest
    ensures enqueued == (dequeued + [v]) + rest
  {
  }

  lemma AdvancingList(s: State, j: nat)
    requires Chain(s) && Fifo(s) && Enabled(s, ConsumerStep(j)) && s.consumers[j].Advancing?
    requires ConsumerKnows(s, s.consumers[j])
    ensures Chain(StepConsumer(s, j)) && Fifo(StepConsumer(s, j))
  {
    AdvancingChain(s, j);
    ChainedAdvance(s.heap, s.head, s.spine);
    FifoAdvance(s.enqueued, s.dequeued, Values(s.heap, s.spine), s.consumers[j].socket,
                Values(s.heap, s.spine[1..]));
  }

  lemma AdvancingKnown(s: State, j: nat)
    requires Exclusion(s) && Enabled(s, ConsumerStep(j)) && s.consumers[j].Advancing?
    ensures Knowledge(StepConsumer(s, j))
  {
    HolderOnly(s);
  }

  lemma AdvancingTail(s: State, j: nat)
    requires Exclusion(s) && Enabled(s, ConsumerStep(j)) && s.consumers[j].Advancing?
    requires s.tail == ExpectedTail(s) && ConsumerKnows(s, s.consumers[j])
    ensures StepConsumer(s, j).tail == ExpectedTail(StepConsumer(s, j))
  {
    assert s.mutex == Some(C(j));
  }

  lemma AdvancingKept(s: State, j: nat)
    requires ListInvariant(s) && Enabled(s, ConsumerStep(j)) && s.consumers[j].Advancing?
    ensures ListInvariant(StepConsumer(s, j))
  {
    ExclusionKept(s, ConsumerStep(j));
    assert ConsumerKnows(s, s.consumers[j]);
    AdvancingAllPrivate(s, j);
    AdvancingList(s, j);
    AdvancingKnown(s, j);
    AdvancingTail(s, j);
  }

  lemma FreeingKept(s: State, j: nat)
    requires ListInvariant(s) && Enabled(s, ConsumerStep(j)) && s.consumers[j].Freeing?
    ensures ListInvariant(StepConsumer(s, j))
  {
    ExclusionKept(s, ConsumerStep(j));
    HolderOnly(s);
    assert OwnedByConsumer(s.consumers[j]) == Some(s.consumers[j].temp);
    ChainedElsewhere(s.heap, s.heap - {s.consumers[j].temp}, s.head, s.spine);
  }

  lemma ConsumerKept(s: State, j: nat)
    requires ListInvariant(s) && Enabled(s, ConsumerStep(j))
    ensures ListInvariant(StepConsumer(s, j))
  {
    if s.consumers[j].Advancing? {
      AdvancingKept(s, j);
    } else if s.consumers[j].Freeing? {
      FreeingKept(s, j);
    } else if s.consumers[j].FixingTail? {
      FixingTailKept(s, j);
    } else {
      ConsumerOnlyMoves(s, j);
    }
  }

  lemma FixingTailKept(s: State, j: nat)
    requires ListInvariant(s) && Enabled(s, ConsumerStep(j)) && s.consumers[j].FixingTail?
    ensures ListInvariant(StepConsumer(s, j))
  {
    ExclusionKept(s, ConsumerStep(j));
    HolderOnly(s);
    assert s.mutex == Some(C(j));
  }

  /** The remaining steps change only the consumer's own counter and the mutex. */
  lemma ConsumerOnlyMoves(s: State, j: nat)
    requires ListInvariant(s) && Enabled(s, ConsumerStep(j))
    requires !s.consumers[j].Advancing? && !s.consumers[j].FixingTail? && !s.consumers[j].Freeing?
    ensures ListInvariant(StepConsumer(s, j))
  {
    ExclusionKept(s, ConsumerStep(j));
    var s' := StepConsumer(s, j);
    assert Quiet(s, s');
    QuietKeeps(s, s');
    ConsumerMovesKnown(s, j);
  }

  lemma ConsumerMovesKnown(s: State, j: nat)
    requires Exclusion(s) && Knowledge(s) && Chain(s) && Enabled(s, ConsumerStep(j))
    requires !s.consumers[j].Advancing? && !s.consumers[j].FixingTail? && !s.consumers[j].Freeing?
    requires s.tail == ExpectedTail(s)
    ensures var s' := StepConsumer(s, j); Knowledge(s') && s'.tail == ExpectedTail(s')
  {
    HolderOnly(s);
    assert ConsumerKnows(s, s.consumers[j]);
  }

  lemma EnqueueKept(s: State, i: nat, socket: Socket, a: Addr)
    requires ListInvariant(s) && Enabled(s, Enqueue(i, socket, a))
    ensures ListInvariant(Apply(s, Enqueue(i, socket, a)))
  {
    ExclusionKept(s, Enqueue(i, socket, a));
    HolderOnly(s);
    ChainedElsewhere(s.heap, s.heap[a := Node(socket, None)], s.head, s.spine);
  }

  // ---------------------------------------------------------------- no lost wakeup

  /** In dequeue, awake, and not yet past taking a node. */
  predicate AwakeIdle(c: Consumer) {
    c == Locking || c == TestingHead || c == Woken || c == Reading || c.Advancing?
  }

  predicate Pending(p: Producer) {
    p.SettingTail? || p == Signalling
  }

  predicate NoLostWakeup(s: State) {
    SomeAsleep(s) ==>
      |s.spine| <= Count(s.consumers, AwakeIdle) + Count(s.producers, Pending)
  }

  lemma SleeperWasAsleep(s: State, s': State, j: nat)
    requires j < |s.consumers| == |s'.consumers|
    requires s'.consumers == s.consumers[j := s'.consumers[j]]
    requires s'.consumers[j] != Asleep && SomeAsleep(s')
    ensures SomeAsleep(s)
  {
    var k :| 0 <= k < |s'.consumers| && s'.consumers[k] == Asleep;
    assert s.consumers[k] == Asleep;
  }

  /** A consumer falls asleep only over an empty list; otherwise it takes a node out or
      stays awake. */
  lemma WakeupKeptByConsumer(s: State, j: nat)
    requires Chain(s) && NoLostWakeup(s) && Enabled(s, ConsumerStep(j))
    ensures NoLostWakeup(StepConsumer(s, j))
  {
    var s' := StepConsumer(s, j);
    if s'.consumers[j] == Asleep {
      assert s'.spine == [];
    } else if SomeAsleep(s') {
      SleeperWasAsleep(s, s', j);
      CountUpdate(s.consumers, AwakeIdle, j, s'.consumers[j]);
    }
  }

  lemma WakeupKeptByProducer(s: State, i: nat, woken: nat)
    requires ListInvariant(s) && NoLostWakeup(s) && Enabled(s, ProducerStep(i, woken))
    ensures NoLostWakeup(StepProducer(s, i, woken))
  {
    var s' := StepProducer(s, i, woken);
    CountUpdate(s.producers, Pending, i, s'.producers[i]);
    if s.producers[i] == Signalling && SomeAsleep(s) {
      CountUpdate(s.consumers, AwakeIdle, woken, Woken);
    }
  }

  // ---------------------------------------------------------------- every interleaving

  ghost predicate Invariant(s: State) {
    ListInvariant(s) && NoLostWakeup(s)
  }

  lemma InvariantKept(s: State, x: Action)
    requires Invariant(s) && Enabled(s, x)
    ensures Invariant(Apply(s, x))
  {
    match x {
      case Enqueue(i, socket, a) =>
        EnqueueKept(s, i, socket, a);
        CountUpdate(s.producers, Pending, i, Prepared(a));
      case ProducerStep(i, woken) =>
        ProducerKept(s, i, woken);
        WakeupKeptByProducer(s, i, woken);
      case ConsumerStep(j) =>
        ConsumerKept(s, j);
        WakeupKeptByConsumer(s, j);
    }
  }

  lemma {:induction false} Always(s: State, actions: seq<Action>, r: State)
    requires Invariant(s) && Reaches(s, actions, r)
    ensures Invariant(r)
    decreases |actions|
  {
    if actions != [] {
      InvariantKept(s, actions[0]);
      Always(Apply(s, actions[0]), actions[1..], r);
    }
  }

  lemma InitInvariant(s: State)
    requires Init(s)
    ensures Invariant(s)
  {
  }

  /** In every interleaving the sockets handed out are a prefix of those enqueued, the rest
      being in the list in order; and whenever nobody is inside a critical section, head is
      null exactly when tail is, and tail is the last node of the acyclic chain from head. */
  lemma RefinesFifo(s: State, actions: seq<Action>, r: State)
    requires Init(s) && Reaches(s, actions, r)
    ensures Chain(r) && r.enqueued == r.dequeued + Values(r.heap, r.spine)
    ensures r.dequeued <= r.enqueued
    ensures r.mutex == None ==> r.tail == LastOf(r.spine) && (r.head == None <==> r.tail == None)
  {
    InitInvariant(s);
    Always(s, actions, r);
  }

  /** No thread ever follows a null or freed pointer: inside its critical section it can
      always take its next step. */
  lemma NeverStuckInside(s: State, actions: seq<Action>, r: State)
    requires Init(s) && Reaches(s, actions, r)
    ensures forall j :: 0 <= j < |r.consumers| && ConsumerHolds(r.consumers[j]) ==>
              Enabled(r, ConsumerStep(j))
    ensures forall i, woken :: 0 <= i < |r.producers| && ProducerHolds(r.producers[i])
              && 0 <= woken && (SomeAsleep(r) ==> woken < |r.consumers| && r.consumers[woken] == Asleep)
              ==> Enabled(r, ProducerStep(i, woken))
  {
    InitInvariant(s);
    Always(s, actions, r);
    HolderOnly(r);
  }

  /** A sleeping consumer is never needed: the list is no longer than the number of awake
      consumers plus signals still to come. */
  lemma NeverOversleeps(s: State, actions: seq<Action>, r: State)
    requires Init(s) && Reaches(s, actions, r) && SomeAsleep(r)
    ensures |r.spine| <= Count(r.consumers, AwakeIdle) + Count(r.producers, Pending)
  {
    InitInvariant(s);
    Always(s, actions, r);
  }
}
