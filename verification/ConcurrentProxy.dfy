/** Any number of handler threads over one shared cache: find, and on a miss fetch and add,
    each cache operation atomic under the cache's mutex, everything else interleaved. */
module ConcurrentProxy {
  import opened CacheReference
  import opened Options
  import opened RequestGrammar
  import LFU = LFUTheory
  import LFUCache
  import LRU = LRUCache

  // ---------------------------------------------------------------- the shared cache

  /** The bytes held after the given operations, by either strategy. */
  function Store(policy: Policy, capacity: nat, ops: seq<Op>): map<Url, Bytes>
    requires capacity >= 1
  {
    match policy
    case LeastRecentlyUsed => LRU.RunState(capacity, ops).store
    case LeastFrequentlyUsed => LFU.RunState(capacity, ops).store
  }

  /** What one more operation may do to the bytes held: nothing ever changes the bytes of a
      URL that stays; an add of a new URL inserts it and may evict; a remove removes. */
  ghost predicate StoreStep(m: map<Url, Bytes>, op: Op, m': map<Url, Bytes>) {
    match op
    case Find(_) => m' == m
    case Add(u, d) =>
      if u in m then m' == m
      else u in m' && m'[u] == d && forall v :: v in m' && v != u ==> v in m && m'[v] == m[v]
    case Remove(u) => forall v :: v in m' ==> v != u && v in m && m'[v] == m[v]
  }

  lemma LRUStoreStep(capacity: nat, s: LRU.State, op: Op)
    requires capacity >= 1
    ensures StoreStep(s.store, op, LRU.StepState(capacity, s, op).store)
  {
  }

  lemma LFUAddStep(capacity: nat, s: LFUCache.State, r: Reference, u: Url, d: Bytes)
    requires capacity >= 1 && LFU.Represents(s, r) && u !in s.store
    ensures StoreStep(s.store, Add(u, d), LFUCache.AddMiss(capacity, s, u, d).store)
  {
    if |s.store| >= capacity {
      var v := LFU.AddEvicts(capacity, s, r, u, d);
      EvictedThenAdded(s.store, v, u, d);
    } else {
      LFU.AddFits(capacity, s, r, u, d);
    }
  }

  lemma EvictedThenAdded(m: map<Url, Bytes>, v: Url, u: Url, d: Bytes)
    requires u !in m
    ensures StoreStep(m, Add(u, d), (m - {v})[u := d])
  {
  }

  lemma LFURemoveStep(s: LFUCache.State, r: Reference, u: Url)
    requires LFU.Represents(s, r)
    ensures StoreStep(s.store, Remove(u), LFUCache.StepState(0, s, Remove(u)).store)
  {
    if u in s.store {
      LFU.HolderExists(s.buckets, r.residents, u);
    }
  }

  lemma LFUStoreStep(capacity: nat, s: LFUCache.State, r: Reference, op: Op)
    requires capacity >= 1 && LFU.Represents(s, r)
    requires LFUCache.Touches(s, op) ==> LFUCache.Holder(s.buckets, op.url) < |s.buckets|
    ensures StoreStep(s.store, op, LFUCache.StepState(capacity, s, op).store)
  {
    if op.Remove? {
      LFURemoveStep(s, r, op.url);
    } else if op.Add? && op.url !in s.store {
      LFUAddStep(capacity, s, r, op.url, op.data);
    }
  }

  lemma EveryStoreStep(policy: Policy, capacity: nat, ops: seq<Op>, op: Op)
    requires capacity >= 1
    ensures StoreStep(Store(policy, capacity, ops), op, Store(policy, capacity, ops + [op]))
  {
    assert (ops + [op])[..|ops|] == ops;
    match policy {
      case LeastRecentlyUsed => LRUStoreStep(capacity, LRU.RunState(capacity, ops), op);
      case LeastFrequentlyUsed =>
        var s, r := LFU.RunState(capacity, ops), Run(LeastFrequentlyUsed, capacity, ops);
        LFU.StepRepresents(capacity, s, r, op);
        LFUStoreStep(capacity, s, r, op);
    }
  }

  /** The bytes held before and after each of the further operations. */
  function Along(policy: Policy, capacity: nat, ops: seq<Op>, more: seq<Op>): (m: seq<map<Url, Bytes>>)
    requires capacity >= 1
    ensures |m| == |more| + 1
    ensures forall n :: 0 <= n < |m| ==> m[n] == Store(policy, capacity, ops + more[..n])
  {
    seq(|more| + 1, n requires 0 <= n <= |more| => Store(policy, capacity, ops + more[..n]))
  }

  lemma AlongEnds(policy: Policy, capacity: nat, ops: seq<Op>, more: seq<Op>)
    requires capacity >= 1
    ensures Along(policy, capacity, ops, more)[0] == Store(policy, capacity, ops)
    ensures Along(policy, capacity, ops, more)[|more|] == Store(policy, capacity, ops + more)
  {
    assert ops + more[..0] == ops && more[..|more|] == more;
  }

  lemma StoreStepTo(policy: Policy, capacity: nat, ops: seq<Op>, op: Op, after: seq<Op>)
    requires capacity >= 1 && after == ops + [op]
    ensures StoreStep(Store(policy, capacity, ops), op, Store(policy, capacity, after))
  {
    EveryStoreStep(policy, capacity, ops, op);
  }

  lemma AlongStep(policy: Policy, capacity: nat, ops: seq<Op>, more: seq<Op>, n: nat)
    requires capacity >= 1 && n < |more|
    ensures var m := Along(policy, capacity, ops, more); StoreStep(m[n], more[n], m[n + 1])
  {
    assert ops + more[..n + 1] == (ops + more[..n]) + [more[n]];
    StoreStepTo(policy, capacity, ops + more[..n], more[n], ops + more[..n + 1]);
  }

  ghost predicate HeldThroughout(m: seq<map<Url, Bytes>>, u: Url) {
    forall n :: 0 <= n < |m| ==> u in m[n]
  }

  /** The URL is held after each of the further operations. */
  ghost predicate StaysResident(policy: Policy, capacity: nat, ops: seq<Op>, more: seq<Op>, u: Url)
    requires capacity >= 1
  {
    HeldThroughout(Along(policy, capacity, ops, more), u)
  }

  lemma {:induction false} SameThroughout(m: seq<map<Url, Bytes>>, more: seq<Op>, u: Url, n: nat)
    requires |m| == |more| + 1 && HeldThroughout(m, u) && n < |m|
    requires forall k :: 0 <= k < |more| ==> StoreStep(m[k], more[k], m[k + 1])
    ensures m[n][u] == m[0][u]
  {
    if n > 0 {
      SameThroughout(m, more, u, n - 1);
      assert StoreStep(m[n - 1], more[n - 1], m[n - 1 + 1]);
    }
  }

  /** Resident bytes never change until eviction or removal: whatever operations follow,
      further adds of the same URL included. */
  lemma ResidentBytesFixed(policy: Policy, capacity: nat, ops: seq<Op>, more: seq<Op>, u: Url)
    requires capacity >= 1 && StaysResident(policy, capacity, ops, more, u)
    ensures u in Store(policy, capacity, ops) && u in Store(policy, capacity, ops + more)
    ensures Store(policy, capacity, ops + more)[u] == Store(policy, capacity, ops)[u]
  {
    var m := Along(policy, capacity, ops, more);
    forall n | 0 <= n < |more| ensures StoreStep(m[n], more[n], m[n + 1]) {
      AlongStep(policy, capacity, ops, more, n);
    }
    SameThroughout(m, more, u, |more|);
    AlongEnds(policy, capacity, ops, more);
  }

  /** The first add wins: when several handlers missed on the same URL, the bytes of the
      first add are what every later find returns while the URL stays resident. */
  lemma FirstAddWins(policy: Policy, capacity: nat, ops: seq<Op>, u: Url, d: Bytes, more: seq<Op>)
    requires capacity >= 1 && u !in Store(policy, capacity, ops)
    requires StaysResident(policy, capacity, ops + [Add(u, d)], more, u)
    ensures var after := ops + [Add(u, d)] + more;
      u in Store(policy, capacity, after) && Store(policy, capacity, after)[u] == d
  {
    EveryStoreStep(policy, capacity, ops, Add(u, d));
    ResidentBytesFixed(policy, capacity, ops + [Add(u, d)], more, u);
  }

  // ---------------------------------------------------------------- the cache key

  /** The key under which a response is cached: the host followed by the path. */
  function Key(l: RequestLine): Url {
    Url(l.host + l.path)
  }

  /** Keys are equal exactly when host and path both are: the boundary is never ambiguous,
      and port and protocol play no part. */
  lemma SameKeyIff(a: RequestLine, b: RequestLine)
    requires WellFormedLine(a) && WellFormedLine(b)
    ensures Key(a) == Key(b) <==> a.host == b.host && a.path == b.path
  {
    if Key(a) == Key(b) {
      var t := a.host + a.path;
      FirstSlash(a);
      FirstSlash(b);
      assert t == b.host + b.path;
      assert t[..|a.host|] == a.host && t[..|b.host|] == b.host;
      assert t[|a.host|..] == a.path && t[|b.host|..] == b.path;
    }
  }

  lemma FirstSlash(l: RequestLine)
    requires WellFormedLine(l)
    ensures CStrings.FindChar(l.host + l.path, '/') == Some(|l.host|)
  {
    assert l.path == ['/'] + l.path[1..];
    assert '/' !in l.host;
    CStrings.FindCharIs(l.host, '/', l.path[1..]);
  }

  // ---------------------------------------------------------------- the handlers

  datatype Handler =
    | Free
    | Looking(line: RequestLine)                    // parsed; about to find
    | Fetching(line: RequestLine, received: Bytes)  // missed; bytes from the origin so far
    | Complete(line: RequestLine, received: Bytes)  // the origin has closed; about to add

  /** A complete response of the origin to a request. */
  datatype Response = Response(line: RequestLine, data: Bytes)

  /** A reply served from the cache when the origin had returned `after` responses. */
  datatype Reply = Reply(line: RequestLine, data: Bytes, after: nat)

  datatype State = State(handlers: seq<Handler>, ops: seq<Op>, origin: seq<Response>,
                         replies: seq<Reply>)

  datatype Action =
    | Accept(i: nat, input: string)   // a request that parses
    | Lookup(i: nat)
    | Receive(i: nat, chunk: Bytes)
    | OriginCloses(i: nat)
    | OriginFails(i: nat)
    | AddResponse(i: nat)
    | Purge(u: Url)

  ghost predicate Init(s: State) {
    && (forall i :: 0 <= i < |s.handlers| ==> s.handlers[i] == Free)
    && s.ops == [] && s.origin == [] && s.replies == []
  }

  ghost predicate Enabled(s: State, a: Action) {
    match a
    case Accept(i, input) => i < |s.handlers| && s.handlers[i] == Free && Parse(input).Parsed?
    case Lookup(i) => i < |s.handlers| && s.handlers[i].Looking?
    case Receive(i, _) => i < |s.handlers| && s.handlers[i].Fetching?
    case OriginCloses(i) => i < |s.handlers| && s.handlers[i].Fetching?
    case OriginFails(i) => i < |s.handlers| && s.handlers[i].Fetching?
    case AddResponse(i) => i < |s.handlers| && s.handlers[i].Complete?
    case Purge(_) => true
  }

  ghost function Apply(policy: Policy, capacity: nat, s: State, a: Action): State
    requires capacity >= 1 && Enabled(s, a)
  {
    match a
    case Accept(i, input) => s.(handlers := s.handlers[i := Looking(Parse(input).value.line)])
    case Lookup(i) =>
      var l := s.handlers[i].line;
      var m := Store(policy, capacity, s.ops);
      var t := s.(ops := s.ops + [Find(Key(l))]);
      if Key(l) in m then
        t.(handlers := s.handlers[i := Free],
           replies := s.replies + [Reply(l, m[Key(l)], |s.origin|)])
      else
        t.(handlers := s.handlers[i := Fetching(l, "")])
    case Receive(i, chunk) =>
      var h := s.handlers[i];
      s.(handlers := s.handlers[i := Fetching(h.line, h.received + chunk)])
    case OriginCloses(i) =>
      var h := s.handlers[i];
      s.(handlers := s.handlers[i := Complete(h.line, h.received)],
         origin := s.origin + [Response(h.line, h.received)])
    case OriginFails(i) => s.(handlers := s.handlers[i := Free])
    case AddResponse(i) =>
      var h := s.handlers[i];
      s.(handlers := s.handlers[i := Free], ops := s.ops + [Add(Key(h.line), h.received)])
    case Purge(u) => s.(ops := s.ops + [Remove(u)])
  }

  ghost predicate Reaches(policy: Policy, capacity: nat, s: State, actions: seq<Action>, r: State)
    requires capacity >= 1
    decreases |actions|
  {
    if actions == [] then r == s
    else Enabled(s, actions[0])
         && Reaches(policy, capacity, Apply(policy, capacity, s, actions[0]), actions[1..], r)
  }

  /** Among the first `n` responses one was complete, for this key, with these bytes. */
  ghost predicate Returned(origin: seq<Response>, n: nat, u: Url, d: Bytes) {
    exists j :: 0 <= j < n && j < |origin| && WellFormedLine(origin[j].line)
                && Key(origin[j].line) == u && origin[j].data == d
  }

  ghost predicate HandlerOk(s: State, h: Handler) {
    && (!h.Free? ==> WellFormedLine(h.line))
    && (h.Complete? ==> Returned(s.origin, |s.origin|, Key(h.line), h.received))
  }

  /** Everything held was returned by the origin for its key. */
  ghost predicate StoreOk(m: map<Url, Bytes>, origin: seq<Response>) {
    forall u :: u in m ==> Returned(origin, |origin|, u, m[u])
  }

  /** A reply's bytes had been returned for its key before it was sent. */
  ghost predicate ReplyOk(origin: seq<Response>, p: Reply) {
    p.after <= |origin| && WellFormedLine(p.line) && Returned(origin, p.after, Key(p.line), p.data)
  }

  ghost predicate Invariant(policy: Policy, capacity: nat, s: State)
    requires capacity >= 1
  {
    && (forall i :: 0 <= i < |s.handlers| ==> HandlerOk(s, s.handlers[i]))
    && StoreOk(Store(policy, capacity, s.ops), s.origin)
    && (forall k :: 0 <= k < |s.replies| ==>
          ReplyOk(s.origin, s.replies[k]))
  }

  /** More responses do not unmake what was returned. */
  lemma ReturnedGrows(origin: seq<Response>, x: Response, n: nat, m: nat, u: Url, d: Bytes)
    requires Returned(origin, n, u, d) && n <= m
    ensures Returned(origin + [x], m, u, d)
  {
    var j :| 0 <= j < n && j < |origin| && WellFormedLine(origin[j].line)
             && Key(origin[j].line) == u && origin[j].data == d;
    assert (origin + [x])[j] == origin[j];
  }

  lemma OriginClosesKept(policy: Policy, capacity: nat, s: State, i: nat)
    requires capacity >= 1 && Invariant(policy, capacity, s) && Enabled(s, OriginCloses(i))
    ensures Invariant(policy, capacity, Apply(policy, capacity, s, OriginCloses(i)))
  {
    var s' := Apply(policy, capacity, s, OriginCloses(i));
    var x := s'.origin[|s.origin|];
    var n := |s.origin|;
    assert HandlerOk(s, s.handlers[i]);
    assert Returned(s'.origin, n + 1, Key(x.line), x.data);
    forall k | 0 <= k < |s'.handlers| ensures HandlerOk(s', s'.handlers[k]) {
      assert HandlerOk(s, s.handlers[k]);
      if k != i && s.handlers[k].Complete? {
        ReturnedGrows(s.origin, x, n, n + 1, Key(s.handlers[k].line), s.handlers[k].received);
      }
    }
    var m := Store(policy, capacity, s.ops);
    forall u | u in m ensures Returned(s'.origin, n + 1, u, m[u]) {
      ReturnedGrows(s.origin, x, n, n + 1, u, m[u]);
    }
    forall k | 0 <= k < |s.replies| ensures ReplyOk(s'.origin, s.replies[k]) {
      var p := s.replies[k];
      assert ReplyOk(s.origin, p);
      ReturnedGrows(s.origin, x, p.after, p.after, Key(p.line), p.data);
    }
  }

  /** Finding or removing adds nothing; what is added must have been returned. */
  lemma StoreKept(policy: Policy, capacity: nat, ops: seq<Op>, op: Op, origin: seq<Response>)
    requires capacity >= 1 && StoreOk(Store(policy, capacity, ops), origin)
    requires op.Add? ==> Returned(origin, |origin|, op.url, op.data)
    ensures StoreOk(Store(policy, capacity, ops + [op]), origin)
  {
    EveryStoreStep(policy, capacity, ops, op);
    StoreStepKept(Store(policy, capacity, ops), op, Store(policy, capacity, ops + [op]), origin);
  }

  lemma StoreStepKept(m: map<Url, Bytes>, op: Op, m': map<Url, Bytes>, origin: seq<Response>)
    requires StoreOk(m, origin) && StoreStep(m, op, m')
    requires op.Add? ==> Returned(origin, |origin|, op.url, op.data)
    ensures StoreOk(m', origin)
  {
  }

  /** What a find does: the handler is done or fetches, and a hit adds one reply. */
  lemma LookupDoes(policy: Policy, capacity: nat, s: State, i: nat) returns (s': State)
    requires capacity >= 1 && Enabled(s, Lookup(i))
    ensures s' == Apply(policy, capacity, s, Lookup(i)) && s'.origin == s.origin
    ensures s'.ops == s.ops + [Find(Key(s.handlers[i].line))]
    ensures |s'.handlers| == |s.handlers| && s'.handlers == s.handlers[i := s'.handlers[i]]
    ensures s'.handlers[i] == Free || s'.handlers[i] == Fetching(s.handlers[i].line, "")
    ensures var l, m := s.handlers[i].line, Store(policy, capacity, s.ops);
      || s'.replies == s.replies
      || (Key(l) in m && s'.replies == s.replies + [Reply(l, m[Key(l)], |s.origin|)])
  {
    s' := Apply(policy, capacity, s, Lookup(i));
  }

  lemma LookupKept(policy: Policy, capacity: nat, s: State, i: nat)
    requires capacity >= 1 && Invariant(policy, capacity, s) && Enabled(s, Lookup(i))
    ensures Invariant(policy, capacity, Apply(policy, capacity, s, Lookup(i)))
  {
    var l, m := s.handlers[i].line, Store(policy, capacity, s.ops);
    StoreKept(policy, capacity, s.ops, Find(Key(l)), s.origin);
    var s' := LookupDoes(policy, capacity, s, i);
    LookedUp(s, s', i, l, m);
  }

  /** A reply found in a store of origin responses is one of them. */
  lemma LookedUp(s: State, s': State, i: nat, l: RequestLine, m: map<Url, Bytes>)
    requires i < |s.handlers| == |s'.handlers| && s.handlers[i] == Looking(l)
    requires forall k :: 0 <= k < |s.handlers| ==> HandlerOk(s, s.handlers[k])
    requires forall k :: 0 <= k < |s.replies| ==> ReplyOk(s.origin, s.replies[k])
    requires StoreOk(m, s.origin) && s'.origin == s.origin
    requires s'.handlers == s.handlers[i := s'.handlers[i]]
    requires s'.handlers[i] == Free || s'.handlers[i] == Fetching(l, "")
    requires s'.replies == s.replies
          || (Key(l) in m && s'.replies == s.replies + [Reply(l, m[Key(l)], |s.origin|)])
    ensures forall k :: 0 <= k < |s'.handlers| ==> HandlerOk(s', s'.handlers[k])
    ensures forall k :: 0 <= k < |s'.replies| ==> ReplyOk(s'.origin, s'.replies[k])
  {
    assert HandlerOk(s, s.handlers[i]);
    HandlersKept(s, s', i);
    RepliesKept(s, s');
  }

  lemma RepliesKept(s: State, s': State)
    requires forall k :: 0 <= k < |s.replies| ==> ReplyOk(s.origin, s.replies[k])
    requires s'.origin == s.origin
    requires s'.replies == s.replies
          || exists p :: s'.replies == s.replies + [p] && ReplyOk(s.origin, p)
    ensures forall k :: 0 <= k < |s'.replies| ==> ReplyOk(s'.origin, s'.replies[k])
  {
  }

  lemma AddResponseKept(policy: Policy, capacity: nat, s: State, i: nat)
    requires capacity >= 1 && Invariant(policy, capacity, s) && Enabled(s, AddResponse(i))
    ensures Invariant(policy, capacity, Apply(policy, capacity, s, AddResponse(i)))
  {
    var h := s.handlers[i];
    assert HandlerOk(s, h);
    StoreKept(policy, capacity, s.ops, Add(Key(h.line), h.received), s.origin);
    HandlersKept(s, Apply(policy, capacity, s, AddResponse(i)), i);
  }

  /** A step of one handler does not concern the others. */
  lemma HandlersKept(s: State, s': State, i: nat)
    requires forall k :: 0 <= k < |s.handlers| ==> HandlerOk(s, s.handlers[k])
    requires i < |s.handlers| == |s'.handlers| && s'.origin == s.origin
    requires s'.handlers == s.handlers[i := s'.handlers[i]] && HandlerOk(s', s'.handlers[i])
    ensures forall k :: 0 <= k < |s'.handlers| ==> HandlerOk(s', s'.handlers[k])
  {
    forall k | 0 <= k < |s'.handlers| ensures HandlerOk(s', s'.handlers[k]) {
      assert HandlerOk(s, s.handlers[k]);
    }
  }

  lemma PurgeKept(policy: Policy, capacity: nat, s: State, u: Url)
    requires capacity >= 1 && Invariant(policy, capacity, s)
    ensures Invariant(policy, capacity, Apply(policy, capacity, s, Purge(u)))
  {
    StoreKept(policy, capacity, s.ops, Remove(u), s.origin);
    var s' := Apply(policy, capacity, s, Purge(u));
    forall k | 0 <= k < |s'.handlers| ensures HandlerOk(s', s'.handlers[k]) {
      assert HandlerOk(s, s.handlers[k]);
    }
  }

  /** Steps that leave the cache, the origin and the replies alone. */
  lemma OwnStepKept(policy: Policy, capacity: nat, s: State, a: Action)
    requires capacity >= 1 && Invariant(policy, capacity, s) && Enabled(s, a)
    requires a.Accept? || a.Receive? || a.OriginFails?
    ensures Invariant(policy, capacity, Apply(policy, capacity, s, a))
  {
    var s' := Apply(policy, capacity, s, a);
    assert HandlerOk(s, s.handlers[a.i]);
    if a.Accept? {
      AcceptedLineWellFormed(a.input);
    }
    HandlersKept(s, s', a.i);
  }

  lemma InvariantKept(policy: Policy, capacity: nat, s: State, a: Action)
    requires capacity >= 1 && Invariant(policy, capacity, s) && Enabled(s, a)
    ensures Invariant(policy, capacity, Apply(policy, capacity, s, a))
  {
    match a {
      case OriginCloses(i) => OriginClosesKept(policy, capacity, s, i);
      case Lookup(i) => LookupKept(policy, capacity, s, i);
      case AddResponse(i) => AddResponseKept(policy, capacity, s, i);
      case Purge(u) => PurgeKept(policy, capacity, s, u);
      case _ => OwnStepKept(policy, capacity, s, a);
    }
  }

  lemma {:induction false} Always(policy: Policy, capacity: nat, s: State, actions: seq<Action>,
                                  r: State)
    requires capacity >= 1 && Invariant(policy, capacity, s)
    requires Reaches(policy, capacity, s, actions, r)
    ensures Invariant(policy, capacity, r)
    decreases |actions|
  {
    if actions != [] {
      InvariantKept(policy, capacity, s, actions[0]);
      Always(policy, capacity, Apply(policy, capacity, s, actions[0]), actions[1..], r);
    }
  }

  /** In every interleaving of the handlers, under either strategy, each reply served from
      the cache is a complete response that the origin had returned earlier in the run to a
      request for the same host and path. */
  lemma CachedRepliesAreOriginResponses(policy: Policy, capacity: nat, s: State,
                                        actions: seq<Action>, r: State, k: nat)
    requires capacity >= 1 && Init(s) && Reaches(policy, capacity, s, actions, r)
    requires k < |r.replies|
    ensures var p := r.replies[k];
      exists j :: 0 <= j < p.after && j < |r.origin|
        && r.origin[j].line.host == p.line.host && r.origin[j].line.path == p.line.path
        && r.origin[j].data == p.data
  {
    Always(policy, capacity, s, actions, r);
    var p := r.replies[k];
    assert ReplyOk(r.origin, p);
    var j :| 0 <= j < p.after && j < |r.origin| && WellFormedLine(r.origin[j].line)
             && Key(r.origin[j].line) == Key(p.line) && r.origin[j].data == p.data;
    SameKeyIff(r.origin[j].line, p.line);
  }
}
