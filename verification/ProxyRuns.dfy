/** The handler threads seen through the actions of a run alone: what a handler requested,
    which bytes it received, what it added, and where the bytes of every reply came from. */
module ProxyRuns {
  import opened CacheReference
  import opened ConcurrentProxy
  import opened Options
  import opened RequestGrammar

  // ---------------------------------------------------------------- a run's actions

  /** The request line handler `i` accepted last. */
  function RequestOf(actions: seq<Action>, i: nat): Option<RequestLine> {
    if actions == [] then None
    else
      var a, before := actions[|actions| - 1], actions[..|actions| - 1];
      if a.Accept? && a.i == i && Parse(a.input).Parsed? then Some(Parse(a.input).value.line)
      else RequestOf(before, i)
  }

  /** The chunks handler `i` received since its last lookup, one behind the other. */
  function ReceivedBy(actions: seq<Action>, i: nat): Bytes {
    if actions == [] then ""
    else
      var a, before := actions[|actions| - 1], actions[..|actions| - 1];
      if a.Lookup? && a.i == i then ""
      else if a.Receive? && a.i == i then ReceivedBy(before, i) + a.chunk
      else ReceivedBy(before, i)
  }

  /** At action `m` the origin closed, having sent `data` for the request `line`. */
  ghost predicate CameFrom(actions: seq<Action>, m: nat, line: RequestLine, data: Bytes) {
    && m < |actions| && actions[m].OriginCloses?
    && RequestOf(actions[..m], actions[m].i) == Some(line)
    && ReceivedBy(actions[..m], actions[m].i) == data
  }

  ghost predicate SomeOrigin(actions: seq<Action>, x: Response) {
    exists m :: CameFrom(actions, m, x.line, x.data)
  }

  /** At action `n` a handler looked up `p.line`, and the origin had sent `p.data` for the
      request `line` before that. */
  ghost predicate ServedAt(actions: seq<Action>, n: nat, m: nat, line: RequestLine, p: Reply) {
    && m < n < |actions| && actions[n].Lookup?
    && RequestOf(actions[..n], actions[n].i) == Some(p.line)
    && CameFrom(actions, m, line, p.data)
    && line.host == p.line.host && line.path == p.line.path
  }

  ghost predicate Served(actions: seq<Action>, p: Reply) {
    exists n, m, line :: ServedAt(actions, n, m, line, p)
  }

  // ---------------------------------------------------------------- what they say of a state

  ghost predicate Handles(past: seq<Action>, h: Handler, i: nat) {
    && (!h.Free? ==> RequestOf(past, i) == Some(h.line))
    && (h.Fetching? || h.Complete? ==> h.received == ReceivedBy(past, i))
  }

  ghost predicate HandlersTraced(past: seq<Action>, s: State) {
    forall i :: 0 <= i < |s.handlers| ==> Handles(past, s.handlers[i], i)
  }

  ghost predicate OriginTraced(past: seq<Action>, s: State) {
    forall j :: 0 <= j < |s.origin| ==> SomeOrigin(past, s.origin[j])
  }

  ghost predicate RepliesTraced(past: seq<Action>, s: State) {
    forall k :: 0 <= k < |s.replies| ==> Served(past, s.replies[k])
  }

  lemma OneMore(past: seq<Action>, a: Action)
    ensures (past + [a])[..|past|] == past && (past + [a])[|past|] == a
    ensures forall m :: 0 <= m <= |past| ==> (past + [a])[..m] == past[..m]
  {
  }

  /** An action does not concern the other handlers. */
  lemma OtherHandles(past: seq<Action>, a: Action, h: Handler, i: nat)
    requires Handles(past, h, i)
    requires a.Purge? || a.i != i || !(a.Accept? || a.Lookup? || a.Receive?)
    ensures Handles(past + [a], h, i)
  {
    OneMore(past, a);
  }

  /** The handler that acts. */
  lemma OwnHandles(policy: Policy, capacity: nat, past: seq<Action>, s: State, a: Action)
    requires capacity >= 1 && Enabled(s, a) && !a.Purge? && Handles(past, s.handlers[a.i], a.i)
    ensures Handles(past + [a], Apply(policy, capacity, s, a).handlers[a.i], a.i)
  {
    OneMore(past, a);
  }

  lemma HandlersStep(policy: Policy, capacity: nat, past: seq<Action>, s: State, a: Action)
    requires capacity >= 1 && Enabled(s, a) && HandlersTraced(past, s)
    ensures HandlersTraced(past + [a], Apply(policy, capacity, s, a))
  {
    var s' := Apply(policy, capacity, s, a);
    forall i | 0 <= i < |s'.handlers| ensures Handles(past + [a], s'.handlers[i], i) {
      if !a.Purge? && a.i == i {
        OwnHandles(policy, capacity, past, s, a);
      } else {
        OtherHandles(past, a, s.handlers[i], i);
      }
    }
  }

  lemma CameFromStays(past: seq<Action>, a: Action, m: nat, line: RequestLine, data: Bytes)
    requires CameFrom(past, m, line, data)
    ensures CameFrom(past + [a], m, line, data)
  {
    OneMore(past, a);
  }

  lemma OriginStays(past: seq<Action>, a: Action, x: Response)
    requires SomeOrigin(past, x)
    ensures SomeOrigin(past + [a], x)
  {
    var m :| CameFrom(past, m, x.line, x.data);
    CameFromStays(past, a, m, x.line, x.data);
  }

  lemma OriginStep(policy: Policy, capacity: nat, past: seq<Action>, s: State, a: Action)
    requires capacity >= 1 && Enabled(s, a) && HandlersTraced(past, s) && OriginTraced(past, s)
    ensures OriginTraced(past + [a], Apply(policy, capacity, s, a))
  {
    var s' := Apply(policy, capacity, s, a);
    forall j | 0 <= j < |s'.origin| ensures SomeOrigin(past + [a], s'.origin[j]) {
      if j < |s.origin| {
        OriginStays(past, a, s.origin[j]);
      } else {
        OneMore(past, a);
        assert Handles(past, s.handlers[a.i], a.i);
        assert CameFrom(past + [a], |past|, s'.origin[j].line, s'.origin[j].data);
      }
    }
  }

  lemma ServedStays(past: seq<Action>, a: Action, p: Reply)
    requires Served(past, p)
    ensures Served(past + [a], p)
  {
    var n, m, line :| ServedAt(past, n, m, line, p);
    OneMore(past, a);
    CameFromStays(past, a, m, line, p.data);
    assert ServedAt(past + [a], n, m, line, p);
  }

  /** A hit: the bytes held came from the origin, for the same host and path. */
  lemma HitServed(past: seq<Action>, s: State, a: Action, l: RequestLine, data: Bytes, after: nat)
    requires a.Lookup? && RequestOf(past, a.i) == Some(l) && WellFormedLine(l)
    requires Returned(s.origin, |s.origin|, Key(l), data) && OriginTraced(past, s)
    ensures Served(past + [a], Reply(l, data, after))
  {
    var j :| 0 <= j < |s.origin| && WellFormedLine(s.origin[j].line)
             && Key(s.origin[j].line) == Key(l) && s.origin[j].data == data;
    var x := s.origin[j];
    assert SomeOrigin(past, x);
    var m :| CameFrom(past, m, x.line, x.data);
    SameKeyIff(x.line, l);
    OneMore(past, a);
    CameFromStays(past, a, m, x.line, x.data);
    assert ServedAt(past + [a], |past|, m, x.line, Reply(l, data, after));
  }

  /** What the step adds to the replies, if it adds one. */
  lemma RepliesStep(policy: Policy, capacity: nat, past: seq<Action>, s: State, a: Action)
    requires capacity >= 1 && Enabled(s, a) && Invariant(policy, capacity, s)
    requires HandlersTraced(past, s) && OriginTraced(past, s) && RepliesTraced(past, s)
    ensures RepliesTraced(past + [a], Apply(policy, capacity, s, a))
  {
    if a.Lookup? {
      var s' := LookupDoes(policy, capacity, s, a.i);
      assert Handles(past, s.handlers[a.i], a.i) && HandlerOk(s, s.handlers[a.i]);
      LookedUpTraced(past, s, a, s.handlers[a.i].line, Store(policy, capacity, s.ops), s');
    } else {
      AllServedStay(past, a, s);
    }
  }

  lemma AllServedStay(past: seq<Action>, a: Action, s: State)
    requires RepliesTraced(past, s)
    ensures RepliesTraced(past + [a], s)
  {
    forall k | 0 <= k < |s.replies| ensures Served(past + [a], s.replies[k]) {
      ServedStays(past, a, s.replies[k]);
    }
  }

  lemma LookedUpTraced(past: seq<Action>, s: State, a: Action, l: RequestLine,
                       m: map<Url, Bytes>, s': State)
    requires a.Lookup? && RequestOf(past, a.i) == Some(l) && WellFormedLine(l)
    requires StoreOk(m, s.origin) && OriginTraced(past, s) && RepliesTraced(past, s)
    requires s'.replies == s.replies
          || (Key(l) in m && s'.replies == s.replies + [Reply(l, m[Key(l)], |s.origin|)])
    ensures RepliesTraced(past + [a], s')
  {
    AllServedStay(past, a, s);
    if s'.replies != s.replies {
      HitServed(past, s, a, l, m[Key(l)], |s.origin|);
    }
  }

  ghost predicate Traced(policy: Policy, capacity: nat, past: seq<Action>, s: State)
    requires capacity >= 1
  {
    && Invariant(policy, capacity, s)
    && HandlersTraced(past, s) && OriginTraced(past, s) && RepliesTraced(past, s)
  }

  lemma TracedStep(policy: Policy, capacity: nat, past: seq<Action>, s: State, a: Action)
    requires capacity >= 1 && Traced(policy, capacity, past, s) && Enabled(s, a)
    ensures Traced(policy, capacity, past + [a], Apply(policy, capacity, s, a))
  {
    InvariantKept(policy, capacity, s, a);
    HandlersStep(policy, capacity, past, s, a);
    OriginStep(policy, capacity, past, s, a);
    RepliesStep(policy, capacity, past, s, a);
  }

  lemma {:induction false} AlwaysTraced(policy: Policy, capacity: nat, past: seq<Action>, s: State,
                                        actions: seq<Action>, r: State)
    requires capacity >= 1 && Traced(policy, capacity, past, s)
    requires Reaches(policy, capacity, s, actions, r)
    ensures Traced(policy, capacity, past + actions, r)
    decreases |actions|
  {
    Regroup(past, actions);
    if actions != [] {
      var a := actions[0];
      TracedStep(policy, capacity, past, s, a);
      AlwaysTraced(policy, capacity, past + [a], Apply(policy, capacity, s, a), actions[1..], r);
    }
  }

  lemma Regroup(past: seq<Action>, actions: seq<Action>)
    ensures actions == [] ==> past + actions == past
    ensures actions != [] ==> past + [actions[0]] + actions[1..] == past + actions
    ensures past == [] ==> past + actions == actions
  {
  }

  lemma RunTraced(policy: Policy, capacity: nat, s: State, actions: seq<Action>, r: State)
    requires capacity >= 1 && Init(s) && Reaches(policy, capacity, s, actions, r)
    ensures Traced(policy, capacity, actions, r)
  {
    Regroup([], actions);
    AlwaysTraced(policy, capacity, [], s, actions, r);
  }

  // ---------------------------------------------------------------- main results

  /** In every interleaving a handler that fetches, or has fetched, holds exactly the chunks
      it received since its lookup, in the order received, for the request it accepted; and
      every response recorded for the origin is such a text. */
  lemma ReceivedInOrder(policy: Policy, capacity: nat, s: State, actions: seq<Action>, r: State,
                        i: nat)
    requires capacity >= 1 && Init(s) && Reaches(policy, capacity, s, actions, r)
    requires i < |r.handlers| && (r.handlers[i].Fetching? || r.handlers[i].Complete?)
    ensures r.handlers[i].received == ReceivedBy(actions, i)
    ensures RequestOf(actions, i) == Some(r.handlers[i].line)
    ensures forall j :: 0 <= j < |r.origin| ==> SomeOrigin(actions, r.origin[j])
  {
    RunTraced(policy, capacity, s, actions, r);
    assert Handles(actions, r.handlers[i], i);
  }

  /** In every interleaving, under either strategy, the bytes of each reply from the cache are
      the chunks that some handler had received, in order, when the origin closed, for a
      request of the same host and path, before the lookup that was answered. */
  lemma RepliesAreReceivedBytes(policy: Policy, capacity: nat, s: State, actions: seq<Action>,
                                r: State, k: nat)
    requires capacity >= 1 && Init(s) && Reaches(policy, capacity, s, actions, r)
    requires k < |r.replies|
    ensures exists n, m, line :: ServedAt(actions, n, m, line, r.replies[k])
  {
    RunTraced(policy, capacity, s, actions, r);
    assert Served(actions, r.replies[k]);
  }

  /** After a handler has added its response the cache holds its URL: with exactly the bytes
      it received, in order, if the URL was absent, and with the bytes held before if not;
      nothing else is added or changed. */
  lemma AddedResponseIsHeld(policy: Policy, capacity: nat, s: State, actions: seq<Action>, r: State,
                            i: nat)
    requires capacity >= 1 && Init(s) && Reaches(policy, capacity, s, actions, r)
    requires Enabled(r, AddResponse(i))
    ensures RequestOf(actions, i).Some?
    ensures var u := Key(RequestOf(actions, i).value);
      var m := Store(policy, capacity, r.ops);
      var m' := Store(policy, capacity, Apply(policy, capacity, r, AddResponse(i)).ops);
      && u in m' && m'[u] == (if u in m then m[u] else ReceivedBy(actions, i))
      && forall v :: v in m' && v != u ==> v in m && m'[v] == m[v]
  {
    var h := r.handlers[i];
    RunTraced(policy, capacity, s, actions, r);
    assert Handles(actions, h, i);
    EveryStoreStep(policy, capacity, r.ops, Add(Key(h.line), h.received));
  }

  /** A lookup is answered from the cache exactly when its URL is held, with the bytes held,
      and otherwise starts to fetch, for the request the handler accepted. */
  lemma LookupAnswers(policy: Policy, capacity: nat, s: State, actions: seq<Action>, r: State,
                      i: nat)
    requires capacity >= 1 && Init(s) && Reaches(policy, capacity, s, actions, r)
    requires Enabled(r, Lookup(i))
    ensures RequestOf(actions, i).Some?
    ensures var l := RequestOf(actions, i).value;
      var m, r' := Store(policy, capacity, r.ops), Apply(policy, capacity, r, Lookup(i));
      if Key(l) in m
      then r'.handlers[i] == Free && r'.replies == r.replies + [Reply(l, m[Key(l)], |r.origin|)]
      else r'.handlers[i] == Fetching(l, "") && r'.replies == r.replies
  {
    RunTraced(policy, capacity, s, actions, r);
    assert Handles(actions, r.handlers[i], i);
  }
}
