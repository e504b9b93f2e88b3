/** The reference cache told from its history alone: which add a resident's bytes came from,
    how many operations have named it since, and which of two residents was named last. */
module CacheHistory {
  import opened CacheReference
  import opened Options
  import opened Sequences
  import LFU = LFUTheory
  import LFUCache
  import LRU = LRUCache

  // ---------------------------------------------------------------- the history of a URL

  predicate Named(op: Op, u: Url) {
    op.url == u
  }

  function Names(u: Url): Op -> bool {
    (op: Op) => Named(op, u)
  }

  /** The last operation that names `u`, or -1. */
  function LastNamed(ops: seq<Op>, u: Url): (k: int)
    ensures -1 <= k < |ops|
  {
    if ops == [] then -1
    else if ops[|ops| - 1].url == u then |ops| - 1
    else LastNamed(ops[..|ops| - 1], u)
  }

  ghost function Residents(policy: Policy, capacity: nat, ops: seq<Op>): map<Url, Resident> {
    Run(policy, capacity, ops).residents
  }

  /** Operation `p` added `u`, absent until then, and `u` has been held ever since. */
  ghost predicate AddedAt(policy: Policy, capacity: nat, ops: seq<Op>, p: nat, u: Url) {
    && p < |ops| && ops[p].Add? && ops[p].url == u
    && u !in Residents(policy, capacity, ops[..p])
    && forall k :: p < k <= |ops| ==> u in Residents(policy, capacity, ops[..k])
  }

  /** How many operations after `p` name `u`. */
  function UsesSince(ops: seq<Op>, p: nat, u: Url): nat
    requires p < |ops|
  {
    Count(ops[p + 1..], Names(u))
  }

  /** The resident `e` under `u` holds the bytes of add number `p`, and its hits are the
      operations that named it since. */
  ghost predicate Tells(policy: Policy, capacity: nat, ops: seq<Op>, p: nat, u: Url, e: Resident) {
    AddedAt(policy, capacity, ops, p, u) && e.data == ops[p].data && e.hits == UsesSince(ops, p, u)
  }

  ghost predicate Told(policy: Policy, capacity: nat, ops: seq<Op>, u: Url, e: Resident) {
    exists p :: Tells(policy, capacity, ops, p, u, e)
  }

  // ---------------------------------------------------------------- one more operation

  lemma {:induction false} CountLast(s: seq<Op>, op: Op, f: Op -> bool)
    ensures Count(s + [op], f) == Count(s, f) + if f(op) then 1 else 0
  {
    if s == [] {
      assert s + [op] == [op] && [op][1..] == [];
    } else {
      CountLast(s[1..], op, f);
      assert (s + [op])[1..] == s[1..] + [op];
    }
  }

  lemma UsesStep(ops: seq<Op>, op: Op, p: nat, u: Url)
    requires p < |ops|
    ensures UsesSince(ops + [op], p, u) == UsesSince(ops, p, u) + if Named(op, u) then 1 else 0
  {
    assert (ops + [op])[p + 1..] == ops[p + 1..] + [op];
    CountLast(ops[p + 1..], op, Names(u));
  }

  lemma RunStep(policy: Policy, capacity: nat, ops: seq<Op>, op: Op)
    ensures Run(policy, capacity, ops + [op]) == Step(policy, capacity, Run(policy, capacity, ops), op)
  {
    assert (ops + [op])[..|ops|] == ops;
  }

  lemma AddedStays(policy: Policy, capacity: nat, ops: seq<Op>, op: Op, p: nat, u: Url)
    requires AddedAt(policy, capacity, ops, p, u)
    requires u in Residents(policy, capacity, ops + [op])
    ensures AddedAt(policy, capacity, ops + [op], p, u)
  {
    var after := ops + [op];
    assert after[..p] == ops[..p];
    forall k | p < k <= |after| ensures u in Residents(policy, capacity, after[..k]) {
      if k <= |ops| {
        assert after[..k] == ops[..k];
      } else {
        assert after[..k] == after;
      }
    }
  }

  /** What a step leaves of a resident that it does not name. */
  lemma OthersUntouched(policy: Policy, capacity: nat, r: Reference, op: Op, u: Url)
    requires u in Step(policy, capacity, r, op).residents && op.url != u
    ensures u in r.residents && Step(policy, capacity, r, op).residents[u] == r.residents[u]
  {
  }

  lemma TellsOn(policy: Policy, capacity: nat, ops: seq<Op>, op: Op, p: nat, u: Url, e: Resident,
                e': Resident)
    requires Tells(policy, capacity, ops, p, u, e)
    requires u in Residents(policy, capacity, ops + [op]) && e'.data == e.data
    requires e'.hits == e.hits + if Named(op, u) then 1 else 0
    ensures Told(policy, capacity, ops + [op], u, e')
  {
    AddedStays(policy, capacity, ops, op, p, u);
    UsesStep(ops, op, p, u);
    assert (ops + [op])[p] == ops[p];
    assert Tells(policy, capacity, ops + [op], p, u, e');
  }

  /** A URL that was absent is told from this add on. */
  lemma NewlyTold(policy: Policy, capacity: nat, ops: seq<Op>, op: Op, u: Url, e: Resident)
    requires op.Add? && op.url == u && u !in Residents(policy, capacity, ops)
    requires u in Residents(policy, capacity, ops + [op]) && e.data == op.data && e.hits == 0
    ensures Told(policy, capacity, ops + [op], u, e)
  {
    var after, p := ops + [op], |ops|;
    assert after[..p] == ops && after[..p + 1] == after && after[p + 1..] == [];
    assert Tells(policy, capacity, after, p, u, e);
  }

  /** What a step makes of the resident it names. */
  lemma NamedOne(policy: Policy, capacity: nat, r: Reference, op: Op)
    requires op.url in Step(policy, capacity, r, op).residents
    ensures !op.Remove? && (op.Add? || op.url in r.residents)
    ensures var e := Step(policy, capacity, r, op).residents[op.url];
      && e.touched == r.clock
      && if op.url in r.residents
         then e.data == r.residents[op.url].data && e.hits == r.residents[op.url].hits + 1
         else e.data == op.data && e.hits == 0
  {
  }

  lemma ToldStep(policy: Policy, capacity: nat, ops: seq<Op>, op: Op, u: Url)
    requires forall v :: v in Residents(policy, capacity, ops) ==>
               Told(policy, capacity, ops, v, Residents(policy, capacity, ops)[v])
    requires u in Residents(policy, capacity, ops + [op])
    ensures Told(policy, capacity, ops + [op], u, Residents(policy, capacity, ops + [op])[u])
  {
    var r, m := Run(policy, capacity, ops), Residents(policy, capacity, ops);
    var m' := Residents(policy, capacity, ops + [op]);
    RunStep(policy, capacity, ops, op);
    if op.url == u {
      NamedOne(policy, capacity, r, op);
    } else {
      OthersUntouched(policy, capacity, r, op, u);
    }
    if u in m {
      assert Told(policy, capacity, ops, u, m[u]);
      var p :| Tells(policy, capacity, ops, p, u, m[u]);
      TellsOn(policy, capacity, ops, op, p, u, m[u], m'[u]);
    } else {
      NewlyTold(policy, capacity, ops, op, u, m'[u]);
    }
  }

  /** In every run, each resident holds the bytes of the add that brought it in, and its hits
      are the operations that named it since. */
  lemma {:induction false} ResidentsTold(policy: Policy, capacity: nat, ops: seq<Op>)
    ensures forall u :: u in Residents(policy, capacity, ops) ==>
              Told(policy, capacity, ops, u, Residents(policy, capacity, ops)[u])
  {
    if ops != [] {
      var n := |ops| - 1;
      ResidentsTold(policy, capacity, ops[..n]);
      LastApart(ops);
      forall u | u in Residents(policy, capacity, ops)
        ensures Told(policy, capacity, ops, u, Residents(policy, capacity, ops)[u])
      {
        ToldStep(policy, capacity, ops[..n], ops[n], u);
      }
    }
  }

  // ---------------------------------------------------------------- the order of touches

  /** Stamps are ordered as the last operations that named the residents. */
  ghost predicate StampsTell(m: map<Url, Resident>, clock: nat, ops: seq<Op>) {
    && (forall u :: u in m ==> m[u].touched < clock)
    && (forall u, v :: u in m && v in m ==>
          (m[u].touched < m[v].touched <==> LastNamed(ops, u) < LastNamed(ops, v)))
  }

  lemma LastStep(ops: seq<Op>, op: Op, u: Url)
    ensures LastNamed(ops + [op], u) == if op.url == u then |ops| else LastNamed(ops, u)
  {
    assert (ops + [op])[..|ops|] == ops;
  }

  lemma StampsStep(policy: Policy, capacity: nat, r: Reference, ops: seq<Op>, op: Op)
    requires StampsTell(r.residents, r.clock, ops)
    ensures var r' := Step(policy, capacity, r, op); StampsTell(r'.residents, r'.clock, ops + [op])
  {
    var r' := Step(policy, capacity, r, op);
    forall u | u in r'.residents
      ensures r'.residents[u].touched < r'.clock && LastNamed(ops + [op], u)
              == if op.url == u then |ops| else LastNamed(ops, u)
      ensures if op.url == u then r'.residents[u].touched == r.clock
              else u in r.residents && r'.residents[u] == r.residents[u]
    {
      LastStep(ops, op, u);
      if op.url == u {
        NamedOne(policy, capacity, r, op);
      } else {
        OthersUntouched(policy, capacity, r, op, u);
      }
    }
  }

  lemma {:induction false} TouchedInOrder(policy: Policy, capacity: nat, ops: seq<Op>)
    ensures StampsTell(Residents(policy, capacity, ops), Run(policy, capacity, ops).clock, ops)
  {
    if ops != [] {
      var n := |ops| - 1;
      TouchedInOrder(policy, capacity, ops[..n]);
      StampsStep(policy, capacity, Run(policy, capacity, ops[..n]), ops[..n], ops[n]);
      LastApart(ops);
    }
  }

  // ---------------------------------------------------------------- replies

  /** The add that brought a resident in is determined. */
  lemma AddedOnce(policy: Policy, capacity: nat, ops: seq<Op>, p: nat, q: nat, u: Url)
    requires AddedAt(policy, capacity, ops, p, u) && AddedAt(policy, capacity, ops, q, u)
    ensures p == q
  {
  }

  /** What either cache replies to a find after a run. */
  function ReplyTo(policy: Policy, capacity: nat, ops: seq<Op>, u: Url): Option<Bytes>
    requires capacity >= 1
  {
    match policy
    case LeastRecentlyUsed => LRU.ReplyOf(LRU.RunState(capacity, ops), Find(u))
    case LeastFrequentlyUsed => LFUCache.ReplyOf(LFU.RunState(capacity, ops), Find(u))
  }

  lemma ReplyToIs(policy: Policy, capacity: nat, ops: seq<Op>, u: Url)
    requires capacity >= 1
    ensures var m := Residents(policy, capacity, ops);
      ReplyTo(policy, capacity, ops, u) == if u in m then Some(m[u].data) else None
  {
    match policy {
      case LeastRecentlyUsed => LRU.RepliesMatchReference(capacity, ops, Find(u));
      case LeastFrequentlyUsed => LFU.RepliesMatchReference(capacity, ops, Find(u));
    }
  }

  /** Under either strategy, after every run: a find that hits is answered with the bytes of
      the add that brought the URL in, whatever was added under it since; a find that misses
      is answered with nothing. */
  lemma RepliesAreAdded(policy: Policy, capacity: nat, ops: seq<Op>, u: Url)
    requires capacity >= 1
    ensures u in Residents(policy, capacity, ops) ==> exists p :: AddedAt(policy, capacity, ops, p, u)
    ensures forall p: nat :: AddedAt(policy, capacity, ops, p, u) ==>
              ReplyTo(policy, capacity, ops, u) == Some(ops[p].data)
    ensures u !in Residents(policy, capacity, ops) ==> ReplyTo(policy, capacity, ops, u) == None
  {
    ReplyToIs(policy, capacity, ops, u);
    ResidentsTold(policy, capacity, ops);
    if u in Residents(policy, capacity, ops) {
      var p :| Tells(policy, capacity, ops, p, u, Residents(policy, capacity, ops)[u]);
      forall q: nat | AddedAt(policy, capacity, ops, q, u) ensures q == p {
        AddedOnce(policy, capacity, ops, p, q, u);
      }
    } else {
      forall p: nat ensures !AddedAt(policy, capacity, ops, p, u) {
        assert ops[..|ops|] == ops;
      }
    }
  }

  /** An add of an absent URL is answered with its bytes at once. */
  lemma AddThenFind(policy: Policy, capacity: nat, ops: seq<Op>, u: Url, d: Bytes)
    requires capacity >= 1 && u !in Residents(policy, capacity, ops)
    ensures ReplyTo(policy, capacity, ops + [Add(u, d)], u) == Some(d)
  {
    ReplyToIs(policy, capacity, ops + [Add(u, d)], u);
    RunStep(policy, capacity, ops, Add(u, d));
  }

  // ---------------------------------------------------------------- the victim

  /** Eviction order in terms of the history: for LRU the URL named longest ago goes first;
      for LFU the one named less often since it was added, ties by the last naming. */
  ghost predicate GoesBefore(policy: Policy, capacity: nat, ops: seq<Op>, v: Url, w: Url) {
    match policy
    case LeastRecentlyUsed => LastNamed(ops, v) < LastNamed(ops, w)
    case LeastFrequentlyUsed =>
      forall p: nat, q: nat :: AddedAt(policy, capacity, ops, p, v) && AddedAt(policy, capacity, ops, q, w) ==>
        || UsesSince(ops, p, v) < UsesSince(ops, q, w)
        || (UsesSince(ops, p, v) == UsesSince(ops, q, w) && LastNamed(ops, v) < LastNamed(ops, w))
  }

  lemma HitsAre(policy: Policy, capacity: nat, ops: seq<Op>, p: nat, u: Url)
    requires u in Residents(policy, capacity, ops) && AddedAt(policy, capacity, ops, p, u)
    ensures Residents(policy, capacity, ops)[u].hits == UsesSince(ops, p, u)
  {
    ResidentsTold(policy, capacity, ops);
    assert Told(policy, capacity, ops, u, Residents(policy, capacity, ops)[u]);
    var q :| Tells(policy, capacity, ops, q, u, Residents(policy, capacity, ops)[u]);
    AddedOnce(policy, capacity, ops, p, q, u);
  }

  lemma BeforeGoesBefore(policy: Policy, capacity: nat, ops: seq<Op>, v: Url, w: Url)
    requires v in Residents(policy, capacity, ops) && w in Residents(policy, capacity, ops)
    requires var m := Residents(policy, capacity, ops); Before(policy, m[v], m[w])
    ensures GoesBefore(policy, capacity, ops, v, w)
  {
    TouchedInOrder(policy, capacity, ops);
    if policy == LeastFrequentlyUsed {
      forall p: nat, q: nat | AddedAt(policy, capacity, ops, p, v) && AddedAt(policy, capacity, ops, q, w)
        ensures
          || UsesSince(ops, p, v) < UsesSince(ops, q, w)
          || (UsesSince(ops, p, v) == UsesSince(ops, q, w) && LastNamed(ops, v) < LastNamed(ops, w))
      {
        HitsAre(policy, capacity, ops, p, v);
        HitsAre(policy, capacity, ops, q, w);
      }
    }
  }

  lemma VictimGoesFirst(policy: Policy, capacity: nat, ops: seq<Op>, v: Url)
    requires IsVictim(policy, Residents(policy, capacity, ops), v)
    ensures forall w :: w in Residents(policy, capacity, ops) && w != v ==>
              GoesBefore(policy, capacity, ops, v, w)
  {
    forall w | w in Residents(policy, capacity, ops) && w != v
      ensures GoesBefore(policy, capacity, ops, v, w)
    {
      BeforeGoesBefore(policy, capacity, ops, v, w);
    }
  }

  /** LRU, in terms of the history: an add that must evict throws out exactly the resident
      whose last naming is longest ago. */
  lemma LRUEvictsByHistory(capacity: nat, ops: seq<Op>, u: Url, d: Bytes) returns (v: Url)
    requires capacity >= 1
    requires var s := LRU.RunState(capacity, ops); u !in s.store && |s.order| >= capacity
    ensures var s := LRU.RunState(capacity, ops);
      && v in s.store && LRU.RunState(capacity, ops + [Add(u, d)]).store == (s.store - {v})[u := d]
      && forall w :: w in s.store && w != v ==> LastNamed(ops, v) < LastNamed(ops, w)
  {
    var s := LRU.RunState(capacity, ops);
    LRU.RunRefinesReference(capacity, ops);
    LRU.BackIsVictim(capacity, s, Run(LeastRecentlyUsed, capacity, ops));
    v := s.order[|s.order| - 1];
    VictimGoesFirst(LeastRecentlyUsed, capacity, ops, v);
    assert (ops + [Add(u, d)])[..|ops|] == ops;
  }

  /** LFU with the intended placement, in terms of the history: an add that must evict throws
      out exactly the resident named least often since it was added, ties by the last naming. */
  lemma LFUEvictsByHistory(capacity: nat, ops: seq<Op>, u: Url, d: Bytes) returns (v: Url)
    requires capacity >= 1
    requires var s := LFU.RunState(capacity, ops); u !in s.store && |s.store| >= capacity
    ensures var s := LFU.RunState(capacity, ops);
      && v in s.store && LFU.RunState(capacity, ops + [Add(u, d)]).store == (s.store - {v})[u := d]
      && forall w :: w in s.store && w != v ==>
           GoesBefore(LeastFrequentlyUsed, capacity, ops, v, w)
  {
    LFU.StepRepresents(capacity, LFU.RunState(capacity, ops), Run(LeastFrequentlyUsed, capacity, ops),
                       Add(u, d));
    v := LFU.EvictedIsLeastFrequent(capacity, ops, u, d);
    VictimGoesFirst(LeastFrequentlyUsed, capacity, ops, v);
  }
}
