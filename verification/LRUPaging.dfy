/** Paging theory of the LRU strategy: stack inclusion, reuse distance and the
    competitive bound against an arbitrary demand cache. */
module LRUPaging {
  import opened Sequences
  import opened CacheReference
  import opened LRUCache
  import opened Options

  // ---------------------------------------------------------------- stack inclusion

  /** A smaller and a larger cache in step: the smaller list is a subsequence of the
      larger one, and the larger cache has at least as much room left. */
  ghost predicate Included(k: nat, small: State, m: nat, large: State) {
    && Consistent(k, small) && Consistent(m, large)
    && Sub(small.order, large.order)
    && k - |small.order| <= m - |large.order|
  }

  lemma IncludedFront(small: seq<Url>, large: seq<Url>, u: Url)
    requires Sub(small, large) && Distinct(small) && Distinct(large)
    ensures Sub([u] + Erase(small, u), [u] + Erase(large, u))
    ensures u !in small ==> Sub(small, [u] + Erase(large, u))
  {
    SubErase(small, large, u);
    SubCons(Erase(small, u), Erase(large, u), u);
  }

  /** The list after making room for one more. */
  function Shortened(capacity: nat, order: seq<Url>): seq<Url> {
    if |order| >= capacity && order != [] then order[..|order| - 1] else order
  }

  /** Making room on both sides, or only in the smaller cache, keeps the inclusion. */
  lemma ShortenedIncluded(k: nat, small: seq<Url>, m: nat, large: seq<Url>)
    requires Sub(small, large) && k - |small| <= m - |large| && 1 <= k <= m
    ensures Sub(Shortened(k, small), Shortened(m, large)) && Sub(Shortened(k, small), large)
  {
    if |small| >= k {
      SubDropLast(small, large);
      SubDropLastLeft(small, large);
    }
  }

  /** A URL new to the smaller list goes in front of both lists. */
  lemma FrontIncluded(k: nat, small: seq<Url>, m: nat, large: seq<Url>, u: Url)
    requires 1 <= k <= m && Sub(small, large) && k - |small| <= m - |large|
    requires Distinct(small) && Distinct(large) && u !in small
    ensures u in large ==> Sub([u] + Shortened(k, small), [u] + Erase(large, u))
    ensures u !in large ==> Sub([u] + Shortened(k, small), [u] + Shortened(m, large))
  {
    var kept := Shortened(k, small);
    ShortenedIncluded(k, small, m, large);
    if u in large {
      assert u !in kept;
      IncludedFront(kept, large, u);
      assert Erase(kept, u) == kept;
    } else {
      SubCons(kept, Shortened(m, large), u);
    }
  }

  lemma AddOrder(capacity: nat, s: State, u: Url, d: Bytes)
    requires capacity >= 1 && Consistent(capacity, s)
    ensures StepState(capacity, s, Op.Add(u, d)).order
         == if u in s.order then [u] + Erase(s.order, u) else [u] + Shortened(capacity, s.order)
  {
  }

  /** An insertion into the smaller cache, after its eviction if it is full. */
  lemma AddMissIncluded(k: nat, small: State, m: nat, large: State, u: Url, d: Bytes)
    requires 1 <= k <= m && Included(k, small, m, large) && u !in small.store
    ensures var op := Op.Add(u, d);
            Included(k, StepState(k, small, op), m, StepState(m, large, op))
  {
    StepConsistent(k, small, Op.Add(u, d));
    StepConsistent(m, large, Op.Add(u, d));
    FrontIncluded(k, small.order, m, large.order, u);
    AddOrder(k, small, u, d);
    AddOrder(m, large, u, d);
  }

  lemma {:induction false} SubDropLastLeft(a: seq<Url>, b: seq<Url>)
    requires Sub(a, b) && a != []
    ensures Sub(a[..|a| - 1], b)
    decreases |b|
  {
    if |a| > 1 {
      assert a[..|a| - 1][1..] == a[1..][..|a| - 2];
      if a[0] == b[0] && Sub(a[1..], b[1..]) {
        SubDropLastLeft(a[1..], b[1..]);
      } else {
        SubDropLastLeft(a, b[1..]);
      }
    }
  }

  lemma StepIncluded(k: nat, small: State, m: nat, large: State, op: Op)
    requires 1 <= k <= m && Included(k, small, m, large)
    ensures Included(k, StepState(k, small, op), m, StepState(m, large, op))
  {
    var u := op.url;
    if op.Add? && u !in small.store {
      AddMissIncluded(k, small, m, large, u, op.data);
    } else {
      StepConsistent(k, small, op);
      StepConsistent(m, large, op);
      if u in small.order {
        SubMember(small.order, large.order, u);
      }
      SubErase(small.order, large.order, u);
      IncludedFront(small.order, large.order, u);
    }
  }

  /** Stack inclusion over every common run: a hit in the smaller cache is a hit in the
      larger one, and its list is a subsequence of the larger list. */
  lemma {:induction false} StackInclusion(k: nat, m: nat, ops: seq<Op>)
    requires 1 <= k <= m
    ensures Included(k, RunState(k, ops), m, RunState(m, ops))
    ensures RunState(k, ops).store.Keys <= RunState(m, ops).store.Keys
  {
    if ops != [] {
      var n := |ops| - 1;
      StackInclusion(k, m, ops[..n]);
      StepIncluded(k, RunState(k, ops[..n]), m, RunState(m, ops[..n]), ops[n]);
    }
    var small, large := RunState(k, ops), RunState(m, ops);
    forall u | u in small.store ensures u in large.store {
      SubMember(small.order, large.order, u);
    }
  }

  // ---------------------------------------------------------------- recency

  /** The URL an operation touches, if any: a find that hits and every add do. */
  function TouchedBy(s: State, op: Op): seq<Url> {
    match op
    case Find(u) => if u in s.store then [u] else []
    case Add(u, _) => [u]
    case Remove(_) => []
  }

  /** The URLs touched, in order, by a run. */
  function Touched(capacity: nat, ops: seq<Op>): seq<Url>
    requires capacity >= 1
  {
    if ops == [] then []
    else
      var n := |ops| - 1;
      Touched(capacity, ops[..n]) + TouchedBy(RunState(capacity, ops[..n]), ops[n])
  }

  /** The distinct URLs of history `h` that come after the last occurrence of `u`. */
  function Since(h: seq<Url>, u: Url): set<Url> {
    if h == [] || h[|h| - 1] == u then {}
    else Since(h[..|h| - 1], u) + {h[|h| - 1]}
  }

  /** `Since` meant directly: everything at a position after the last `u`. */
  lemma {:induction false} SinceIs(h: seq<Url>, u: Url, last: nat)
    requires last < |h| && h[last] == u && u !in h[last + 1..]
    ensures Since(h, u) == Elems(h[last + 1..])
  {
    var n := |h| - 1;
    if last < n {
      assert h[last + 1..] == h[..n][last + 1..] + [h[n]];
      SinceIs(h[..n], u, last);
    }
  }

  lemma SinceStep(h: seq<Url>, r: Url, u: Url)
    ensures Since(h + [r], u) == if u == r then {} else Since(h, u) + {r}
  {
    assert (h + [r])[..|h|] == h;
  }

  /** The i-th element of the list is the one with exactly the i elements before it
      touched since. */
  ghost predicate OrderedByReuse(order: seq<Url>, h: seq<Url>) {
    forall i :: 0 <= i < |order| ==> order[i] in h && Since(h, order[i]) == Elems(order[..i])
  }

  /** The list is ordered by what was touched since; whatever is not listed has at least
      `capacity` URLs touched since. */
  ghost predicate ByReuse(capacity: nat, order: seq<Url>, h: seq<Url>) {
    && Distinct(order) && |order| <= capacity && OrderedByReuse(order, h)
    && (forall u :: u in h && u !in order ==>
          |order| == capacity && |Since(h, u)| >= capacity)
  }

  lemma Grows(a: set<Url>, b: set<Url>)
    requires a <= b
    ensures |a| <= |b|
  {
    if a != {} {
      var x :| x in a;
      Grows(a - {x}, b - {x});
    }
  }

  lemma ByReuseHit(capacity: nat, order: seq<Url>, h: seq<Url>, p: nat)
    requires ByReuse(capacity, order, h) && p < |order|
    ensures ByReuse(capacity, [order[p]] + Erase(order, order[p]), h + [order[p]])
  {
    var r := order[p];
    EraseKeeps(order, r);
    var o := [r] + Erase(order, r);
    assert OrderedByReuse(o, h + [r]) by {
      EraseAt(order, p);
      FrontedReuse(order, h, p);
    }
    forall u | u in h + [r] && u !in o ensures |Since(h + [r], u)| >= capacity {
      assert u in h && u !in order;
      StillFar(capacity, h, r, u);
    }
  }

  lemma StillFar(capacity: nat, h: seq<Url>, r: Url, u: Url)
    requires |Since(h, u)| >= capacity && u != r
    ensures |Since(h + [r], u)| >= capacity
  {
    SinceStep(h, r, u);
    Grows(Since(h, u), Since(h, u) + {r});
  }

  lemma FrontedReuse(order: seq<Url>, h: seq<Url>, p: nat)
    requires Distinct(order) && OrderedByReuse(order, h) && p < |order|
    ensures OrderedByReuse([order[p]] + (order[..p] + order[p + 1..]), h + [order[p]])
  {
    var o := [order[p]] + (order[..p] + order[p + 1..]);
    forall i | 0 <= i < |o|
      ensures o[i] in h + [order[p]] && Since(h + [order[p]], o[i]) == Elems(o[..i])
    {
      FrontedSince(order, h, p, i);
    }
  }

  lemma FrontedSince(order: seq<Url>, h: seq<Url>, p: nat, i: nat)
    requires Distinct(order) && OrderedByReuse(order, h) && p < |order| && i < |order|
    ensures var o := [order[p]] + (order[..p] + order[p + 1..]);
      o[i] in h + [order[p]] && Since(h + [order[p]], o[i]) == Elems(o[..i])
  {
    var o := [order[p]] + (order[..p] + order[p + 1..]);
    SinceStep(h, order[p], o[i]);
    if i > 0 {
      var j := if i <= p then i - 1 else i;
      FrontedAt(order, p, i, j);
      assert order[j] in h && Since(h, order[j]) == Elems(order[..j]);
      PrefixElems(order, p, i);
    }
  }

  /** Which element is at position `i` after position `p` has moved to the front. */
  lemma FrontedAt(order: seq<Url>, p: nat, i: nat, j: nat)
    requires Distinct(order) && p < |order| && 1 <= i < |order|
    requires j == if i <= p then i - 1 else i
    ensures ([order[p]] + (order[..p] + order[p + 1..]))[i] == order[j] != order[p]
  {
  }

  /** The first `i` elements after moving position `p` to the front. */
  lemma PrefixElems(order: seq<Url>, p: nat, i: nat)
    requires p < |order| && 1 <= i < |order|
    ensures var o := [order[p]] + (order[..p] + order[p + 1..]);
            Elems(o[..i]) == Elems(order[..if i <= p then i - 1 else i]) + {order[p]}
  {
    var o := [order[p]] + (order[..p] + order[p + 1..]);
    if i <= p {
      assert o[..i] == [order[p]] + order[..i - 1];
    } else {
      assert o[..i] == [order[p]] + (order[..p] + order[p + 1..i]);
      assert order[..i] == order[..p] + [order[p]] + order[p + 1..i];
    }
  }

  lemma ByReuseMiss(capacity: nat, order: seq<Url>, h: seq<Url>, r: Url)
    requires capacity >= 1 && ByReuse(capacity, order, h) && r !in order
    ensures var kept := if |order| >= capacity then order[..|order| - 1] else order;
            ByReuse(capacity, [r] + kept, h + [r])
  {
    var kept := if |order| >= capacity then order[..|order| - 1] else order;
    var o := [r] + kept;
    KeptReuse(order, h, r, kept);
    forall u | u in h + [r] && u !in o
      ensures |o| == capacity && |Since(h + [r], u)| >= capacity
    {
      DroppedSince(capacity, order, h, r, u);
    }
  }

  lemma KeptReuse(order: seq<Url>, h: seq<Url>, r: Url, kept: seq<Url>)
    requires OrderedByReuse(order, h) && r !in order
    requires kept <= order
    ensures OrderedByReuse([r] + kept, h + [r])
  {
    ShiftedReuse(order, h, r);
    assert [r] + kept == ([r] + order)[..1 + |kept|];
    PrefixReuse([r] + order, h + [r], 1 + |kept|);
  }

  lemma PrefixReuse(order: seq<Url>, h: seq<Url>, n: nat)
    requires n <= |order| && OrderedByReuse(order, h)
    ensures OrderedByReuse(order[..n], h)
  {
    forall i | 0 <= i < n
      ensures order[..n][i] in h && Since(h, order[..n][i]) == Elems(order[..n][..i])
    {
      assert order[..n][i] == order[i] && order[..n][..i] == order[..i];
    }
  }

  lemma ShiftedReuse(order: seq<Url>, h: seq<Url>, r: Url)
    requires r !in order && OrderedByReuse(order, h)
    ensures OrderedByReuse([r] + order, h + [r])
  {
    forall i | 0 <= i <= |order|
      ensures ([r] + order)[i] in h + [r]
      ensures Since(h + [r], ([r] + order)[i]) == Elems(([r] + order)[..i])
    {
      ShiftedSince(order, h, r, i);
    }
  }

  lemma ShiftedSince(order: seq<Url>, h: seq<Url>, r: Url, i: nat)
    requires r !in order && i <= |order|
    requires i > 0 ==> order[i - 1] in h && Since(h, order[i - 1]) == Elems(order[..i - 1])
    ensures ([r] + order)[i] in h + [r]
    ensures Since(h + [r], ([r] + order)[i]) == Elems(([r] + order)[..i])
  {
    SinceStep(h, r, ([r] + order)[i]);
    if i > 0 {
      assert ([r] + order)[..i] == [r] + order[..i - 1];
    }
  }

  lemma SplitLast(s: seq<Url>, x: Url)
    requires x in s
    ensures x in s[..|s| - 1] || x == s[|s| - 1]
  {
    assert s == s[..|s| - 1] + [s[|s| - 1]];
  }

  lemma OneMore(s: seq<Url>, r: Url)
    requires Distinct(s) && r !in s
    ensures |Elems(s) + {r}| == |s| + 1
  {
    DistinctSize(s);
  }

  lemma DroppedSince(capacity: nat, order: seq<Url>, h: seq<Url>, r: Url, u: Url)
    requires capacity >= 1 && ByReuse(capacity, order, h) && r !in order
    requires u in h && u != r
    requires u !in (if |order| >= capacity then order[..|order| - 1] else order)
    ensures |order| == capacity && |Since(h + [r], u)| >= capacity
  {
    if u !in order {
      StillFar(capacity, h, r, u);
    } else {
      SinceStep(h, r, u);
      LastSince(order, h, r);
      SplitLast(order, u);
    }
  }

  /** Once `r` is touched, everything in the list was touched since its last element. */
  lemma LastSince(order: seq<Url>, h: seq<Url>, r: Url)
    requires order != [] && Distinct(order) && r !in order
    requires Since(h, order[|order| - 1]) == Elems(order[..|order| - 1])
    ensures |Since(h, order[|order| - 1]) + {r}| == |order|
  {
    OneMore(order[..|order| - 1], r);
  }

  /** Fewer than `capacity` distinct URLs were touched since the last touch of `u`. */
  ghost predicate WithinReach(capacity: nat, h: seq<Url>, u: Url) {
    u in h && |Since(h, u)| < capacity
  }

  lemma StepByReuse(capacity: nat, s: State, h: seq<Url>, op: Op)
    requires capacity >= 1 && Consistent(capacity, s) && ByReuse(capacity, s.order, h)
    requires !op.Remove?
    ensures ByReuse(capacity, StepState(capacity, s, op).order, h + TouchedBy(s, op))
  {
    if op.url in s.store {
      var p :| 0 <= p < |s.order| && s.order[p] == op.url;
      ByReuseHit(capacity, s.order, h, p);
    } else if op.Add? {
      ByReuseMiss(capacity, s.order, h, op.url);
    } else {
      assert h + [] == h;
    }
  }

  lemma {:induction false} RunByReuse(capacity: nat, ops: seq<Op>)
    requires capacity >= 1 && NoRemove(ops)
    ensures Consistent(capacity, RunState(capacity, ops))
    ensures ByReuse(capacity, RunState(capacity, ops).order, Touched(capacity, ops))
  {
    if ops != [] {
      var n := |ops| - 1;
      RunByReuse(capacity, ops[..n]);
      StepConsistent(capacity, RunState(capacity, ops[..n]), ops[n]);
      StepByReuse(capacity, RunState(capacity, ops[..n]), Touched(capacity, ops[..n]), ops[n]);
    }
  }

  /** Over every run without remove, a URL is resident exactly when fewer than `capacity`
      distinct URLs were touched since its own last touch, the list is ordered by that
      count, and the number of residents is min(capacity, URLs ever touched). */
  lemma ResidentsAreMostRecent(capacity: nat, ops: seq<Op>)
    requires capacity >= 1 && NoRemove(ops)
    ensures var s, h := RunState(capacity, ops), Touched(capacity, ops);
      && ByReuse(capacity, s.order, h)
      && (forall u :: u in s.store <==> WithinReach(capacity, h, u))
      && |s.order| == if |Elems(h)| < capacity then |Elems(h)| else capacity
  {
    RunByReuse(capacity, ops);
    ResidentIff(capacity, RunState(capacity, ops).order, Touched(capacity, ops));
  }

  lemma ResidentIff(capacity: nat, order: seq<Url>, h: seq<Url>)
    requires ByReuse(capacity, order, h)
    ensures forall u :: u in order <==> WithinReach(capacity, h, u)
    ensures |order| == if |Elems(h)| < capacity then |Elems(h)| else capacity
  {
    forall u | u in order ensures WithinReach(capacity, h, u) {
      var i :| 0 <= i < |order| && order[i] == u;
      DistinctSize(order[..i]);
    }
    DistinctSize(order);
    assert Elems(order) <= Elems(h);
    Grows(Elems(order), Elems(h));
    if |order| < capacity {
      assert Elems(order) == Elems(h);
    }
  }

  // ---------------------------------------------------------------- get-or-fetch runs

  /** A request for `url`, and the bytes the origin would send if it were asked. */
  datatype Request = Request(url: Url, reply: Bytes)

  /** The handler's sequence: find, and on a miss fetch and add. */
  function OpsOf(capacity: nat, requests: seq<Request>): seq<Op>
    requires capacity >= 1
  {
    if requests == [] then []
    else
      var n := |requests| - 1;
      var before := OpsOf(capacity, requests[..n]);
      if requests[n].url in RunState(capacity, before).store
      then before + [Find(requests[n].url)]
      else before + [Find(requests[n].url), Add(requests[n].url, requests[n].reply)]
  }

  function UrlsOf(requests: seq<Request>): (r: seq<Url>)
    ensures |r| == |requests| && forall i :: 0 <= i < |r| ==> r[i] == requests[i].url
  {
    seq(|requests|, i requires 0 <= i < |requests| => requests[i].url)
  }

  function Served(capacity: nat, requests: seq<Request>): State
    requires capacity >= 1
  {
    RunState(capacity, OpsOf(capacity, requests))
  }

  lemma RunAppend(capacity: nat, ops: seq<Op>, op: Op)
    requires capacity >= 1
    ensures RunState(capacity, ops + [op]) == StepState(capacity, RunState(capacity, ops), op)
    ensures Touched(capacity, ops + [op])
         == Touched(capacity, ops) + TouchedBy(RunState(capacity, ops), op)
  {
    assert (ops + [op])[..|ops|] == ops;
  }

  /** The operations of one more request behind those of the requests before it. */
  lemma OpsOfLast(capacity: nat, requests: seq<Request>, before: seq<Op>, r: Request)
    requires capacity >= 1 && requests != [] && r == requests[|requests| - 1]
    requires before == OpsOf(capacity, requests[..|requests| - 1])
    ensures OpsOf(capacity, requests)
         == if r.url in RunState(capacity, before).store then before + [Find(r.url)]
            else before + [Find(r.url)] + [Add(r.url, r.reply)]
  {
    assert before + [Find(r.url)] + [Add(r.url, r.reply)]
        == before + [Find(r.url), Add(r.url, r.reply)];
  }

  /** One more request touches its URL exactly once and moves the list accordingly. */
  lemma ServeStep(capacity: nat, requests: seq<Request>)
    requires capacity >= 1 && requests != []
    ensures var n := |requests| - 1;
      var r, s := requests[n], Served(capacity, requests[..n]);
      && Touched(capacity, OpsOf(capacity, requests))
         == Touched(capacity, OpsOf(capacity, requests[..n])) + [r.url]
      && Served(capacity, requests)
         == StepState(capacity, s, if r.url in s.store then Find(r.url) else Add(r.url, r.reply))
  {
    var n := |requests| - 1;
    var before, r := OpsOf(capacity, requests[..n]), requests[n];
    OpsOfLast(capacity, requests, before, r);
    RunAppend(capacity, before, Find(r.url));
    if r.url !in RunState(capacity, before).store {
      RunAppend(capacity, before + [Find(r.url)], Add(r.url, r.reply));
    }
  }

  lemma {:induction false} OpsWithoutRemove(capacity: nat, requests: seq<Request>)
    requires capacity >= 1
    ensures NoRemove(OpsOf(capacity, requests))
  {
    if requests != [] {
      OpsWithoutRemove(capacity, requests[..|requests| - 1]);
    }
  }

  lemma UrlsOfLast(requests: seq<Request>)
    requires requests != []
    ensures var n := |requests| - 1;
            UrlsOf(requests) == UrlsOf(requests[..n]) + [requests[n].url]
  {
  }

  lemma {:induction false} ServedHistory(capacity: nat, requests: seq<Request>)
    requires capacity >= 1
    ensures Touched(capacity, OpsOf(capacity, requests)) == UrlsOf(requests)
  {
    if requests != [] {
      ServedHistory(capacity, requests[..|requests| - 1]);
      ServeStep(capacity, requests);
      UrlsOfLast(requests);
    }
  }

  function LastIndex(h: seq<Url>, u: Url): (last: nat)
    requires u in h
    ensures last < |h| && h[last] == u && u !in h[last + 1..]
  {
    var n := |h| - 1;
    if h[n] == u then n
    else
      var last := LastIndex(h[..n], u);
      assert h[last + 1..] == h[..n][last + 1..] + [h[n]];
      last
  }

  /** The URLs behind the last occurrence of `u`. */
  function Following(h: seq<Url>, u: Url): set<Url>
    requires u in h
  {
    Elems(h[LastIndex(h, u) + 1..])
  }

  /** `u` occurs, and fewer than `capacity` distinct URLs follow its last occurrence. */
  predicate WithinDistance(capacity: nat, h: seq<Url>, u: Url) {
    u in h && |Following(h, u)| < capacity
  }

  lemma FollowingIs(h: seq<Url>, u: Url)
    requires u in h
    ensures Following(h, u) == Since(h, u)
  {
    SinceIs(h, u, LastIndex(h, u));
  }

  /** Reuse distance: after any get-or-fetch run the next request for `u` hits exactly
      when `u` was requested before and fewer than `capacity` distinct other URLs were
      requested since then. */
  lemma HitIffReuseDistance(capacity: nat, requests: seq<Request>, u: Url)
    requires capacity >= 1
    ensures u in Served(capacity, requests).store
       <==> WithinDistance(capacity, UrlsOf(requests), u)
  {
    ReachIff(capacity, requests, u);
    DistanceIff(capacity, UrlsOf(requests), u);
  }

  lemma ReachIff(capacity: nat, requests: seq<Request>, u: Url)
    requires capacity >= 1
    ensures u in Served(capacity, requests).store <==> WithinReach(capacity, UrlsOf(requests), u)
  {
    OpsWithoutRemove(capacity, requests);
    ServedHistory(capacity, requests);
    ResidentsAreMostRecent(capacity, OpsOf(capacity, requests));
  }

  lemma DistanceIff(capacity: nat, h: seq<Url>, u: Url)
    ensures WithinReach(capacity, h, u) <==> WithinDistance(capacity, h, u)
  {
    if u in h {
      FollowingIs(h, u);
    }
  }

  // ---------------------------------------------------------------- competitive bound

  /** The state after one request: find, and on a miss fetch and add. */
  function Serve(capacity: nat, s: State, r: Request): State
    requires capacity >= 1
  {
    StepState(capacity, s, if r.url in s.store then Find(r.url) else Add(r.url, r.reply))
  }

  function Misses(capacity: nat, s: State, requests: seq<Request>): nat
    requires capacity >= 1
    decreases |requests|
  {
    if requests == [] then 0
    else (if requests[0].url in s.store then 0 else 1)
         + Misses(capacity, Serve(capacity, s, requests[0]), requests[1..])
  }

  function ServeAll(capacity: nat, s: State, requests: seq<Request>): State
    requires capacity >= 1
    decreases |requests|
  {
    if requests == [] then s else ServeAll(capacity, Serve(capacity, s, requests[0]), requests[1..])
  }

  /** One more request at the end misses once more if its URL is not held by then. */
  lemma {:induction false} MissesAppend(capacity: nat, s: State, requests: seq<Request>, r: Request)
    requires capacity >= 1
    ensures Misses(capacity, s, requests + [r])
         == Misses(capacity, s, requests)
            + if r.url in ServeAll(capacity, s, requests).store then 0 else 1
    ensures ServeAll(capacity, s, requests + [r])
         == Serve(capacity, ServeAll(capacity, s, requests), r)
    decreases |requests|
  {
    if requests == [] {
      assert ([r])[1..] == [] && requests + [r] == [r];
    } else {
      assert (requests + [r])[1..] == requests[1..] + [r];
      MissesAppend(capacity, Serve(capacity, s, requests[0]), requests[1..], r);
    }
  }

  lemma MissesLast(capacity: nat, s: State, requests: seq<Request>)
    requires capacity >= 1 && requests != []
    ensures var n := |requests| - 1;
      var before := ServeAll(capacity, s, requests[..n]);
      && Misses(capacity, s, requests)
         == Misses(capacity, s, requests[..n]) + (if requests[n].url in before.store then 0 else 1)
      && ServeAll(capacity, s, requests) == Serve(capacity, before, requests[n])
  {
    var n := |requests| - 1;
    assert requests[..n] + [requests[n]] == requests;
    MissesAppend(capacity, s, requests[..n], requests[n]);
  }

  /** How many finds of a run of operations return nothing. */
  function FindMisses(capacity: nat, ops: seq<Op>): nat
    requires capacity >= 1
  {
    if ops == [] then 0
    else
      var n := |ops| - 1;
      FindMisses(capacity, ops[..n])
      + if ops[n].Find? && ReplyOf(RunState(capacity, ops[..n]), ops[n]) == None then 1 else 0
  }

  lemma FindMissesAppend(capacity: nat, ops: seq<Op>, op: Op)
    requires capacity >= 1
    ensures FindMisses(capacity, ops + [op])
         == FindMisses(capacity, ops)
            + if op.Find? && ReplyOf(RunState(capacity, ops), op) == None then 1 else 0
  {
    assert (ops + [op])[..|ops|] == ops;
  }

  /** The last request's find and, on a miss, its add. */
  lemma LastRequestMisses(capacity: nat, requests: seq<Request>)
    requires capacity >= 1 && requests != []
    ensures var n := |requests| - 1;
      FindMisses(capacity, OpsOf(capacity, requests))
      == FindMisses(capacity, OpsOf(capacity, requests[..n]))
         + if requests[n].url in Served(capacity, requests[..n]).store then 0 else 1
  {
    var n := |requests| - 1;
    var before, r := OpsOf(capacity, requests[..n]), requests[n];
    OpsOfLast(capacity, requests, before, r);
    FindMissesAppend(capacity, before, Find(r.url));
    if r.url !in RunState(capacity, before).store {
      FindMissesAppend(capacity, before + [Find(r.url)], Add(r.url, r.reply));
    }
  }

  /** The misses of a request sequence are the empty-handed finds of its run. */
  lemma {:induction false} MissesAreEmptyFinds(capacity: nat, requests: seq<Request>)
    requires capacity >= 1
    ensures Misses(capacity, EMPTY_STATE, requests) == FindMisses(capacity, OpsOf(capacity, requests))
    ensures ServeAll(capacity, EMPTY_STATE, requests) == Served(capacity, requests)
  {
    if requests != [] {
      var n := |requests| - 1;
      MissesAreEmptyFinds(capacity, requests[..n]);
      MissesLast(capacity, EMPTY_STATE, requests);
      ServeStep(capacity, requests);
      LastRequestMisses(capacity, requests);
    }
  }

  /** Any other cache for the same requests: it holds at most `h` URLs, loads a URL only
      when it is requested, and may drop whatever it likes, knowing the future. */
  ghost predicate DemandCache(h: nat, held: seq<set<Url>>, requests: seq<Request>) {
    && |held| == |requests| + 1
    && (forall i :: 0 <= i < |held| ==> |held[i]| <= h)
    && (forall i :: 0 <= i < |requests| ==>
          requests[i].url in held[i + 1] && held[i + 1] <= held[i] + {requests[i].url})
  }

  ghost function DemandMisses(held: seq<set<Url>>, requests: seq<Request>): nat
    requires |held| == |requests| + 1
  {
    if requests == [] then 0
    else (if requests[0].url in held[0] then 0 else 1) + DemandMisses(held[1..], requests[1..])
  }

  /** Weight of the listed URLs that the other cache lacks: `w` for the front of the list,
      one less for each position further back. */
  ghost function Weight(order: seq<Url>, d: set<Url>, w: int): int {
    if order == [] then 0
    else (if order[0] in d then 0 else w) + Weight(order[1..], d, w - 1)
  }

  ghost function Lacking(order: seq<Url>, d: set<Url>): nat {
    if order == [] then 0
    else (if order[0] in d then 0 else 1) + Lacking(order[1..], d)
  }

  lemma {:induction false} WeightShift(order: seq<Url>, d: set<Url>, w: int)
    ensures Weight(order, d, w - 1) == Weight(order, d, w) - Lacking(order, d)
  {
    if order != [] {
      WeightShift(order[1..], d, w - 1);
    }
  }

  /** A last element of weight zero does not count. */
  lemma {:induction false} WeightDropLast(order: seq<Url>, d: set<Url>)
    requires order != []
    ensures Weight(order[..|order| - 1], d, |order| - 1) == Weight(order, d, |order| - 1)
  {
    if |order| > 1 {
      WeightDropLast(order[1..], d);
      assert order[1..][..|order| - 2] == order[..|order| - 1][1..];
    }
  }

  lemma {:induction false} WeightErase(order: seq<Url>, d: set<Url>, u: Url, w: int)
    requires u in order && u in d && w >= |order|
    ensures Weight(Erase(order, u), d, w - 1) <= Weight(order, d, w)
  {
    if order[0] != u {
      WeightErase(order[1..], d, u, w - 1);
      var e := Erase(order[1..], u);
      assert ([order[0]] + e)[1..] == e;
    }
  }

  /** Losing one URL from the other cache adds at most the front weight. */
  lemma {:induction false} WeightLose(order: seq<Url>, d: set<Url>, d': set<Url>, v: Url, w: int)
    requires Distinct(order) && w >= |order| && d - {v} <= d'
    ensures Weight(order, d', w) <= Weight(order, d, w) + if v in order then w else 0
  {
    if order != [] {
      WeightLose(order[1..], d, d', v, w - 1);
      assert v in order[1..] ==> v in order && v != order[0];
    }
  }

  lemma {:induction false} LackingBound(order: seq<Url>, d: set<Url>)
    requires Distinct(order)
    ensures Lacking(order, d) + |d| >= |order|
  {
    if order != [] {
      if order[0] in d {
        LackingBound(order[1..], d - {order[0]});
        LackingSame(order[1..], d, order[0]);
      } else {
        LackingBound(order[1..], d);
      }
    }
  }

  lemma {:induction false} LackingSame(order: seq<Url>, d: set<Url>, u: Url)
    requires u !in order
    ensures Lacking(order, d - {u}) == Lacking(order, d)
  {
    if order != [] {
      LackingSame(order[1..], d, u);
    }
  }

  /** The potential of the amortised argument; `gap` is k - h + 1. */
  ghost function Potential(k: nat, gap: int, order: seq<Url>, d: set<Url>): int {
    Weight(order, d, k) + (k - |order|) * gap
  }

  /** The list side of one request for `u` that the other cache now holds: a hit does not
      raise the potential, a miss lowers it by `gap`. */
  lemma ServePotential(k: nat, h: nat, s: State, r: Request, d: set<Url>)
    requires 1 <= h <= k && Consistent(k, s) && r.url in d && |d| <= h
    ensures Potential(k, k - h + 1, Serve(k, s, r).order, d)
         <= Potential(k, k - h + 1, s.order, d)
            - if r.url in s.store then 0 else k - h + 1
  {
    if r.url in s.store {
      HitPotential(k, k - h + 1, s.order, r.url, d);
    } else if |s.order| < k {
      RoomPotential(k, k - h + 1, s.order, r.url, d);
    } else {
      FullPotential(k, h, s.order, r.url, d);
    }
  }

  lemma HitPotential(k: nat, gap: nat, order: seq<Url>, u: Url, d: set<Url>)
    requires u in order && u in d && |order| <= k
    ensures Potential(k, gap, [u] + Erase(order, u), d) <= Potential(k, gap, order, d)
  {
    WeightErase(order, d, u, k);
    assert ([u] + Erase(order, u))[1..] == Erase(order, u);
  }

  lemma RoomPotential(k: nat, gap: nat, order: seq<Url>, u: Url, d: set<Url>)
    requires u in d && |order| < k
    ensures Potential(k, gap, [u] + order, d) <= Potential(k, gap, order, d) - gap
  {
    WeightShift(order, d, k);
    assert ([u] + order)[1..] == order;
    assert (k - |order| - 1) * gap == (k - |order|) * gap - gap;
  }

  lemma FullPotential(k: nat, h: nat, order: seq<Url>, u: Url, d: set<Url>)
    requires 1 <= h <= k == |order| && Distinct(order) && u in d && u !in order && |d| <= h
    ensures Potential(k, k - h + 1, [u] + order[..k - 1], d)
         <= Potential(k, k - h + 1, order, d) - (k - h + 1)
  {
    WeightShift(order, d, k);
    WeightDropLast(order, d);
    LackingBound(order, d - {u});
    LackingSame(order, d, u);
    assert ([u] + order[..k - 1])[1..] == order[..k - 1];
  }

  /** A lazy companion of the other cache: it holds everything the other one holds, loads
      only on its own misses and then drops at most one URL. */
  lemma LazyStep(h: nat, c: set<Url>, d: set<Url>, c': set<Url>, u: Url)
    returns (d': set<Url>, lost: Url)
    requires c <= d && |d| <= h && u in c' && c' <= c + {u} && |c'| <= h
    ensures c' <= d' && |d'| <= h && u in d' && d - {lost} <= d'
    ensures u in d ==> d' == d
  {
    lost := u;
    if u in d {
      d' := d;
    } else if |d| < h {
      d' := d + {u};
    } else {
      if d <= c' {
        Grows(d + {u}, c');
      }
      lost :| lost in d && lost !in c';
      d' := d - {lost} + {u};
    }
  }

  /** One request on both sides: each miss of the list is paid for by the potential, each
      miss of the other cache adds at most k to it. */
  lemma StepPotential(k: nat, h: nat, s: State, r: Request,
                      c: set<Url>, d: set<Url>, c': set<Url>) returns (d': set<Url>)
    requires 1 <= h <= k && Consistent(k, s) && c <= d && |d| <= h
    requires r.url in c' && c' <= c + {r.url} && |c'| <= h
    ensures Consistent(k, Serve(k, s, r)) && c' <= d' && |d'| <= h
    ensures Potential(k, k - h + 1, Serve(k, s, r).order, d')
            + (if r.url in s.store then 0 else k - h + 1)
         <= Potential(k, k - h + 1, s.order, d) + if r.url in c then 0 else k
  {
    var lost;
    d', lost := LazyStep(h, c, d, c', r.url);
    if r.url !in d {
      WeightLose(s.order, d, d', lost, k);
    }
    ServePotential(k, h, s, r, d');
    StepConsistent(k, s, if r.url in s.store then Find(r.url) else Add(r.url, r.reply));
  }

  lemma TailDemand(h: nat, held: seq<set<Url>>, requests: seq<Request>)
    requires requests != [] && DemandCache(h, held, requests)
    ensures DemandCache(h, held[1..], requests[1..])
    ensures requests[0].url in held[1] && held[1] <= held[0] + {requests[0].url}
    ensures |held[1]| <= h
  {
  }

  /** Adding one step's account to the account of the rest. */
  lemma Summed(gap: int, k: int, a: int, misses: int, all: int, b: int, others: int,
               allOthers: int, before: int, after: int)
    requires after + gap * a <= before + k * b
    requires gap * misses <= k * others + after
    requires all == a + misses && allOthers == b + others
    ensures gap * all <= k * allOthers + before
  {
    assert gap * (a + misses) == gap * a + gap * misses;
    assert k * (b + others) == k * b + k * others;
  }

  /** The amortised step summed over a run. */
  lemma {:induction false} CompetitiveFrom(k: nat, h: nat, s: State, d: set<Url>,
                                           held: seq<set<Url>>, requests: seq<Request>)
    requires 1 <= h <= k && Consistent(k, s) && DemandCache(h, held, requests)
    requires held[0] <= d && |d| <= h
    ensures (k - h + 1) * Misses(k, s, requests)
         <= k * DemandMisses(held, requests) + Potential(k, k - h + 1, s.order, d)
    decreases |requests|
  {
    var gap := k - h + 1;
    if requests == [] {
      PotentialNatural(k, gap, s.order, d);
    } else {
      var r, rest, held' := requests[0], requests[1..], held[1..];
      var s' := Serve(k, s, r);
      var d' := StepPotential(k, h, s, r, held[0], d, held[1]);
      TailDemand(h, held, requests);
      CompetitiveFrom(k, h, s', d', held', rest);
      var a, b := if r.url in s.store then 0 else 1, if r.url in held[0] then 0 else 1;
      FirstMisses(k, s, held, requests, a, b);
      Summed(gap, k, a, Misses(k, s', rest), Misses(k, s, requests), b,
             DemandMisses(held', rest), DemandMisses(held, requests),
             Potential(k, gap, s.order, d), Potential(k, gap, s'.order, d'));
    }
  }

  lemma FirstMisses(k: nat, s: State, held: seq<set<Url>>, requests: seq<Request>, a: nat, b: nat)
    requires k >= 1 && requests != [] && |held| == |requests| + 1
    requires a == if requests[0].url in s.store then 0 else 1
    requires b == if requests[0].url in held[0] then 0 else 1
    ensures Misses(k, s, requests) == a + Misses(k, Serve(k, s, requests[0]), requests[1..])
    ensures DemandMisses(held, requests) == b + DemandMisses(held[1..], requests[1..])
  {
  }

  lemma {:induction false} WeightNatural(order: seq<Url>, d: set<Url>, w: int)
    requires w >= |order|
    ensures Weight(order, d, w) >= 0
  {
    if order != [] {
      WeightNatural(order[1..], d, w - 1);
    }
  }

  lemma PotentialNatural(k: nat, gap: nat, order: seq<Url>, d: set<Url>)
    requires |order| <= k
    ensures Potential(k, gap, order, d) >= 0
  {
    WeightNatural(order, d, k);
    ProductNatural(k - |order|, gap);
  }

  lemma ProductNatural(a: nat, b: nat)
    ensures a * b >= 0
  {
  }

  /** Competitive bound. From the empty cache, LRU with capacity k against any demand cache
      that holds at most h <= k URLs: (k-h+1) * misses <= k * other's misses + k*(k-h+1).
      For h == k this says misses <= k * other's misses + k. */
  lemma Competitive(k: nat, h: nat, held: seq<set<Url>>, requests: seq<Request>)
    requires 1 <= h <= k && DemandCache(h, held, requests)
    ensures (k - h + 1) * Misses(k, EMPTY_STATE, requests)
         <= k * DemandMisses(held, requests) + k * (k - h + 1)
    ensures h == k ==>
         Misses(k, EMPTY_STATE, requests) <= k * DemandMisses(held, requests) + k
  {
    CompetitiveFrom(k, h, EMPTY_STATE, held[0], held, requests);
  }
}
