/** Over every run with the intended bucket placement, the two-level bucket structure is
    the reference cache with hit counters and a clock; and when the literal placement is. */
module LFUTheory {
  import opened Options
  import opened Sequences
  import opened CacheReference
  import opened LFUCache

  /** All residents of one bucket have its frequency as their hit count, newest first. */
  ghost predicate BucketOk(k: Bucket, m: map<Url, Resident>) {
    && ByRecency(k.urls, m)
    && forall i :: 0 <= i < |k.urls| ==> m[k.urls[i]].hits == k.frequency
  }

  ghost predicate Listed(b: seq<Bucket>, u: Url) {
    exists i :: 0 <= i < |b| && u in b[i].urls
  }

  ghost predicate Ascending(b: seq<Bucket>) {
    forall i, j :: 0 <= i < j < |b| ==> b[i].frequency < b[j].frequency
  }

  /** Frequencies strictly increase from a permanent front bucket 0, every bucket is in
      order, and every resident is listed. */
  ghost predicate Structured(b: seq<Bucket>, m: map<Url, Resident>) {
    && b != [] && b[0].frequency == 0
    && Ascending(b)
    && (forall i :: 0 <= i < |b| ==> BucketOk(b[i], m))
    && (forall u :: u in m ==> Listed(b, u))
  }

  ghost predicate Represents(s: State, r: Reference) {
    && s.store.Keys == r.residents.Keys
    && (forall u :: u in r.residents ==>
          s.store[u] == r.residents[u].data && r.residents[u].touched < r.clock)
    && Structured(s.buckets, r.residents)
  }

  lemma RecencyDistinct(order: seq<Url>, m: map<Url, Resident>)
    requires ByRecency(order, m)
    ensures Distinct(order)
  {
  }

  /** A URL is listed in one bucket only, the one of its hit count. */
  lemma OnlyHolder(b: seq<Bucket>, m: map<Url, Resident>, u: Url, i: nat)
    requires Structured(b, m) && i < |b| && u in b[i].urls
    ensures Holder(b, u) == i && u in m && m[u].hits == b[i].frequency
    ensures forall j :: 0 <= j < |b| && j != i ==> u !in b[j].urls
  {
    HitsOf(b[i], m, u);
    forall j | 0 <= j < |b| && u in b[j].urls ensures j == i {
      HitsOf(b[j], m, u);
    }
  }

  lemma HitsOf(k: Bucket, m: map<Url, Resident>, u: Url)
    requires BucketOk(k, m) && u in k.urls
    ensures u in m && m[u].hits == k.frequency
  {
    var i :| 0 <= i < |k.urls| && k.urls[i] == u;
  }

  lemma HitsDiffer(k: Bucket, m: map<Url, Resident>, u: Url)
    requires BucketOk(k, m) && u in m && m[u].hits != k.frequency
    ensures u !in k.urls
  {
  }

  lemma HolderExists(b: seq<Bucket>, m: map<Url, Resident>, u: Url)
    requires Structured(b, m) && u in m
    ensures Holder(b, u) < |b| && m[u].hits == b[Holder(b, u)].frequency
  {
    assert Listed(b, u);
    var i :| 0 <= i < |b| && u in b[i].urls;
    OnlyHolder(b, m, u, i);
  }

  // ---------------------------------------------------------------- the three phases

  lemma InsertAscending(b: seq<Bucket>, p: nat, k: Bucket)
    requires Ascending(b) && p <= |b|
    requires forall i :: 0 <= i < p ==> b[i].frequency < k.frequency
    requires p < |b| ==> k.frequency < b[p].frequency
    ensures Ascending(InsertAt(b, p, k))
  {
    var b' := InsertAt(b, p, k);
    forall i, j | 0 <= i < j < |b'| ensures b'[i].frequency < b'[j].frequency {
      assert j > p && p < |b| ==> b[p].frequency <= b[j - 1].frequency;
    }
  }

  ghost predicate IsFirstAtLeast(b: seq<Bucket>, p: nat, f: nat) {
    && p <= |b| && (p < |b| ==> b[p].frequency >= f)
    && forall i :: 0 <= i < p ==> b[i].frequency < f
  }

  lemma InsertListed(b: seq<Bucket>, p: nat, k: Bucket, u: Url)
    requires p <= |b| && Listed(b, u)
    ensures Listed(InsertAt(b, p, k), u)
  {
    var i :| 0 <= i < |b| && u in b[i].urls;
    assert InsertAt(b, p, k)[if i < p then i else i + 1] == b[i];
  }

  lemma InsertStructured(b: seq<Bucket>, m: map<Url, Resident>, p: nat, f: nat)
    requires Structured(b, m) && f >= 1 && IsFirstAtLeast(b, p, f) && NeedsBucket(b, p, f)
    ensures Structured(InsertAt(b, p, Bucket(f, [])), m)
  {
    var k := Bucket(f, []);
    var b' := InsertAt(b, p, k);
    InsertAscending(b, p, k);
    assert p > 0 && b'[0] == b[0];
    forall i | 0 <= i < |b'| ensures BucketOk(b'[i], m) {
      assert b'[i] == if i < p then b[i] else if i == p then k else b[i - 1];
    }
    forall u | u in m ensures Listed(b', u) {
      InsertListed(b, p, k, u);
    }
  }

  lemma WidenStructured(b: seq<Bucket>, m: map<Url, Resident>, p: nat, f: nat)
    requires Structured(b, m) && f >= 1 && IsFirstAtLeast(b, p, f)
    ensures Structured(Widen(b, p, f), m)
  {
    if NeedsBucket(b, p, f) {
      InsertStructured(b, m, p, f);
    }
  }

  lemma OtherBucket(k: Bucket, m: map<Url, Resident>, u: Url, e: Resident)
    requires BucketOk(k, m) && u !in k.urls
    ensures BucketOk(k, m[u := e]) && BucketOk(k, m - {u})
  {
    OnlyListed(k.urls, m, m[u := e]);
    OnlyListed(k.urls, m, m - {u});
  }

  lemma ErasedBucket(k: Bucket, m: map<Url, Resident>, u: Url, e: Resident)
    requires BucketOk(k, m)
    ensures var k' := k.(urls := Erase(k.urls, u));
            BucketOk(k', m - {u}) && BucketOk(k', m[u := e])
  {
    RecencyDistinct(k.urls, m);
    ErasedByRecency(k.urls, m, u);
    var k' := k.(urls := Erase(k.urls, u));
    EraseKeeps(k.urls, u);
    forall i | 0 <= i < |k'.urls| ensures (m - {u})[k'.urls[i]].hits == k.frequency {
      assert k'.urls[i] in k.urls;
      HitsOf(k, m, k'.urls[i]);
    }
    OnlyListed(k'.urls, m - {u}, m[u := e]);
  }

  lemma FrontedBucket(k: Bucket, m: map<Url, Resident>, u: Url, e: Resident)
    requires BucketOk(k, m) && u !in k.urls && e.hits == k.frequency
    requires forall x :: x in m ==> m[x].touched < e.touched
    ensures BucketOk(k.(urls := [u] + k.urls), m[u := e])
  {
    FreshInFront(k.urls, m, u, e);
  }

  lemma MovedOk(b: seq<Bucket>, m: map<Url, Resident>, from: nat, to: nat, u: Url, e: Resident,
                i: nat)
    requires from < |b| && to < |b| && from != to && i < |b| && BucketOk(b[i], m)
    requires i != from ==> u !in b[i].urls
    requires e.hits == b[to].frequency && forall x :: x in m ==> m[x].touched < e.touched
    ensures BucketOk(Move(b, from, to, u)[i], m[u := e])
  {
    if i == from {
      ErasedBucket(b[from], m, u, e);
    } else if i == to {
      FrontedBucket(b[to], m, u, e);
    } else {
      OtherBucket(b[i], m, u, e);
    }
  }

  lemma MovedListed(b: seq<Bucket>, from: nat, to: nat, u: Url, x: Url)
    requires from < |b| && to < |b| && from != to && Distinct(b[from].urls)
    requires x == u || Listed(b, x)
    ensures Listed(Move(b, from, to, u), x)
  {
    var b' := Move(b, from, to, u);
    if x == u {
      assert u in b'[to].urls;
    } else {
      var i :| 0 <= i < |b| && x in b[i].urls;
      EraseKeeps(b[from].urls, u);
      assert x in b'[i].urls;
    }
  }

  lemma MoveStructured(b: seq<Bucket>, m: map<Url, Resident>, from: nat, to: nat,
                       u: Url, e: Resident)
    requires Structured(b, m) && from < |b| && to < |b| && from != to
    requires u in b[from].urls && e.hits == b[to].frequency
    requires forall x :: x in m ==> m[x].touched < e.touched
    ensures Structured(Move(b, from, to, u), m[u := e])
  {
    OnlyHolder(b, m, u, from);
    RecencyDistinct(b[from].urls, m);
    var b' := Move(b, from, to, u);
    forall i | 0 <= i < |b| ensures BucketOk(b'[i], m[u := e]) {
      MovedOk(b, m, from, to, u, e, i);
    }
    forall x | x in m[u := e] ensures Listed(b', x) {
      MovedListed(b, from, to, u, x);
    }
  }

  lemma DropAscending(b: seq<Bucket>, i: nat)
    requires Ascending(b) && i < |b|
    ensures Ascending(DropAt(b, i))
  {
  }

  lemma DropListed(b: seq<Bucket>, i: nat, u: Url)
    requires i < |b| && b[i].urls == [] && Listed(b, u)
    ensures Listed(DropAt(b, i), u)
  {
    var j :| 0 <= j < |b| && u in b[j].urls;
    assert DropAt(b, i)[if j < i then j else j - 1] == b[j];
  }

  lemma PruneStructured(b: seq<Bucket>, m: map<Url, Resident>, i: nat)
    requires Structured(b, m) && i < |b|
    ensures Structured(Prune(b, i), m)
  {
    if b[i].urls == [] && i != 0 {
      DropStructured(b, m, i);
    }
  }

  lemma DropStructured(b: seq<Bucket>, m: map<Url, Resident>, i: nat)
    requires Structured(b, m) && i < |b| && b[i].urls == [] && i != 0
    ensures Structured(DropAt(b, i), m)
  {
    var b' := DropAt(b, i);
    DropAscending(b, i);
    forall j | 0 <= j < |b'| ensures BucketOk(b'[j], m) {
      assert b'[j] == b[if j < i then j else j + 1];
    }
    forall u | u in m ensures Listed(b', u) {
      DropListed(b, i, u);
    }
  }

  lemma EraseStructured(b: seq<Bucket>, m: map<Url, Resident>, i: nat, u: Url)
    requires Structured(b, m) && i < |b| && u in b[i].urls
    ensures Structured(b[i := b[i].(urls := Erase(b[i].urls, u))], m - {u})
  {
    OnlyHolder(b, m, u, i);
    var b' := b[i := b[i].(urls := Erase(b[i].urls, u))];
    forall j | 0 <= j < |b| ensures BucketOk(b'[j], m - {u}) {
      if j == i {
        ErasedBucket(b[i], m, u, m[u]);
      } else {
        OtherBucket(b[j], m, u, m[u]);
      }
    }
    forall x | x in m - {u} ensures Listed(b', x) {
      assert Listed(b, x);
      var j :| 0 <= j < |b| && x in b[j].urls;
      RecencyDistinct(b[i].urls, m);
      EraseKeeps(b[i].urls, u);
      assert x in b'[j].urls;
    }
  }

  lemma PushStructured(b: seq<Bucket>, m: map<Url, Resident>, u: Url, e: Resident)
    requires Structured(b, m) && u !in m && e.hits == 0
    requires forall x :: x in m ==> m[x].touched < e.touched
    ensures Structured(PushFront(b, u), m[u := e])
  {
    var b' := PushFront(b, u);
    forall i | 0 <= i < |b| ensures BucketOk(b'[i], m[u := e]) {
      NotInBucket(b[i], m, u);
      if i == 0 {
        FrontedBucket(b[0], m, u, e);
      } else {
        OtherBucket(b[i], m, u, e);
      }
    }
    forall x | x in m[u := e] ensures Listed(b', x) {
      if x == u {
        assert u in b'[0].urls;
      } else {
        assert Listed(b, x);
        var i :| 0 <= i < |b| && x in b[i].urls;
        assert x in b'[i].urls;
      }
    }
  }

  lemma NotInBucket(k: Bucket, m: map<Url, Resident>, u: Url)
    requires BucketOk(k, m) && u !in m
    ensures u !in k.urls
  {
  }

  // ---------------------------------------------------------------- whole operations

  lemma RaiseStructured(b: seq<Bucket>, m: map<Url, Resident>, from: nat, p: nat,
                        u: Url, e: Resident)
    requires Structured(b, m) && from < |b| && u in b[from].urls
    requires IsFirstAtLeast(b, p, b[from].frequency + 1)
    requires e.hits == b[from].frequency + 1 && forall x :: x in m ==> m[x].touched < e.touched
    ensures Structured(Raise(b, from, u, p), m[u := e])
  {
    var next := b[from].frequency + 1;
    var from' := Shifted(b, p, next, from);
    var b' := Widen(b, p, next);
    ShiftedApart(b, from, p);
    assert b'[from'] == b[from] && b'[p].frequency == next;
    WidenStructured(b, m, p, next);
    RaiseIs(b, from, u, p, next, from', b', Prune(Move(b', from', p, u), from'));
    MovePruneStructured(b', m, from', p, u, e);
  }

  lemma MovePruneStructured(b: seq<Bucket>, m: map<Url, Resident>, from: nat, to: nat,
                            u: Url, e: Resident)
    requires Structured(b, m) && from < |b| && to < |b| && from != to
    requires u in b[from].urls && e.hits == b[to].frequency
    requires forall x :: x in m ==> m[x].touched < e.touched
    ensures Structured(Prune(Move(b, from, to, u), from), m[u := e])
  {
    MoveStructured(b, m, from, to, u, e);
    PruneStructured(Move(b, from, to, u), m[u := e], from);
  }

  lemma TouchWith(s: State, r: Reference, u: Url, b: seq<Bucket>)
    requires Represents(s, r) && u in r.residents && Structured(b, Touch(r, u).residents)
    ensures Represents(s.(buckets := b), Touch(r, u))
  {
  }

  lemma TouchAt(s: State, r: Reference, u: Url, from: nat, p: nat)
    requires Represents(s, r) && u in r.residents
    requires from < |s.buckets| && u in s.buckets[from].urls
    requires r.residents[u].hits == s.buckets[from].frequency
    requires IsFirstAtLeast(s.buckets, p, s.buckets[from].frequency + 1)
    ensures Represents(s.(buckets := Raise(s.buckets, from, u, p)), Touch(r, u))
  {
    RaiseStructured(s.buckets, r.residents, from, p, u, Touch(r, u).residents[u]);
    TouchWith(s, r, u, Raise(s.buckets, from, u, p));
  }

  lemma TouchRepresents(s: State, r: Reference, u: Url)
    requires Represents(s, r) && u in s.store
    ensures Holder(s.buckets, u) < |s.buckets|
    ensures Represents(s.(buckets := Increment(s.buckets, u, MeantPlace(s.buckets, u))),
                       Touch(r, u))
  {
    HolderExists(s.buckets, r.residents, u);
    TouchAt(s, r, u, Holder(s.buckets, u), MeantPlace(s.buckets, u));
  }

  function Last(s: seq<Url>): Url
    requires s != []
  {
    s[|s| - 1]
  }

  /** Within a bucket the back was touched first. */
  lemma BackIsOldest(k: Bucket, m: map<Url, Resident>, u: Url)
    requires BucketOk(k, m) && u in k.urls && u != Last(k.urls)
    ensures Last(k.urls) in m && u in m
    ensures Before(LeastFrequentlyUsed, m[Last(k.urls)], m[u])
  {
    var n := |k.urls| - 1;
    var j :| 0 <= j < |k.urls| && k.urls[j] == u;
    assert m[k.urls[j]].touched > m[k.urls[n]].touched;
    assert m[k.urls[j]].hits == m[k.urls[n]].hits;
  }

  /** An element of a later bucket has more hits. */
  lemma LaterHasMore(b: seq<Bucket>, m: map<Url, Resident>, f: nat, i: nat, u: Url)
    requires Ascending(b) && f < i < |b| && BucketOk(b[f], m) && BucketOk(b[i], m)
    requires b[f].urls != [] && u in b[i].urls
    ensures Last(b[f].urls) in m && u in m
    ensures Before(LeastFrequentlyUsed, m[Last(b[f].urls)], m[u])
  {
    HitsOf(b[i], m, u);
    HitsOf(b[f], m, Last(b[f].urls));
  }

  lemma VictimBefore(b: seq<Bucket>, m: map<Url, Resident>, f: nat, u: Url)
    requires Structured(b, m) && f < |b| && b[f].urls != []
    requires forall j :: 0 <= j < f ==> b[j].urls == []
    requires u in m && u != Last(b[f].urls)
    ensures Last(b[f].urls) in m
    ensures Before(LeastFrequentlyUsed, m[Last(b[f].urls)], m[u])
  {
    assert Listed(b, u);
    var i :| 0 <= i < |b| && u in b[i].urls;
    assert BucketOk(b[i], m) && BucketOk(b[f], m);
    if i == f {
      BackIsOldest(b[f], m, u);
    } else {
      LaterHasMore(b, m, f, i, u);
    }
  }

  /** The back of the first non-empty bucket has the fewest hits and, among those, the
      oldest touch. */
  lemma BackIsVictim(b: seq<Bucket>, m: map<Url, Resident>)
    requires Structured(b, m) && m != map[]
    ensures FirstNonEmpty(b) < |b|
    ensures IsVictim(LeastFrequentlyUsed, m, Last(b[FirstNonEmpty(b)].urls))
  {
    var f := FirstNonEmpty(b);
    SomeFilled(b, m, f);
    VictimOf(b, m, f);
  }

  lemma VictimOf(b: seq<Bucket>, m: map<Url, Resident>, f: nat)
    requires Structured(b, m) && f < |b| && b[f].urls != []
    requires forall j :: 0 <= j < f ==> b[j].urls == []
    ensures IsVictim(LeastFrequentlyUsed, m, Last(b[f].urls))
  {
    var v := Last(b[f].urls);
    HitsOf(b[f], m, v);
    forall u | u in m && u != v ensures Before(LeastFrequentlyUsed, m[v], m[u]) {
      VictimBefore(b, m, f, u);
    }
  }

  lemma SomeFilled(b: seq<Bucket>, m: map<Url, Resident>, f: nat)
    requires Structured(b, m) && m != map[] && f <= |b|
    requires forall j :: 0 <= j < f ==> b[j].urls == []
    ensures f < |b|
  {
    var x :| x in m;
    assert Listed(b, x);
  }

  lemma DropBackOf(b: seq<Bucket>, m: map<Url, Resident>, f: nat)
    requires Structured(b, m) && f < |b| && b[f].urls != []
    ensures var urls := b[f].urls; var n := |urls| - 1;
            Structured(Prune(b[f := b[f].(urls := urls[..n])], f), m - {urls[n]})
  {
    var urls := b[f].urls;
    var n := |urls| - 1;
    RecencyDistinct(urls, m);
    EraseAt(urls, n);
    assert Erase(urls, urls[n]) == urls[..n];
    EraseStructured(b, m, f, urls[n]);
    PruneStructured(b[f := b[f].(urls := urls[..n])], m - {urls[n]}, f);
  }

  lemma EvictRepresents(s: State, r: Reference)
    requires Represents(s, r) && r.residents != map[]
    ensures Represents(DropBack(s), r.(residents := Evict(LeastFrequentlyUsed, r.residents)))
  {
    BackIsVictim(s.buckets, r.residents);
    EvictAt(s, r, FirstNonEmpty(s.buckets));
  }

  lemma RepresentsLess(s: State, r: Reference, b: seq<Bucket>, v: Url)
    requires Represents(s, r) && Structured(b, r.residents - {v})
    ensures Represents(State(b, s.store - {v}), r.(residents := r.residents - {v}))
  {
  }

  lemma EvictAt(s: State, r: Reference, f: nat)
    requires Represents(s, r) && f < |s.buckets| && s.buckets[f].urls != []
    requires IsVictim(LeastFrequentlyUsed, r.residents, Last(s.buckets[f].urls))
    ensures var urls := s.buckets[f].urls; var n := |urls| - 1;
      Represents(State(Prune(s.buckets[f := s.buckets[f].(urls := urls[..n])], f), s.store - {urls[n]}),
                 r.(residents := Evict(LeastFrequentlyUsed, r.residents)))
  {
    var urls := s.buckets[f].urls;
    var n := |urls| - 1;
    EvictIs(LeastFrequentlyUsed, r.residents, urls[n]);
    DropBackOf(s.buckets, r.residents, f);
    RepresentsLess(s, r, Prune(s.buckets[f := s.buckets[f].(urls := urls[..n])], f), urls[n]);
  }

  lemma InsertRepresents(s: State, r: Reference, u: Url, d: Bytes)
    requires Represents(s, r) && u !in s.store
    ensures Represents(State(PushFront(s.buckets, u), s.store[u := d]),
                       Reference(r.residents[u := Resident(d, 0, r.clock)], r.clock + 1))
  {
    PushStructured(s.buckets, r.residents, u, Resident(d, 0, r.clock));
  }

  lemma RemoveAt(s: State, r: Reference, u: Url, h: nat)
    requires Represents(s, r) && h < |s.buckets| && u in s.buckets[h].urls
    ensures var k := s.buckets[h];
            Represents(State(s.buckets[h := k.(urls := Erase(k.urls, u))], s.store - {u}),
                       r.(residents := r.residents - {u}))
  {
    EraseStructured(s.buckets, r.residents, h, u);
    var k := s.buckets[h];
    RepresentsLess(s, r, s.buckets[h := k.(urls := Erase(k.urls, u))], u);
  }

  lemma RemoveRepresents(s: State, r: Reference, u: Url)
    requires Represents(s, r)
    ensures Represents(StepState(0, s, Remove(u)), r.(residents := r.residents - {u}))
  {
    var h := Holder(s.buckets, u);
    if u in s.store {
      HolderExists(s.buckets, r.residents, u);
    }
    if h < |s.buckets| {
      RemoveAt(s, r, u, h);
    } else {
      assert r.residents - {u} == r.residents;
    }
  }

  lemma ReferenceAdd(capacity: nat, r: Reference, u: Url, d: Bytes, kept: map<Url, Resident>)
    requires u !in r.residents
    requires kept == if |r.residents| >= capacity then Evict(LeastFrequentlyUsed, r.residents)
                     else r.residents
    ensures Step(LeastFrequentlyUsed, capacity, r, Add(u, d))
         == Reference(kept[u := Resident(d, 0, r.clock)], r.clock + 1)
  {
  }

  lemma AddMissRepresents(capacity: nat, s: State, r: Reference, u: Url, d: Bytes)
    requires capacity >= 1 && Represents(s, r) && u !in s.store
    ensures Represents(AddMiss(capacity, s, u, d), Step(LeastFrequentlyUsed, capacity, r, Add(u, d)))
  {
    SameSize(s, r);
    var t, q := s, r;
    if |s.store| >= capacity {
      EvictRepresents(s, r);
      t, q := DropBack(s), r.(residents := Evict(LeastFrequentlyUsed, r.residents));
    }
    ReferenceAdd(capacity, r, u, d, q.residents);
    AddMissIs(capacity, s, t, u, d, State(PushFront(t.buckets, u), t.store[u := d]));
    InsertRepresents(t, q, u, d);
  }

  lemma StepRepresents(capacity: nat, s: State, r: Reference, op: Op)
    requires capacity >= 1 && Represents(s, r)
    ensures Touches(s, op) ==> Holder(s.buckets, op.url) < |s.buckets|
    ensures Represents(StepState(capacity, s, op), Step(LeastFrequentlyUsed, capacity, r, op))
    ensures ReplyOf(s, op) == Reply(r, op)
  {
    if op.Remove? {
      RemoveRepresents(s, r, op.url);
    } else if op.url in s.store {
      TouchRepresents(s, r, op.url);
    } else if op.Add? {
      AddMissRepresents(capacity, s, r, op.url, op.data);
    }
  }

  lemma SameSize(s: State, r: Reference)
    requires Represents(s, r)
    ensures |s.store| == |r.residents|
  {
    assert |s.store.Keys| == |r.residents.Keys|;
  }

  // ---------------------------------------------------------------- every run

  /** The run with the intended placement; its result is the reference cache's state. */
  function RunState(capacity: nat, ops: seq<Op>): (s: State)
    requires capacity >= 1
    ensures Represents(s, Run(LeastFrequentlyUsed, capacity, ops))
  {
    if ops == [] then EMPTY_STATE
    else
      var n := |ops| - 1;
      var t := RunState(capacity, ops[..n]);
      StepRepresents(capacity, t, Run(LeastFrequentlyUsed, capacity, ops[..n]), ops[n]);
      StepState(capacity, t, ops[n])
  }

  /** Every reply of every run is the reference cache's reply, so hits, hit counts and
      evictions are those of "fewest hits, ties by oldest touch". */
  lemma RepliesMatchReference(capacity: nat, ops: seq<Op>, op: Op)
    requires capacity >= 1
    ensures ReplyOf(RunState(capacity, ops), op)
         == Reply(Run(LeastFrequentlyUsed, capacity, ops), op)
  {
    var s := RunState(capacity, ops);
  }

  /** What an add that must evict throws out: the resident with the fewest hits since its
      insertion and, among those, the oldest touch. Nothing else goes. */
  lemma EvictedIsLeastFrequent(capacity: nat, ops: seq<Op>, u: Url, d: Bytes) returns (v: Url)
    requires capacity >= 1
    requires var s := RunState(capacity, ops); u !in s.store && |s.store| >= capacity
    ensures IsVictim(LeastFrequentlyUsed, Run(LeastFrequentlyUsed, capacity, ops).residents, v)
    ensures RunState(capacity, ops + [Add(u, d)]).store
         == (RunState(capacity, ops).store - {v})[u := d]
  {
    v := AddEvicts(capacity, RunState(capacity, ops), Run(LeastFrequentlyUsed, capacity, ops), u, d);
    RunAppend(capacity, ops, Add(u, d));
  }

  /** Making room takes exactly one URL out of the store and leaves a bucket. */
  lemma DropBackStore(s: State)
    requires FirstNonEmpty(s.buckets) < |s.buckets|
    ensures DropBack(s).buckets != []
    ensures DropBack(s).store == s.store - {Last(s.buckets[FirstNonEmpty(s.buckets)].urls)}
  {
  }

  lemma AddEvicts(capacity: nat, s: State, r: Reference, u: Url, d: Bytes) returns (v: Url)
    requires capacity >= 1 && Represents(s, r) && u !in s.store && |s.store| >= capacity
    ensures IsVictim(LeastFrequentlyUsed, r.residents, v)
    ensures AddMiss(capacity, s, u, d).store == (s.store - {v})[u := d]
  {
    SameSize(s, r);
    BackIsVictim(s.buckets, r.residents);
    v := Last(s.buckets[FirstNonEmpty(s.buckets)].urls);
    DropBackStore(s);
  }

  lemma AddFits(capacity: nat, s: State, r: Reference, u: Url, d: Bytes)
    requires Represents(s, r) && |s.store| < capacity
    ensures AddMiss(capacity, s, u, d).store == s.store[u := d]
  {
  }

  lemma RunAppend(capacity: nat, ops: seq<Op>, op: Op)
    requires capacity >= 1
    ensures Touches(RunState(capacity, ops), op) ==>
              Holder(RunState(capacity, ops).buckets, op.url) < |RunState(capacity, ops).buckets|
    ensures RunState(capacity, ops + [op]) == StepState(capacity, RunState(capacity, ops), op)
  {
    StepRepresents(capacity, RunState(capacity, ops), Run(LeastFrequentlyUsed, capacity, ops), op);
    assert (ops + [op])[..|ops|] == ops;
  }

  // ---------------------------------------------------------------- number of buckets

  ghost predicate TailFilled(b: seq<Bucket>) {
    forall i :: 1 <= i < |b| ==> b[i].urls != []
  }

  lemma RaiseTailFilled(b: seq<Bucket>, from: nat, p: nat, u: Url)
    requires TailFilled(b) && from < |b| && from < p
    requires IsFirstAtLeast(b, p, b[from].frequency + 1)
    ensures TailFilled(Raise(b, from, u, p))
  {
    var next := b[from].frequency + 1;
    var b' := Widen(b, p, next);
    var moved := Move(b', from, p, u);
    forall i | 1 <= i < |b'| && i != p ensures b'[i].urls != [] {
      assert b'[i] == if NeedsBucket(b, p, next) && i > p then b[i - 1] else b[i];
    }
    forall i | 1 <= i < |moved| && i != from ensures moved[i].urls != [] {
      assert i != p ==> moved[i] == b'[i];
    }
  }

  lemma MeantIsFurther(b: seq<Bucket>, u: Url)
    requires Ascending(b) && Holder(b, u) < |b|
    ensures Holder(b, u) < MeantPlace(b, u)
    ensures IsFirstAtLeast(b, MeantPlace(b, u), b[Holder(b, u)].frequency + 1)
  {
  }

  lemma DropBackTailFilled(s: State)
    requires TailFilled(s.buckets)
    ensures TailFilled(DropBack(s).buckets)
  {
  }

  lemma PushTailFilled(b: seq<Bucket>, u: Url)
    requires TailFilled(b) && b != []
    ensures TailFilled(PushFront(b, u))
  {
  }

  lemma StepTailFilled(capacity: nat, s: State, r: Reference, op: Op)
    requires capacity >= 1 && Represents(s, r) && TailFilled(s.buckets) && !op.Remove?
    requires Touches(s, op) ==> Holder(s.buckets, op.url) < |s.buckets|
    ensures TailFilled(StepState(capacity, s, op).buckets)
  {
    if Touches(s, op) {
      var b, u := s.buckets, op.url;
      MeantIsFurther(b, u);
      RaiseTailFilled(b, Holder(b, u), MeantPlace(b, u), u);
    } else if op.Add? {
      var t := if |s.store| >= capacity then DropBack(s) else s;
      DropBackTailFilled(s);
      if t.buckets != [] {
        PushTailFilled(t.buckets, op.url);
      }
    }
  }

  /** Every listed URL once, bucket after bucket. */
  function AllUrls(b: seq<Bucket>): seq<Url> {
    if b == [] then [] else AllUrls(b[..|b| - 1]) + b[|b| - 1].urls
  }

  lemma {:induction false} AllUrlsHave(b: seq<Bucket>, u: Url)
    ensures u in AllUrls(b) <==> Listed(b, u)
  {
    if b != [] {
      var n := |b| - 1;
      AllUrlsHave(b[..n], u);
      if Listed(b, u) {
        var i :| 0 <= i < |b| && u in b[i].urls;
        assert i < n ==> b[..n][i] == b[i];
      }
      if Listed(b[..n], u) {
        var i :| 0 <= i < n && u in b[..n][i].urls;
        assert u in b[i].urls;
      }
    }
  }

  /** Index size equals the sum of the bucket lengths, and only the front may be empty, so
      there is at most one bucket more than there are residents. */
  lemma {:induction false} AllUrlsSize(b: seq<Bucket>, m: map<Url, Resident>)
    requires Ascending(b) && forall i :: 0 <= i < |b| ==> BucketOk(b[i], m)
    ensures Distinct(AllUrls(b)) && Elems(AllUrls(b)) <= m.Keys
    ensures TailFilled(b) ==> |b| <= |AllUrls(b)| + 1
  {
    if b != [] {
      var n := |b| - 1;
      AllUrlsSize(b[..n], m);
      RecencyDistinct(b[n].urls, m);
      forall u | u in AllUrls(b[..n]) ensures u in m && u !in b[n].urls {
        AllUrlsHave(b[..n], u);
        var i :| 0 <= i < n && u in b[..n][i].urls;
        HitsOf(b[i], m, u);
        HitsDiffer(b[n], m, u);
      }
    }
  }

  /** For every agreeing bucket list, whatever the placement did: each indexed URL is listed
      exactly once, so the index size is the sum of the bucket lengths. */
  lemma AgreeListsEachOnce(sh: Shape)
    requires Agree(sh)
    ensures var all := AllUrls(BucketsOf(sh));
      Distinct(all) && Elems(all) == sh.index.Keys && |all| == |sh.index|
  {
    var b := BucketsOf(sh);
    assert b[..|b|] == b;
    PrefixOnce(sh, |b|);
    forall u | u in sh.index ensures u in AllUrls(b) {
      var from := IndexOf(sh, u);
      ElementIn(sh, u, from);
      UrlsHave(sh.lists[from], sh.index[u].1);
      assert u in b[from].urls;
      AllUrlsHave(b, u);
    }
    DistinctSize(AllUrls(b));
    assert |sh.index.Keys| == |sh.index|;
  }

  lemma {:induction false} PrefixOnce(sh: Shape, n: nat)
    requires Agree(sh) && n <= |sh.nodes|
    ensures var all := AllUrls(BucketsOf(sh)[..n]);
      Distinct(all) && Elems(all) <= sh.index.Keys
  {
    if n > 0 {
      var b := BucketsOf(sh);
      PrefixOnce(sh, n - 1);
      BucketUrls(sh, n - 1);
      assert b[..n][..n - 1] == b[..n - 1];
      var before := AllUrls(b[..n - 1]);
      forall u | u in before ensures u !in b[n - 1].urls {
        EarlierOnly(sh, n - 1, u);
      }
      DistinctConcat(before, b[n - 1].urls);
    }
  }

  lemma EarlierOnly(sh: Shape, n: nat, u: Url)
    requires Agree(sh) && n < |sh.nodes| && u in AllUrls(BucketsOf(sh)[..n])
    ensures u !in Urls(sh.lists[n])
  {
    var b := BucketsOf(sh)[..n];
    AllUrlsHave(b, u);
    var i :| 0 <= i < n && u in b[i].urls;
    OneBucketOnly(sh, u, i, n);
  }

  lemma OneBucketOnly(sh: Shape, u: Url, i: nat, j: nat)
    requires Agree(sh) && i < j < |sh.nodes| && u in Urls(sh.lists[i])
    ensures u !in Urls(sh.lists[j])
  {
    BucketUrls(sh, i);
    BucketUrls(sh, j);
  }

  lemma BucketCount(s: State, r: Reference)
    requires Represents(s, r)
    ensures |AllUrls(s.buckets)| == |s.store|
    ensures TailFilled(s.buckets) ==> |s.buckets| <= |s.store| + 1
  {
    AllUrlsSize(s.buckets, r.residents);
    DistinctSize(AllUrls(s.buckets));
    forall u | u in r.residents ensures u in AllUrls(s.buckets) {
      AllUrlsHave(s.buckets, u);
    }
    assert Elems(AllUrls(s.buckets)) == s.store.Keys;
  }

  lemma {:induction false} WithinCapacity(capacity: nat, ops: seq<Op>)
    requires capacity >= 1
    ensures |RunState(capacity, ops).store| <= capacity
  {
    if ops != [] {
      var n := |ops| - 1;
      WithinCapacity(capacity, ops[..n]);
      var s := RunState(capacity, ops[..n]);
      var r := Run(LeastFrequentlyUsed, capacity, ops[..n]);
      StepRepresents(capacity, s, r, ops[n]);
      StepSize(capacity, s, r, ops[n]);
    }
  }

  lemma DropBackSize(s: State, r: Reference)
    requires Represents(s, r) && r.residents != map[]
    ensures |DropBack(s).store| == |s.store| - 1
  {
    BackIsVictim(s.buckets, r.residents);
    DropBackStore(s);
    OneLess(s.store, Last(s.buckets[FirstNonEmpty(s.buckets)].urls));
  }

  lemma OneLess(store: map<Url, Bytes>, v: Url)
    requires v in store
    ensures |store - {v}| == |store| - 1
  {
    assert (store - {v}).Keys == store.Keys - {v};
  }

  lemma InsertSize(store: map<Url, Bytes>, u: Url, d: Bytes)
    ensures |store[u := d]| <= |store| + 1 && |store - {u}| <= |store|
  {
    assert store[u := d].Keys == store.Keys + {u};
    assert (store - {u}).Keys == store.Keys - {u};
  }

  lemma AddMissSize(capacity: nat, s: State, r: Reference, u: Url, d: Bytes)
    requires capacity >= 1 && Represents(s, r) && |s.store| <= capacity && u !in s.store
    ensures |AddMiss(capacity, s, u, d).store| <= capacity
  {
    if |s.store| >= capacity {
      SameSize(s, r);
      DropBackSize(s, r);
      InsertSize(DropBack(s).store, u, d);
    } else {
      AddFits(capacity, s, r, u, d);
      InsertSize(s.store, u, d);
    }
  }

  lemma StepSize(capacity: nat, s: State, r: Reference, op: Op)
    requires capacity >= 1 && Represents(s, r) && |s.store| <= capacity
    requires Touches(s, op) ==> Holder(s.buckets, op.url) < |s.buckets|
    ensures |StepState(capacity, s, op).store| <= capacity
  {
    if op.Add? && op.url !in s.store {
      AddMissSize(capacity, s, r, op.url, op.data);
    } else {
      InsertSize(s.store, op.url, "");
    }
  }

  lemma {:induction false} RunTailFilled(capacity: nat, ops: seq<Op>)
    requires capacity >= 1 && NoRemove(ops)
    ensures TailFilled(RunState(capacity, ops).buckets)
  {
    if ops != [] {
      var n := |ops| - 1;
      RunTailFilled(capacity, ops[..n]);
      var s := RunState(capacity, ops[..n]);
      var r := Run(LeastFrequentlyUsed, capacity, ops[..n]);
      StepRepresents(capacity, s, r, ops[n]);
      StepTailFilled(capacity, s, r, ops[n]);
    }
  }

  /** The structural invariant of every run; without remove, at most capacity+1 buckets. */
  lemma RunStructure(capacity: nat, ops: seq<Op>)
    requires capacity >= 1
    ensures var s := RunState(capacity, ops);
      && Structured(s.buckets, Run(LeastFrequentlyUsed, capacity, ops).residents)
      && |AllUrls(s.buckets)| == |s.store| <= capacity
      && (NoRemove(ops) ==> |s.buckets| <= capacity + 1)
  {
    WithinCapacity(capacity, ops);
    BucketCount(RunState(capacity, ops), Run(LeastFrequentlyUsed, capacity, ops));
    if NoRemove(ops) {
      RunTailFilled(capacity, ops);
    }
  }

  // ---------------------------------------------------------------- the literal placement

  /** Placing the bucket behind one of at least the next frequency loses the order. */
  lemma RaiseBehind(b: seq<Bucket>, from: nat, p: nat, u: Url)
    requires from < p < |b| && Ascending(b)
    ensures !Ascending(Raise(b, from, u, p + 1))
  {
    var next := b[from].frequency + 1;
    var moved := Move(Widen(b, p + 1, next), from, p + 1, u);
    assert moved[p].frequency == b[p].frequency && moved[p + 1].frequency == next;
    var result := Raise(b, from, u, p + 1);
    var q := if |result| < |moved| then p - 1 else p;
    assert result[q].frequency == b[p].frequency && result[q + 1].frequency == next;
  }

  /** Wherever `std::next` of the search result is defined, the order of the buckets is
      lost. */
  lemma LiteralBreaksOrder(b: seq<Bucket>, u: Url)
    requires Ascending(b) && Holder(b, u) < |b| && LiteralPlace(b, u).Some?
    ensures !Ascending(Increment(b, u, LiteralPlace(b, u).value))
  {
    var from, p := Holder(b, u), MeantPlace(b, u);
    LiteralIs(b, u, from, p);
    LiteralBreaksAt(b, u, from, p);
  }

  lemma LiteralBreaksAt(b: seq<Bucket>, u: Url, from: nat, p: nat)
    requires Ascending(b) && Holder(b, u) == from < |b| && MeantPlace(b, u) == p < |b|
    ensures !Ascending(Raise(b, from, u, p + 1))
  {
    MeantIsFurther(b, u);
    RaiseBehind(b, from, p, u);
  }

  lemma LiteralIs(b: seq<Bucket>, u: Url, from: nat, p: nat)
    requires Holder(b, u) == from < |b| && LiteralPlace(b, u).Some? && p == MeantPlace(b, u)
    ensures p < |b| && LiteralPlace(b, u) == Some(p + 1)
    ensures Increment(b, u, LiteralPlace(b, u).value) == Raise(b, from, u, p + 1)
  {
  }

  /** The run as the code is written: undefined once `std::next` leaves the list. */
  function LiteralRun(capacity: nat, ops: seq<Op>): Option<State>
    requires capacity >= 1
  {
    if ops == [] then Some(EMPTY_STATE)
    else
      var n := |ops| - 1;
      match LiteralRun(capacity, ops[..n])
      case None => None
      case Some(s) =>
        if !Touches(s, ops[n]) then Some(StepAt(capacity, s, ops[n], 0))
        else if Holder(s.buckets, ops[n].url) == |s.buckets| then None
        else
          match LiteralPlace(s.buckets, ops[n].url)
          case None => None
          case Some(place) => Some(StepAt(capacity, s, ops[n], place))
  }

  /** No find hits and no add repeats a resident URL. */
  predicate NeverHits(capacity: nat, ops: seq<Op>)
    requires capacity >= 1
  {
    ops == [] ||
    (NeverHits(capacity, ops[..|ops| - 1])
     && !Touches(RunState(capacity, ops[..|ops| - 1]), ops[|ops| - 1]))
  }

  lemma SingleBucket(b: seq<Bucket>, u: Url)
    requires |b| == 1 && b[0].frequency == 0
    ensures LiteralPlace(b, u) == if Holder(b, u) < |b| then None else Some(1)
  {
  }

  /** Without a hit the placement plays no part, and the bucket list keeps its length one. */
  lemma NoTouchStep(capacity: nat, s: State, op: Op)
    requires |s.buckets| == 1 && !Touches(s, op)
    ensures StepAt(capacity, s, op, 0) == StepState(capacity, s, op)
    ensures |StepState(capacity, s, op).buckets| == 1
  {
  }

  /** A run of the code as written is defined exactly when nothing is ever hit, and then it
      is the intended run: the first hit already searches past the end. */
  lemma {:induction false} LiteralIffNeverHits(capacity: nat, ops: seq<Op>)
    requires capacity >= 1
    ensures LiteralRun(capacity, ops).Some? <==> NeverHits(capacity, ops)
    ensures LiteralRun(capacity, ops).Some? ==>
      LiteralRun(capacity, ops).value == RunState(capacity, ops)
      && |RunState(capacity, ops).buckets| == 1
  {
    if ops != [] {
      var n := |ops| - 1;
      LiteralIffNeverHits(capacity, ops[..n]);
      if LiteralRun(capacity, ops[..n]).Some? {
        var s := RunState(capacity, ops[..n]);
        if Touches(s, ops[n]) {
          SingleBucket(s.buckets, ops[n].url);
        } else {
          NoTouchStep(capacity, s, ops[n]);
        }
      }
    }
  }

  /** Where it is defined, the code as written is the reference cache too. */
  lemma LiteralRunRefines(capacity: nat, ops: seq<Op>)
    requires capacity >= 1 && LiteralRun(capacity, ops).Some?
    ensures Represents(LiteralRun(capacity, ops).value, Run(LeastFrequentlyUsed, capacity, ops))
    ensures |LiteralRun(capacity, ops).value.store| <= capacity
  {
    LiteralIffNeverHits(capacity, ops);
    WithinCapacity(capacity, ops);
  }

  /** Adding a URL and then finding it is undefined already. */
  lemma FirstHitIsUndefined(capacity: nat, u: Url, d: Bytes)
    requires capacity >= 1
    ensures LiteralRun(capacity, [Add(u, d), Find(u)]) == None
  {
    var ops := [Add(u, d), Find(u)];
    assert ops[..1] == [Add(u, d)] && ops[..1][..0] == [];
    var r := RunState(capacity, ops[..1]);
    RunAppend(capacity, [], Add(u, d));
    assert [] + [Add(u, d)] == ops[..1];
    assert RunState(capacity, []) == EMPTY_STATE;
    assert u in r.store;
    assert Touches(r, ops[1]);
    assert !NeverHits(capacity, ops);
    LiteralIffNeverHits(capacity, ops);
  }
}
