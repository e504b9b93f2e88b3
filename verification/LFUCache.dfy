/** The least-frequently-used strategy: a list of frequency buckets, each a list of URLs
    with the most recently touched in front, and what each operation does to them. */
module LFUCache {
  import opened Options
  import opened Sequences
  import opened CacheReference

  datatype Bucket = Bucket(frequency: nat, urls: seq<Url>)

  datatype State = State(buckets: seq<Bucket>, store: map<Url, Bytes>)

  const EMPTY_STATE := State([Bucket(0, [])], map[])

  /** Index of the first bucket that lists `u`. */
  function Holder(b: seq<Bucket>, u: Url): (h: nat)
    ensures h <= |b| && (h < |b| ==> u in b[h].urls)
    ensures forall i :: 0 <= i < h ==> u !in b[i].urls
  {
    if b == [] then 0
    else if u in b[0].urls then 0
    else
      var h := Holder(b[1..], u);
      assert forall i :: 1 <= i < 1 + h ==> b[i] == b[1..][i - 1];
      1 + h
  }

  /** The search in front of the placement: the first bucket with frequency >= `f`. */
  function FirstAtLeast(b: seq<Bucket>, f: nat): (p: nat)
    ensures p <= |b| && (p < |b| ==> b[p].frequency >= f)
    ensures forall i :: 0 <= i < p ==> b[i].frequency < f
  {
    if b == [] then 0
    else if b[0].frequency >= f then 0
    else
      var p := FirstAtLeast(b[1..], f);
      assert forall i :: 1 <= i < 1 + p ==> b[i] == b[1..][i - 1];
      1 + p
  }

  function InsertAt<T>(s: seq<T>, i: nat, x: T): (r: seq<T>)
    requires i <= |s|
    ensures |r| == |s| + 1
    ensures forall j {:trigger r[j]} :: 0 <= j < |r| ==>
              r[j] == if j < i then s[j] else if j == i then x else s[j - 1]
  {
    s[..i] + [x] + s[i..]
  }

  /** A new bucket is needed at `place` unless the one there has frequency `f` already. */
  predicate NeedsBucket(b: seq<Bucket>, place: nat, f: nat)
    requires place <= |b|
  {
    place == |b| || b[place].frequency != f
  }

  /** `u` leaves bucket `from` and becomes the front of bucket `to`. */
  function Move(b: seq<Bucket>, from: nat, to: nat, u: Url): (r: seq<Bucket>)
    requires from < |b| && to < |b| && from != to
    ensures |r| == |b|
  {
    b[to := b[to].(urls := [u] + b[to].urls)][from := b[from].(urls := Erase(b[from].urls, u))]
  }

  /** An emptied bucket goes away unless it is the front one. */
  function Prune(b: seq<Bucket>, i: nat): seq<Bucket>
    requires i < |b|
  {
    if b[i].urls == [] && i != 0 then DropAt(b, i) else b
  }

  /** The list with a bucket of frequency `f` at `place`. */
  function Widen(b: seq<Bucket>, place: nat, f: nat): (r: seq<Bucket>)
    requires place <= |b|
    ensures place < |r| && r[place].frequency == f
  {
    if NeedsBucket(b, place, f) then InsertAt(b, place, Bucket(f, [])) else b
  }

  /** Where the bucket at `i` is after `Widen`. */
  function Shifted(b: seq<Bucket>, place: nat, f: nat, i: nat): (i': nat)
    requires place <= |b| && i < |b|
    ensures i' < |Widen(b, place, f)| && Widen(b, place, f)[i'] == b[i]
  {
    if NeedsBucket(b, place, f) && place <= i then i + 1 else i
  }

  /** Raising the frequency of `u`, with the bucket of the next frequency looked for or
      inserted at position `place`. */
  function Increment(b: seq<Bucket>, u: Url, place: nat): seq<Bucket>
    requires Holder(b, u) < |b| && place <= |b|
  {
    var from := Holder(b, u);
    Raise(b, from, u, place)
  }

  function Raise(b: seq<Bucket>, from: nat, u: Url, place: nat): seq<Bucket>
    requires from < |b| && place <= |b|
  {
    var next := b[from].frequency + 1;
    var from' := Shifted(b, place, next, from);
    Prune(Move(Widen(b, place, next), from', place, u), from')
  }

  function FirstNonEmpty(b: seq<Bucket>): (i: nat)
    ensures i <= |b| && (i < |b| ==> b[i].urls != [])
    ensures forall j :: 0 <= j < i ==> b[j].urls == []
  {
    if b == [] then 0
    else if b[0].urls != [] then 0
    else
      var i := FirstNonEmpty(b[1..]);
      assert forall j :: 1 <= j < 1 + i ==> b[j] == b[1..][j - 1];
      1 + i
  }

  /** The back of the first non-empty bucket goes. */
  function DropBack(s: State): State {
    var i := FirstNonEmpty(s.buckets);
    if i == |s.buckets| then s
    else
      var urls := s.buckets[i].urls;
      var n := |urls| - 1;
      State(Prune(s.buckets[i := s.buckets[i].(urls := urls[..n])], i), s.store - {urls[n]})
  }

  function PushFront(b: seq<Bucket>, u: Url): seq<Bucket>
    requires b != []
  {
    b[0 := b[0].(urls := [u] + b[0].urls)]
  }

  /** A new element, after an eviction if the cache is full. */
  function AddMiss(capacity: nat, s: State, u: Url, d: Bytes): State {
    var t := if |s.store| >= capacity then DropBack(s) else s;
    if t.buckets == [] then t else State(PushFront(t.buckets, u), t.store[u := d])
  }

  /** The position the search yields for the next frequency of `u`: the intended place. */
  function MeantPlace(b: seq<Bucket>, u: Url): (p: nat)
    ensures p <= |b|
  {
    var h := Holder(b, u);
    if h < |b| then FirstAtLeast(b, b[h].frequency + 1) else 0
  }

  /** The code applies `std::next` to the search result: past the end when nothing is
      found, otherwise one bucket further than meant. */
  function LiteralPlace(b: seq<Bucket>, u: Url): Option<nat> {
    var p := MeantPlace(b, u);
    if p == |b| then None else Some(p + 1)
  }

  predicate Touches(s: State, op: Op) {
    !op.Remove? && op.url in s.store
  }

  /** One operation, with the bucket placement as a parameter. */
  function StepAt(capacity: nat, s: State, op: Op, place: nat): State
    requires Touches(s, op) ==> Holder(s.buckets, op.url) < |s.buckets| && place <= |s.buckets|
  {
    if Touches(s, op) then
      s.(buckets := Increment(s.buckets, op.url, place))
    else
      match op
      case Find(_) => s
      case Add(u, d) => AddMiss(capacity, s, u, d)
      case Remove(u) =>
        var h := Holder(s.buckets, u);
        if h == |s.buckets| then s
        else
          var bucket := s.buckets[h];
          State(s.buckets[h := bucket.(urls := Erase(bucket.urls, u))], s.store - {u})
  }

  function StepState(capacity: nat, s: State, op: Op): State
    requires Touches(s, op) ==> Holder(s.buckets, op.url) < |s.buckets|
  {
    StepAt(capacity, s, op, MeantPlace(s.buckets, op.url))
  }

  /** `place` is the intended position, wherever a position plays a part. */
  ghost predicate Meant(s: State, op: Op, place: nat) {
    Touches(s, op) ==>
      Holder(s.buckets, op.url) < |s.buckets| && place == MeantPlace(s.buckets, op.url)
  }

  lemma MeantStep(capacity: nat, s: State, op: Op, place: nat)
    requires Meant(s, op, place)
    ensures StepAt(capacity, s, op, place) == StepState(capacity, s, op)
  {
  }

  function ReplyOf(s: State, op: Op): Option<Bytes> {
    if op.Find? && op.url in s.store then Some(s.store[op.url]) else None
  }

  // ---------------------------------------------------------------- the linked structure

  class FrequencyNode {
    const frequency: nat
    var elements: seq<CacheElement>

    constructor (frequency: nat)
      ensures this.frequency == frequency && elements == []
    {
      this.frequency := frequency;
      elements := [];
    }
  }

  /** A snapshot of the heap: the bucket nodes, the list in each of them, and the index
      from URL to (bucket, list node). */
  datatype Shape = Shape(nodes: seq<FrequencyNode>, lists: seq<seq<CacheElement>>,
                         index: map<Url, (FrequencyNode, CacheElement)>)

  /** Every listed element is indexed with its own bucket and node. */
  ghost predicate Indexed(sh: Shape, i: nat)
    requires i < |sh.nodes| == |sh.lists|
  {
    && Distinct(sh.lists[i])
    && forall e :: e in sh.lists[i] ==> e.url in sh.index && sh.index[e.url] == (sh.nodes[i], e)
  }

  ghost predicate Located(sh: Shape, u: Url)
    requires u in sh.index && |sh.nodes| == |sh.lists|
  {
    && sh.index[u].1.url == u
    && exists i :: 0 <= i < |sh.nodes| && sh.nodes[i] == sh.index[u].0
                   && sh.index[u].1 in sh.lists[i]
  }

  /** Index and buckets agree: every element indexed, every indexed URL in its bucket. */
  ghost predicate Agree(sh: Shape) {
    && sh.nodes != [] && |sh.nodes| == |sh.lists| && Distinct(sh.nodes)
    && (forall i :: 0 <= i < |sh.nodes| ==> Indexed(sh, i))
    && (forall u :: u in sh.index ==> Located(sh, u))
  }

  function BucketsOf(sh: Shape): (b: seq<Bucket>)
    requires |sh.nodes| == |sh.lists|
    ensures |b| == |sh.nodes|
    ensures forall i :: 0 <= i < |b| ==> b[i] == Bucket(sh.nodes[i].frequency, Urls(sh.lists[i]))
  {
    seq(|sh.nodes|, i requires 0 <= i < |sh.nodes| =>
      Bucket(sh.nodes[i].frequency, Urls(sh.lists[i])))
  }

  function StoredIn(index: map<Url, (FrequencyNode, CacheElement)>): map<Url, Bytes> {
    map u | u in index :: index[u].1.data
  }

  lemma UrlsHave(list: seq<CacheElement>, e: CacheElement)
    requires e in list
    ensures e.url in Urls(list)
  {
    var i :| 0 <= i < |list| && list[i] == e;
    assert Urls(list)[i] == e.url;
  }

  /** Two elements of one bucket never share a URL. */
  lemma BucketUrls(sh: Shape, i: nat)
    requires Agree(sh) && i < |sh.nodes|
    ensures Distinct(Urls(sh.lists[i]))
    ensures forall u :: u in Urls(sh.lists[i]) ==>
              u in sh.index && sh.index[u].0 == sh.nodes[i] && sh.index[u].1 in sh.lists[i]
  {
    var l := sh.lists[i];
    assert Indexed(sh, i);
    forall j, k | 0 <= j < k < |l| ensures l[j].url != l[k].url {
      assert l[j] in l && l[k] in l;
    }
    forall u | u in Urls(l) ensures u in sh.index && sh.index[u].0 == sh.nodes[i]
                                    && sh.index[u].1 in l {
      var j :| 0 <= j < |l| && l[j].url == u;
      assert l[j] in l;
    }
  }

  /** The first bucket that lists a URL is the one its index entry points to. */
  lemma HolderIndexed(sh: Shape, u: Url, from: nat)
    requires Agree(sh) && u in sh.index && from < |sh.nodes| && sh.nodes[from] == sh.index[u].0
    ensures Holder(BucketsOf(sh), u) == from && sh.index[u].1 in sh.lists[from]
    ensures sh.index[u].1.url == u
  {
    assert Located(sh, u);
    UrlsHave(sh.lists[from], sh.index[u].1);
    var h := Holder(BucketsOf(sh), u);
    if h < from {
      BucketUrls(sh, h);
    }
  }

  lemma NotListed(sh: Shape, u: Url)
    requires Agree(sh) && u !in sh.index
    ensures Holder(BucketsOf(sh), u) == |sh.nodes|
  {
    var h := Holder(BucketsOf(sh), u);
    if h < |sh.nodes| {
      BucketUrls(sh, h);
    }
  }

  function InsertNode(sh: Shape, place: nat, n: FrequencyNode): Shape
    requires place <= |sh.nodes| == |sh.lists|
  {
    sh.(nodes := InsertAt(sh.nodes, place, n), lists := InsertAt(sh.lists, place, []))
  }

  lemma InsertNodeLocated(sh: Shape, place: nat, n: FrequencyNode, u: Url)
    requires Agree(sh) && place <= |sh.nodes| && u in sh.index
    ensures Located(InsertNode(sh, place, n), u)
  {
    var sh' := InsertNode(sh, place, n);
    assert Located(sh, u);
    var i :| 0 <= i < |sh.nodes| && sh.nodes[i] == sh.index[u].0 && sh.index[u].1 in sh.lists[i];
    assert sh'.nodes[if i < place then i else i + 1] == sh.index[u].0;
  }

  lemma InsertNodeIndexed(sh: Shape, place: nat, n: FrequencyNode, i: nat)
    requires Agree(sh) && place <= |sh.nodes| && i <= |sh.nodes|
    ensures Indexed(InsertNode(sh, place, n), i)
  {
    if i != place {
      assert Indexed(sh, if i < place then i else i - 1);
    }
  }

  lemma InsertDistinct<T>(s: seq<T>, place: nat, x: T)
    requires Distinct(s) && place <= |s| && x !in s
    ensures Distinct(InsertAt(s, place, x))
  {
  }

  lemma InsertNodeAgree(sh: Shape, place: nat, n: FrequencyNode)
    requires Agree(sh) && place <= |sh.nodes| && n !in sh.nodes
    ensures Agree(InsertNode(sh, place, n))
    ensures BucketsOf(InsertNode(sh, place, n))
         == InsertAt(BucketsOf(sh), place, Bucket(n.frequency, []))
  {
    var sh' := InsertNode(sh, place, n);
    InsertDistinct<FrequencyNode>(sh.nodes, place, n);
    forall i | 0 <= i < |sh'.nodes| ensures Indexed(sh', i) {
      InsertNodeIndexed(sh, place, n, i);
    }
    forall u | u in sh'.index ensures Located(sh', u) {
      InsertNodeLocated(sh, place, n, u);
    }
  }

  function MoveElement(sh: Shape, from: nat, to: nat, e: CacheElement): Shape
    requires from < |sh.nodes| == |sh.lists| && to < |sh.nodes|
  {
    var lists := sh.lists[from := Erase<CacheElement>(sh.lists[from], e)];
    Shape(sh.nodes, lists[to := [e] + lists[to]], sh.index[e.url := (sh.nodes[to], e)])
  }

  lemma MoveElementAgree(sh: Shape, from: nat, to: nat, e: CacheElement)
    requires Agree(sh) && from < |sh.nodes| && to < |sh.nodes| && from != to
    requires e in sh.lists[from]
    ensures Agree(MoveElement(sh, from, to, e))
    ensures BucketsOf(MoveElement(sh, from, to, e)) == Move(BucketsOf(sh), from, to, e.url)
  {
    var sh' := MoveElement(sh, from, to, e);
    assert Indexed(sh, from) && Indexed(sh, to);
    EraseKeeps<CacheElement>(sh.lists[from], e);
    BucketUrls(sh, from);
    UrlsErase(sh.lists[from], e);
    forall i | 0 <= i < |sh'.nodes| ensures Indexed(sh', i) {
      MovedIndexed(sh, from, to, e, i);
    }
    forall u | u in sh'.index ensures Located(sh', u) {
      MovedLocated(sh, from, to, e, u);
    }
    assert Urls(sh'.lists[to]) == [e.url] + Urls(sh.lists[to]);
  }

  lemma OwnUrl(sh: Shape, i: nat, x: CacheElement, j: nat, e: CacheElement)
    requires Agree(sh) && i < |sh.nodes| && x in sh.lists[i] && j < |sh.nodes| && e in sh.lists[j]
    ensures x.url == e.url ==> x == e && i == j
  {
    assert Indexed(sh, i) && Indexed(sh, j);
  }

  lemma MovedIndexed(sh: Shape, from: nat, to: nat, e: CacheElement, i: nat)
    requires Agree(sh) && from < |sh.nodes| && to < |sh.nodes| && from != to
    requires e in sh.lists[from] && i < |sh.nodes|
    ensures Indexed(MoveElement(sh, from, to, e), i)
  {
    var sh' := MoveElement(sh, from, to, e);
    assert Indexed(sh, i) && Indexed(sh, from);
    EraseKeeps<CacheElement>(sh.lists[from], e);
    forall x | x in sh.lists[i] ensures x.url == e.url ==> x == e && i == from {
      OwnUrl(sh, i, x, from, e);
    }
    if i == from {
      assert sh'.lists[i] == Erase<CacheElement>(sh.lists[i], e);
      var l := Erase<CacheElement>(sh.lists[i], e);
      forall x | x in l
        ensures x.url in sh'.index && sh'.index[x.url] == (sh.nodes[i], x)
      {
        ErasedMember<CacheElement>(sh.lists[from], e, x);
      }
    } else if i == to {
      assert sh'.lists[i] == [e] + sh.lists[i];
    } else {
      assert sh'.lists[i] == sh.lists[i];
    }
  }

  lemma MovedLocated(sh: Shape, from: nat, to: nat, e: CacheElement, u: Url)
    requires Agree(sh) && from < |sh.nodes| && to < |sh.nodes| && from != to
    requires e in sh.lists[from] && u in MoveElement(sh, from, to, e).index
    ensures Located(MoveElement(sh, from, to, e), u)
  {
    var sh' := MoveElement(sh, from, to, e);
    if u == e.url {
      assert sh'.nodes[to] == sh'.index[u].0 && e in sh'.lists[to];
    } else {
      assert Located(sh, u);
      var i :| 0 <= i < |sh.nodes| && sh.nodes[i] == sh.index[u].0 && sh.index[u].1 in sh.lists[i];
      assert Indexed(sh, from);
      EraseKeeps<CacheElement>(sh.lists[from], e);
      assert sh'.nodes[i] == sh'.index[u].0 && sh'.index[u].1 in sh'.lists[i];
    }
  }

  function DropNode(sh: Shape, i: nat): Shape
    requires i < |sh.nodes| == |sh.lists|
  {
    sh.(nodes := DropAt(sh.nodes, i), lists := DropAt(sh.lists, i))
  }

  lemma DropNodeAgree(sh: Shape, i: nat)
    requires Agree(sh) && i < |sh.nodes| && i != 0 && sh.lists[i] == []
    ensures Agree(DropNode(sh, i))
    ensures BucketsOf(DropNode(sh, i)) == DropAt(BucketsOf(sh), i)
  {
    var sh' := DropNode(sh, i);
    forall j | 0 <= j < |sh'.nodes| ensures Indexed(sh', j) {
      assert Indexed(sh, if j < i then j else j + 1);
    }
    forall u | u in sh'.index ensures Located(sh', u) {
      assert Located(sh, u);
      var j :| 0 <= j < |sh.nodes| && sh.nodes[j] == sh.index[u].0 && sh.index[u].1 in sh.lists[j];
      assert sh'.nodes[if j < i then j else j - 1] == sh.index[u].0;
    }
  }

  function EraseElement(sh: Shape, i: nat, e: CacheElement): Shape
    requires i < |sh.nodes| == |sh.lists|
  {
    sh.(lists := sh.lists[i := Erase<CacheElement>(sh.lists[i], e)], index := sh.index - {e.url})
  }

  lemma ErasedIndexed(sh: Shape, i: nat, e: CacheElement, j: nat)
    requires Agree(sh) && i < |sh.nodes| && e in sh.lists[i] && j < |sh.nodes|
    ensures Indexed(EraseElement(sh, i, e), j)
  {
    var sh' := EraseElement(sh, i, e);
    assert Indexed(sh, j) && Indexed(sh, i);
    EraseKeeps<CacheElement>(sh.lists[i], e);
    forall x | x in sh.lists[j] ensures x.url == e.url ==> x == e && i == j {
      OwnUrl(sh, j, x, i, e);
    }
    if j == i {
      assert sh'.lists[j] == Erase<CacheElement>(sh.lists[j], e);
      var l := Erase<CacheElement>(sh.lists[i], e);
      forall x | x in l
        ensures x.url in sh'.index && sh'.index[x.url] == (sh.nodes[j], x)
      {
        ErasedMember<CacheElement>(sh.lists[i], e, x);
      }
    } else {
      assert sh'.lists[j] == sh.lists[j];
    }
  }

  lemma ErasedLocated(sh: Shape, i: nat, e: CacheElement, u: Url)
    requires Agree(sh) && i < |sh.nodes| && e in sh.lists[i] && u in sh.index && u != e.url
    ensures Located(EraseElement(sh, i, e), u)
  {
    var sh' := EraseElement(sh, i, e);
    assert Located(sh, u) && Indexed(sh, i);
    EraseKeeps<CacheElement>(sh.lists[i], e);
    var j :| 0 <= j < |sh.nodes| && sh.nodes[j] == sh.index[u].0 && sh.index[u].1 in sh.lists[j];
    assert sh'.index[u].1 in sh'.lists[j];
  }

  lemma EraseElementAgree(sh: Shape, i: nat, e: CacheElement)
    requires Agree(sh) && i < |sh.nodes| && e in sh.lists[i]
    ensures Agree(EraseElement(sh, i, e)) && e.url in sh.index
    ensures BucketsOf(EraseElement(sh, i, e))
         == BucketsOf(sh)[i := Bucket(sh.nodes[i].frequency, Erase(Urls(sh.lists[i]), e.url))]
  {
    var sh' := EraseElement(sh, i, e);
    forall j | 0 <= j < |sh'.nodes| ensures Indexed(sh', j) {
      ErasedIndexed(sh, i, e, j);
    }
    forall u | u in sh'.index ensures Located(sh', u) {
      ErasedLocated(sh, i, e, u);
    }
    assert Indexed(sh, i);
    BucketUrls(sh, i);
    UrlsErase(sh.lists[i], e);
  }

  function PushElement(sh: Shape, e: CacheElement): Shape
    requires sh.nodes != [] && |sh.nodes| == |sh.lists|
  {
    sh.(lists := sh.lists[0 := [e] + sh.lists[0]], index := sh.index[e.url := (sh.nodes[0], e)])
  }

  lemma PushElementAgree(sh: Shape, e: CacheElement)
    requires Agree(sh) && e.url !in sh.index
    ensures Agree(PushElement(sh, e))
    ensures BucketsOf(PushElement(sh, e)) == PushFront(BucketsOf(sh), e.url)
  {
    var sh' := PushElement(sh, e);
    assert Indexed(sh, 0);
    forall i | 0 <= i < |sh'.nodes| ensures Indexed(sh', i) {
      assert Indexed(sh, i);
    }
    forall u | u in sh'.index ensures Located(sh', u) {
      if u == e.url {
        assert e in sh'.lists[0];
      } else {
        assert Located(sh, u);
        var i :| 0 <= i < |sh.nodes| && sh.nodes[i] == sh.index[u].0 && sh.index[u].1 in sh.lists[i];
        assert sh'.index[u].1 in sh'.lists[i];
      }
    }
    assert Urls(sh'.lists[0]) == [e.url] + Urls(sh.lists[0]);
  }

  class LFUCache {
    const capacity: nat
    var frequencyList: seq<FrequencyNode>
    var cacheMap: map<Url, (FrequencyNode, CacheElement)>

    ghost function Lists(): (l: seq<seq<CacheElement>>)
      reads this, frequencyList
      ensures |l| == |frequencyList|
      ensures forall i :: 0 <= i < |l| ==> l[i] == frequencyList[i].elements
    {
      seq(|frequencyList|, i requires 0 <= i < |frequencyList| reads this, frequencyList =>
        frequencyList[i].elements)
    }

    ghost function Snapshot(): Shape
      reads this, frequencyList
    {
      Shape(frequencyList, Lists(), cacheMap)
    }

    ghost predicate Valid()
      reads this, frequencyList
    {
      capacity >= 1 && |cacheMap| <= capacity && Agree(Snapshot())
    }

    ghost function Abstract(): State
      reads this, frequencyList
    {
      State(BucketsOf(Snapshot()), StoredIn(cacheMap))
    }

    constructor (capacity: nat)
      requires capacity >= 1
      ensures Valid() && this.capacity == capacity && Abstract() == EMPTY_STATE
      ensures fresh(frequencyList)
    {
      this.capacity := capacity;
      var front := new FrequencyNode(0);
      frequencyList := [front];
      cacheMap := map[];
    }

    /** A bucket of frequency `f` at position `place`: the one there, or a new one. */
    method BucketAt(place: nat, f: nat, ghost from: nat) returns (target: FrequencyNode)
      requires Agree(Snapshot()) && place <= |frequencyList| && from < |frequencyList|
      modifies this`frequencyList
      ensures Agree(Snapshot())
      ensures cacheMap == old(cacheMap)
      ensures forall n :: n in frequencyList ==> n in old(frequencyList) || fresh(n)
      ensures place < |frequencyList| && frequencyList[place] == target
      ensures target in old(frequencyList) || fresh(target)
      ensures BucketsOf(Snapshot()) == Widen(old(BucketsOf(Snapshot())), place, f)
      ensures frequencyList[Shifted(old(BucketsOf(Snapshot())), place, f, from)]
           == old(frequencyList[from])
    {
      ghost var b := BucketsOf(Snapshot());
      assert NeedsBucket(b, place, f)
        <==> place == |frequencyList| || frequencyList[place].frequency != f;
      if place == |frequencyList| || frequencyList[place].frequency != f {
        target := NewBucket(place, f);
      } else {
        target := frequencyList[place];
      }
    }

    method NewBucket(place: nat, f: nat) returns (target: FrequencyNode)
      requires Agree(Snapshot()) && place <= |frequencyList|
      modifies this`frequencyList
      ensures Agree(Snapshot()) && cacheMap == old(cacheMap) && fresh(target)
      ensures frequencyList == InsertAt<FrequencyNode>(old(frequencyList), place, target)
      ensures BucketsOf(Snapshot()) == InsertAt(old(BucketsOf(Snapshot())), place, Bucket(f, []))
    {
      target := new FrequencyNode(f);
      ghost var before := Snapshot();
      InsertNodeAgree(before, place, target);
      ghost var sh := InsertNode(before, place, target);
      frequencyList := InsertAt<FrequencyNode>(frequencyList, place, target);
      assert Lists() == sh.lists;
      assert Snapshot() == sh;
    }

    /** The list node moves to the front of another bucket and is indexed there. */
    method Splice(element: CacheElement, ghost from: nat, node: FrequencyNode,
                  ghost to: nat, target: FrequencyNode)
      requires Agree(Snapshot()) && from < |frequencyList| && to < |frequencyList| && from != to
      requires frequencyList[from] == node && frequencyList[to] == target
      requires element in node.elements
      modifies this`cacheMap, node, target
      ensures Agree(Snapshot()) && frequencyList == old(frequencyList)
      ensures BucketsOf(Snapshot()) == Move(old(BucketsOf(Snapshot())), from, to, element.url)
      ensures cacheMap == old(cacheMap)[element.url := (target, element)]
    {
      MoveElementAgree(Snapshot(), from, to, element);
      ghost var sh := MoveElement(Snapshot(), from, to, element);
      node.elements := Erase<CacheElement>(node.elements, element);
      target.elements := [element] + target.elements;
      cacheMap := cacheMap[element.url := (target, element)];
      assert Lists() == sh.lists;
    }

    /** Drops a bucket that has become empty, unless it is the front one. */
    method PruneNode(node: FrequencyNode, ghost i: nat)
      requires Agree(Snapshot()) && i < |frequencyList| && frequencyList[i] == node
      modifies this`frequencyList
      ensures Agree(Snapshot()) && cacheMap == old(cacheMap)
      ensures forall n :: n in frequencyList ==> n in old(frequencyList)
      ensures BucketsOf(Snapshot()) == Prune(old(BucketsOf(Snapshot())), i)
    {
      if node.elements == [] && node != frequencyList[0] {
        DropNodeAgree(Snapshot(), i);
        EraseAt<FrequencyNode>(frequencyList, i);
        ghost var sh := DropNode(Snapshot(), i);
        frequencyList := Erase<FrequencyNode>(frequencyList, node);
        assert frequencyList == sh.nodes;
        assert Lists() == sh.lists;
      }
    }

    method SpliceAndPrune(element: CacheElement, ghost from: nat, node: FrequencyNode,
                          ghost to: nat, target: FrequencyNode)
      requires Agree(Snapshot()) && from < |frequencyList| && to < |frequencyList| && from != to
      requires frequencyList[from] == node && frequencyList[to] == target
      requires element in node.elements
      modifies this, node, target
      ensures Agree(Snapshot())
      ensures forall n :: n in frequencyList ==> n in old(frequencyList)
      ensures BucketsOf(Snapshot())
           == Prune(Move(old(BucketsOf(Snapshot())), from, to, element.url), from)
      ensures cacheMap == old(cacheMap)[element.url := (target, element)]
    {
      Splice(element, from, node, to, target);
      PruneNode(node, from);
    }

    method Promote(url: Url, place: nat, ghost from: nat)
      requires Agree(Snapshot()) && url in cacheMap && place <= |frequencyList|
      requires from < |frequencyList| && frequencyList[from] == cacheMap[url].0
      modifies this, frequencyList
      ensures Agree(Snapshot())
      ensures forall n :: n in frequencyList ==> n in old(frequencyList) || fresh(n)
      ensures url in cacheMap
      ensures cacheMap == old(cacheMap)[url := (cacheMap[url].0, old(cacheMap[url].1))]
      ensures BucketsOf(Snapshot()) == Raise(old(BucketsOf(Snapshot())), from, url, place)
    {
      var (node, element) := cacheMap[url];
      ghost var b, next := BucketsOf(Snapshot()), node.frequency + 1;
      assert b[from].frequency + 1 == next;
      ghost var from' := Shifted(b, place, next, from);
      ShiftedApart(b, from, place);
      var target := BucketAt(place, node.frequency + 1, from);
      ghost var nodes, b' := frequencyList, BucketsOf(Snapshot());
      assert b' == Widen(b, place, next);
      ElementIn(Snapshot(), url, from');
      SpliceAndPrune(element, from', node, place, target);
      RaiseIs(b, from, url, place, next, from', b', BucketsOf(Snapshot()));
      forall n | n in frequencyList ensures n in old(frequencyList) || fresh(n) {
        assert n in nodes;
      }
    }

    /** Raises the frequency of `url`; `place` is whatever position in the list the search
        for the next bucket yields. Index and buckets agree afterwards for every one. */
    method IncrementFrequency(url: Url, place: nat)
      requires Valid() && url in cacheMap && place <= |frequencyList|
      modifies this, frequencyList
      ensures Valid()
      ensures forall n :: n in frequencyList ==> n in old(frequencyList) || fresh(n)
      ensures Holder(old(BucketsOf(Snapshot())), url) < old(|frequencyList|)
      ensures Abstract() == StepAt(capacity, old(Abstract()), Op.Find(url), place)
    {
      ghost var from := IndexOf(Snapshot(), url);
      ghost var after := StepAt(capacity, Abstract(), Op.Find(url), place);
      RaisedIs(capacity, Abstract(), url, place, from);
      Promote(url, place, from);
      StoredSame(old(cacheMap), url, cacheMap[url].0);
      assert Abstract() == after;
    }

    /** The search of the placement, `find_if` over the bucket list. */
    method SearchPlace(url: Url) returns (place: nat)
      requires Valid() && url in cacheMap
      ensures place == MeantPlace(BucketsOf(Snapshot()), url)
    {
      ghost var b := BucketsOf(Snapshot());
      ghost var from := IndexOf(Snapshot(), url);
      var next := cacheMap[url].0.frequency + 1;
      place := FirstFrom(next);
      MeantIs(b, url, from, next, place);
    }

    method FirstFrom(next: nat) returns (place: nat)
      ensures place == FirstAtLeast(BucketsOf(Snapshot()), next)
    {
      place := 0;
      while place < |frequencyList| && frequencyList[place].frequency < next
        invariant place <= |frequencyList|
        invariant forall i :: 0 <= i < place ==> frequencyList[i].frequency < next
      {
        place := place + 1;
      }
      FirstAtLeastIs(BucketsOf(Snapshot()), next, place);
    }

    /** The intended position for an operation, where it plays a part. */
    method PlaceFor(url: Url, ghost op: Op) returns (place: nat)
      requires Valid() && op.url == url
      ensures place <= |frequencyList| && Meant(Abstract(), op, place)
    {
      place := 0;
      if url in cacheMap {
        place := SearchPlace(url);
        ghost var from := IndexOf(Snapshot(), url);
      }
    }

    /** The position as the code computes it: `std::next` of the search result, undefined
        where the search ran to the end. */
    method LiteralSearch(url: Url) returns (place: Option<nat>)
      requires Valid() && url in cacheMap
      ensures place == LiteralPlace(BucketsOf(Snapshot()), url)
    {
      var found := SearchPlace(url);
      place := if found == |frequencyList| then None else Some(found + 1);
    }

    /** Find as the code is written; nothing is returned, and nothing done, where it would
        leave the bucket list. */
    method LiteralFind(url: Url) returns (inside: bool, found: Option<Bytes>)
      requires Valid()
      modifies this, frequencyList
      ensures Valid()
      ensures forall n :: n in frequencyList ==> n in old(frequencyList) || fresh(n)
      ensures !inside <==> Touches(old(Abstract()), Op.Find(url))
                           && LiteralPlace(old(BucketsOf(Snapshot())), url) == None
      ensures inside && Touches(old(Abstract()), Op.Find(url)) ==>
        && Holder(old(BucketsOf(Snapshot())), url) < old(|frequencyList|)
        && LiteralPlace(old(BucketsOf(Snapshot())), url).Some?
        && Abstract() == StepAt(capacity, old(Abstract()), Op.Find(url),
                                LiteralPlace(old(BucketsOf(Snapshot())), url).value)
      ensures inside && url !in old(cacheMap) ==> Abstract() == old(Abstract())
      ensures inside ==> found == ReplyOf(old(Abstract()), Op.Find(url))
    {
      if url !in cacheMap {
        return true, None;
      }
      var place;
      place, found := LiteralHit(url);
      inside := place.Some?;
    }

    method LiteralHit(url: Url) returns (place: Option<nat>, found: Option<Bytes>)
      requires Valid() && url in cacheMap
      modifies this, frequencyList
      ensures Valid()
      ensures forall n :: n in frequencyList ==> n in old(frequencyList) || fresh(n)
      ensures place == LiteralPlace(old(BucketsOf(Snapshot())), url)
      ensures place.Some? ==> Holder(old(BucketsOf(Snapshot())), url) < old(|frequencyList|)
      ensures place.Some? ==>
                Abstract() == StepAt(capacity, old(Abstract()), Op.Find(url), place.value)
      ensures place.Some? ==> found == ReplyOf(old(Abstract()), Op.Find(url))
    {
      found := None;
      place := LiteralSearch(url);
      if place.Some? {
        found := FindAt(url, place.value);
      }
    }

    method FindAt(url: Url, place: nat) returns (found: Option<Bytes>)
      requires Valid() && place <= |frequencyList|
      modifies this, frequencyList
      ensures Valid()
      ensures forall n :: n in frequencyList ==> n in old(frequencyList) || fresh(n)
      ensures Touches(old(Abstract()), Op.Find(url)) ==>
                Holder(old(BucketsOf(Snapshot())), url) < old(|frequencyList|)
      ensures Abstract() == StepAt(capacity, old(Abstract()), Op.Find(url), place)
      ensures found == ReplyOf(old(Abstract()), Op.Find(url))
    {
      if url !in cacheMap {
        return None;
      }
      var element := cacheMap[url].1;
      IncrementFrequency(url, place);
      return Some(element.data);
    }

    method Find(url: Url) returns (found: Option<Bytes>)
      requires Valid()
      modifies this, frequencyList
      ensures Valid()
      ensures forall n :: n in frequencyList ==> n in old(frequencyList) || fresh(n)
      ensures Touches(old(Abstract()), Op.Find(url)) ==>
                Holder(old(BucketsOf(Snapshot())), url) < old(|frequencyList|)
      ensures Abstract() == StepState(capacity, old(Abstract()), Op.Find(url))
      ensures found == ReplyOf(old(Abstract()), Op.Find(url))
    {
      var place := PlaceFor(url, Op.Find(url));
      ghost var after := StepState(capacity, Abstract(), Op.Find(url));
      MeantStep(capacity, Abstract(), Op.Find(url), place);
      found := FindAt(url, place);
      assert Abstract() == after;
    }

    /** Walks to the first non-empty bucket; it exists because something is indexed, so the
        walk ends inside the list. */
    method FirstFilled() returns (i: nat)
      requires Agree(Snapshot()) && cacheMap != map[]
      ensures i < |frequencyList| && i == FirstNonEmpty(BucketsOf(Snapshot()))
    {
      ghost var sh := Snapshot();
      ghost var u :| u in cacheMap;
      ghost var from := IndexOf(sh, u);
      ElementIn(sh, u, from);
      i := 0;
      while frequencyList[i].elements == []
        invariant i <= from < |frequencyList|
        invariant forall j :: 0 <= j < i ==> sh.lists[j] == []
        decreases from - i
      {
        i := i + 1;
      }
      FirstFilledIs(sh, i);
    }

    method EvictBack()
      requires Valid() && cacheMap != map[]
      modifies this, frequencyList
      ensures Valid() && |cacheMap| == old(|cacheMap|) - 1
      ensures forall n :: n in frequencyList ==> n in old(frequencyList)
      ensures cacheMap.Keys <= old(cacheMap.Keys)
      ensures Abstract() == DropBack(old(Abstract()))
    {
      var i := FirstFilled();
      var node := frequencyList[i];
      var victim := node.elements[|node.elements| - 1];
      BackErased(Snapshot(), i);
      Unlink(node, victim, i);
      PruneNode(node, i);
      StoredLess(old(cacheMap), victim.url);
    }

    /** Takes an element out of its bucket and out of the index. */
    method Unlink(node: FrequencyNode, element: CacheElement, ghost i: nat)
      requires Agree(Snapshot()) && i < |frequencyList| && frequencyList[i] == node
      requires element in node.elements
      modifies this`cacheMap, node
      ensures Agree(Snapshot()) && frequencyList == old(frequencyList)
      ensures element.url in old(cacheMap) && cacheMap == old(cacheMap) - {element.url}
      ensures var b := old(BucketsOf(Snapshot()));
              BucketsOf(Snapshot()) == b[i := b[i].(urls := Erase(b[i].urls, element.url))]
    {
      EraseElementAgree(Snapshot(), i, element);
      ghost var sh := EraseElement(Snapshot(), i, element);
      node.elements := Erase<CacheElement>(node.elements, element);
      cacheMap := cacheMap - {element.url};
      assert Lists() == sh.lists;
    }

    method PushNew(url: Url, data: Bytes, front: FrequencyNode)
      requires Agree(Snapshot()) && url !in cacheMap && front == frequencyList[0]
      modifies this`cacheMap, front
      ensures Agree(Snapshot()) && frequencyList == old(frequencyList)
      ensures Abstract() == State(PushFront(old(Abstract().buckets), url),
                                  old(Abstract().store)[url := data])
      ensures |cacheMap| == old(|cacheMap|) + 1
    {
      var element := new CacheElement(url, data);
      StoredMore(cacheMap, front, element);
      PushElementFront(element, front);
    }

    method PushElementFront(element: CacheElement, front: FrequencyNode)
      requires Agree(Snapshot()) && element.url !in cacheMap && front == frequencyList[0]
      modifies this`cacheMap, front
      ensures Agree(Snapshot()) && frequencyList == old(frequencyList)
      ensures BucketsOf(Snapshot()) == PushFront(old(BucketsOf(Snapshot())), element.url)
      ensures cacheMap == old(cacheMap)[element.url := (front, element)]
    {
      PushElementAgree(Snapshot(), element);
      ghost var sh := PushElement(Snapshot(), element);
      front.elements := [element] + front.elements;
      cacheMap := cacheMap[element.url := (front, element)];
      assert Lists() == sh.lists;
    }

    method AddAt(url: Url, data: Bytes, place: nat)
      requires Valid() && place <= |frequencyList|
      modifies this, frequencyList
      ensures Valid()
      ensures forall n :: n in frequencyList ==> n in old(frequencyList) || fresh(n)
      ensures Touches(old(Abstract()), Op.Add(url, data)) ==>
                Holder(old(BucketsOf(Snapshot())), url) < old(|frequencyList|)
      ensures Abstract() == StepAt(capacity, old(Abstract()), Op.Add(url, data), place)
    {
      if url in cacheMap {
        IncrementFrequency(url, place);
        return;
      }
      AddNew(url, data);
    }

    method AddNew(url: Url, data: Bytes)
      requires Valid() && url !in cacheMap
      modifies this, frequencyList
      ensures Valid()
      ensures forall n :: n in frequencyList ==> n in old(frequencyList)
      ensures Abstract() == AddMiss(capacity, old(Abstract()), url, data)
    {
      StoredSize(cacheMap);
      ghost var s := Abstract();
      MakeRoom();
      ghost var t := Abstract();
      assert frequencyList[0] in old(frequencyList);
      PushNew(url, data, frequencyList[0]);
      AddMissIs(capacity, s, t, url, data, Abstract());
    }

    method MakeRoom()
      requires Valid()
      modifies this, frequencyList
      ensures Valid() && |cacheMap| < capacity && cacheMap.Keys <= old(cacheMap.Keys)
      ensures forall n :: n in frequencyList ==> n in old(frequencyList)
      ensures Abstract() == if old(|cacheMap|) >= capacity then DropBack(old(Abstract()))
                            else old(Abstract())
    {
      if |cacheMap| >= capacity {
        EvictBack();
      }
    }

    method Add(url: Url, data: Bytes)
      requires Valid()
      modifies this, frequencyList
      ensures Valid()
      ensures forall n :: n in frequencyList ==> n in old(frequencyList) || fresh(n)
      ensures Touches(old(Abstract()), Op.Add(url, data)) ==>
                Holder(old(BucketsOf(Snapshot())), url) < old(|frequencyList|)
      ensures Abstract() == StepState(capacity, old(Abstract()), Op.Add(url, data))
    {
      var place := PlaceFor(url, Op.Add(url, data));
      ghost var after := StepState(capacity, Abstract(), Op.Add(url, data));
      MeantStep(capacity, Abstract(), Op.Add(url, data), place);
      AddAt(url, data, place);
      assert Abstract() == after;
    }

    /** The emptied bucket, if any, stays in the list. */
    method Remove(url: Url)
      requires Valid()
      modifies this, frequencyList
      ensures Valid() && frequencyList == old(frequencyList)
      ensures Abstract() == StepState(capacity, old(Abstract()), Op.Remove(url))
    {
      if url in cacheMap {
        RemoveIndexed(url);
      } else {
        NotListed(Snapshot(), url);
      }
    }

    method RemoveIndexed(url: Url)
      requires Valid() && url in cacheMap
      modifies this, frequencyList
      ensures Valid() && frequencyList == old(frequencyList)
      ensures Abstract() == StepState(0, old(Abstract()), Op.Remove(url))
    {
      ghost var i := IndexOf(Snapshot(), url);
      ElementIn(Snapshot(), url, i);
      StoredLess(cacheMap, url);
      var (node, element) := cacheMap[url];
      ghost var s := Abstract();
      Unlink(node, element, i);
      RemoveIs(s, url, i, Abstract());
    }
  }

  lemma FirstAtLeastIs(b: seq<Bucket>, f: nat, p: nat)
    requires p <= |b| && (p < |b| ==> b[p].frequency >= f)
    requires forall i :: 0 <= i < p ==> b[i].frequency < f
    ensures FirstAtLeast(b, f) == p
  {
  }

  lemma RaisedIs(capacity: nat, s: State, url: Url, place: nat, from: nat)
    requires url in s.store && Holder(s.buckets, url) == from < |s.buckets| && place <= |s.buckets|
    ensures StepAt(capacity, s, Find(url), place)
         == State(Raise(s.buckets, from, url, place), s.store)
  {
  }

  lemma RaiseIs(b: seq<Bucket>, from: nat, u: Url, place: nat, next: nat, from': nat,
                b': seq<Bucket>, r: seq<Bucket>)
    requires from < |b| && place <= |b| && next == b[from].frequency + 1
    requires b' == Widen(b, place, next)
    requires from' == Shifted(b, place, next, from) && from' != place
    requires r == Prune(Move(b', from', place, u), from')
    ensures r == Raise(b, from, u, place)
  {
  }

  /** The bucket the element leaves is never the one at `place`. */
  lemma ShiftedApart(b: seq<Bucket>, from: nat, place: nat)
    requires from < |b| && place <= |b|
    ensures Shifted(b, place, b[from].frequency + 1, from) != place
  {
    var w := Widen(b, place, b[from].frequency + 1);
    assert w[Shifted(b, place, b[from].frequency + 1, from)].frequency != w[place].frequency;
  }

  lemma ElementIn(sh: Shape, u: Url, i: nat)
    requires Agree(sh) && u in sh.index && i < |sh.nodes| && sh.nodes[i] == sh.index[u].0
    ensures sh.index[u].1 in sh.lists[i] && sh.index[u].1.url == u
  {
    HolderIndexed(sh, u, i);
  }

  lemma IndexOf(sh: Shape, u: Url) returns (from: nat)
    requires Agree(sh) && u in sh.index
    ensures from < |sh.nodes| && sh.nodes[from] == sh.index[u].0
    ensures Holder(BucketsOf(sh), u) == from
  {
    assert Located(sh, u);
    from :| 0 <= from < |sh.nodes| && sh.nodes[from] == sh.index[u].0;
    HolderIndexed(sh, u, from);
  }

  lemma MeantIs(b: seq<Bucket>, u: Url, from: nat, next: nat, place: nat)
    requires Holder(b, u) == from < |b| && b[from].frequency + 1 == next
    requires place == FirstAtLeast(b, next)
    ensures place == MeantPlace(b, u)
  {
  }

  lemma FirstFilledIs(sh: Shape, i: nat)
    requires i < |sh.nodes| == |sh.lists| && sh.lists[i] != []
    requires forall j :: 0 <= j < i ==> sh.lists[j] == []
    ensures i == FirstNonEmpty(BucketsOf(sh))
  {
    FirstNonEmptyIs(BucketsOf(sh), i);
  }

  lemma FirstNonEmptyIs(b: seq<Bucket>, i: nat)
    requires i < |b| && b[i].urls != [] && forall j :: 0 <= j < i ==> b[j].urls == []
    ensures FirstNonEmpty(b) == i
  {
  }

  lemma StoredLess(index: map<Url, (FrequencyNode, CacheElement)>, u: Url)
    requires u in index
    ensures StoredIn(index - {u}) == StoredIn(index) - {u} && |index - {u}| == |index| - 1
  {
    assert (index - {u}).Keys == index.Keys - {u};
  }

  lemma StoredMore(index: map<Url, (FrequencyNode, CacheElement)>, n: FrequencyNode,
                   e: CacheElement)
    requires e.url !in index
    ensures StoredIn(index[e.url := (n, e)]) == StoredIn(index)[e.url := e.data]
    ensures |index[e.url := (n, e)]| == |index| + 1
  {
    assert index[e.url := (n, e)].Keys == index.Keys + {e.url};
  }

  lemma StoredSize(index: map<Url, (FrequencyNode, CacheElement)>)
    ensures |StoredIn(index)| == |index|
  {
    assert StoredIn(index).Keys == index.Keys;
    assert |StoredIn(index).Keys| == |index.Keys|;
  }

  /** Popping the back of a bucket erases exactly its last URL. */
  lemma BackErased(sh: Shape, i: nat)
    requires Agree(sh) && i < |sh.nodes| && sh.lists[i] != []
    ensures var l := sh.lists[i]; var n := |l| - 1;
            Erase(Urls(l), l[n].url) == Urls(l)[..n]
  {
    BucketUrls(sh, i);
    EraseAt(Urls(sh.lists[i]), |sh.lists[i]| - 1);
  }

  lemma RemoveIs(s: State, u: Url, i: nat, r: State)
    requires Holder(s.buckets, u) == i < |s.buckets|
    requires r == State(s.buckets[i := s.buckets[i].(urls := Erase(s.buckets[i].urls, u))],
                        s.store - {u})
    ensures r == StepState(0, s, Remove(u))
  {
  }

  lemma AddMissIs(capacity: nat, s: State, t: State, u: Url, d: Bytes, r: State)
    requires t == (if |s.store| >= capacity then DropBack(s) else s) && t.buckets != []
    requires r == State(PushFront(t.buckets, u), t.store[u := d])
    ensures r == AddMiss(capacity, s, u, d)
  {
  }

  lemma StoredSame(index: map<Url, (FrequencyNode, CacheElement)>, u: Url, n: FrequencyNode)
    requires u in index
    ensures StoredIn(index[u := (n, index[u].1)]) == StoredIn(index)
    ensures |index[u := (n, index[u].1)]| == |index|
  {
    assert index[u := (n, index[u].1)].Keys == index.Keys;
  }
}
