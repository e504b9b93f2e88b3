/** The least-recently-used strategy: a list of elements, most recent first, and an index
    from URL to the list node. */
module LRUCache {
  import opened Options
  import opened Sequences
  import opened CacheReference

  // ---------------------------------------------------------------- specification

  /** `order` is the list of resident URLs from front to back, `store` their bytes. */
  datatype State = State(order: seq<Url>, store: map<Url, Bytes>)

  const EMPTY_STATE := State([], map[])

  ghost predicate Consistent(capacity: nat, s: State) {
    && Distinct(s.order)
    && |s.order| <= capacity
    && forall u :: u in s.order <==> u in s.store
  }

  function MoveToFront(s: State, u: Url): State {
    s.(order := [u] + Erase(s.order, u))
  }

  function DropBack(s: State): State
    requires s.order != []
  {
    var n := |s.order| - 1;
    State(s.order[..n], s.store - {s.order[n]})
  }

  function StepState(capacity: nat, s: State, op: Op): State
    requires capacity >= 1
  {
    match op
    case Find(u) => if u in s.store then MoveToFront(s, u) else s
    case Add(u, d) =>
      if u in s.store then MoveToFront(s, u)
      else
        var t := if |s.order| >= capacity then DropBack(s) else s;
        State([u] + t.order, t.store[u := d])
    case Remove(u) => State(Erase(s.order, u), s.store - {u})
  }

  function ReplyOf(s: State, op: Op): Option<Bytes> {
    if op.Find? && op.url in s.store then Some(s.store[op.url]) else None
  }

  function RunState(capacity: nat, ops: seq<Op>): State
    requires capacity >= 1
  {
    if ops == [] then EMPTY_STATE
    else StepState(capacity, RunState(capacity, ops[..|ops| - 1]), ops[|ops| - 1])
  }

  lemma DropBackConsistent(capacity: nat, s: State)
    requires Consistent(capacity, s) && s.order != []
    ensures Consistent(capacity - 1, DropBack(s))
  {
    var n := |s.order| - 1;
    assert s.order == s.order[..n] + [s.order[n]];
  }

  lemma StepConsistent(capacity: nat, s: State, op: Op)
    requires capacity >= 1 && Consistent(capacity, s)
    ensures Consistent(capacity, StepState(capacity, s, op))
  {
    if op.Add? && op.url !in s.store {
      if |s.order| >= capacity {
        DropBackConsistent(capacity, s);
      }
    } else {
      EraseKeeps(s.order, op.url);
    }
  }

  // ------------------------------------------------- refinement of the reference cache

  /** Same residents with the same bytes, and the list in order of last touch. */
  ghost predicate Represents(s: State, r: Reference) {
    && s.store.Keys == r.residents.Keys
    && (forall u :: u in r.residents ==>
          s.store[u] == r.residents[u].data && r.residents[u].touched < r.clock)
    && ByRecency(s.order, r.residents)
  }

  lemma TouchRepresents(capacity: nat, s: State, r: Reference, u: Url)
    requires Consistent(capacity, s) && Represents(s, r) && u in s.store
    ensures Represents(MoveToFront(s, u), Touch(r, u))
  {
    ErasedByRecency(s.order, r.residents, u);
    assert u !in Erase(s.order, u) by {
      EraseKeeps(s.order, u);
    }
    FreshInFront(Erase(s.order, u), r.residents, u, Touch(r, u).residents[u]);
    TouchWith(s, r, u, [u] + Erase(s.order, u));
  }

  lemma TouchWith(s: State, r: Reference, u: Url, order: seq<Url>)
    requires Represents(s, r) && u in r.residents && ByRecency(order, Touch(r, u).residents)
    ensures Represents(s.(order := order), Touch(r, u))
  {
  }

  /** The back of the list is the reference cache's victim. */
  lemma BackIsVictim(capacity: nat, s: State, r: Reference)
    requires Consistent(capacity, s) && Represents(s, r) && s.order != []
    ensures IsVictim(LeastRecentlyUsed, r.residents, s.order[|s.order| - 1])
  {
    var v := s.order[|s.order| - 1];
    forall u | u in r.residents && u != v
      ensures Before(LeastRecentlyUsed, r.residents[v], r.residents[u])
    {
      var i :| 0 <= i < |s.order| && s.order[i] == u;
    }
  }

  lemma ResidentCount(capacity: nat, s: State, r: Reference)
    requires Consistent(capacity, s) && Represents(s, r)
    ensures |s.order| == |r.residents|
  {
    DistinctSize(s.order);
    assert Elems(s.order) == r.residents.Keys;
  }

  lemma EvictRepresents(capacity: nat, s: State, r: Reference)
    requires Consistent(capacity, s) && Represents(s, r) && s.order != []
    ensures Represents(DropBack(s), r.(residents := Evict(LeastRecentlyUsed, r.residents)))
  {
    BackIsVictim(capacity, s, r);
    EvictIs(LeastRecentlyUsed, r.residents, s.order[|s.order| - 1]);
  }

  lemma InsertRepresents(s: State, r: Reference, u: Url, d: Bytes)
    requires Represents(s, r) && u !in s.store
    ensures Represents(State([u] + s.order, s.store[u := d]),
                       Reference(r.residents[u := Resident(d, 0, r.clock)], r.clock + 1))
  {
    FreshInFront(s.order, r.residents, u, Resident(d, 0, r.clock));
  }

  lemma StepRepresents(capacity: nat, s: State, r: Reference, op: Op)
    requires capacity >= 1 && Consistent(capacity, s) && Represents(s, r)
    ensures Represents(StepState(capacity, s, op), Step(LeastRecentlyUsed, capacity, r, op))
    ensures ReplyOf(s, op) == Reply(r, op)
  {
    if op.Remove? {
      ErasedByRecency(s.order, r.residents, op.url);
    } else if op.url in s.store {
      TouchRepresents(capacity, s, r, op.url);
    } else if op.Add? {
      ResidentCount(capacity, s, r);
      if |s.order| >= capacity {
        EvictRepresents(capacity, s, r);
        InsertRepresents(DropBack(s), r.(residents := Evict(LeastRecentlyUsed, r.residents)),
                         op.url, op.data);
      } else {
        InsertRepresents(s, r, op.url, op.data);
      }
    }
  }

  /** Over every run the list cache is the clock-stamped reference cache: same residents,
      same bytes, list order exactly by decreasing last touch. */
  lemma {:induction false} RunRefinesReference(capacity: nat, ops: seq<Op>)
    requires capacity >= 1
    ensures Consistent(capacity, RunState(capacity, ops))
    ensures Represents(RunState(capacity, ops), Run(LeastRecentlyUsed, capacity, ops))
  {
    if ops != [] {
      var n := |ops| - 1;
      RunRefinesReference(capacity, ops[..n]);
      StepConsistent(capacity, RunState(capacity, ops[..n]), ops[n]);
      StepRepresents(capacity, RunState(capacity, ops[..n]),
                     Run(LeastRecentlyUsed, capacity, ops[..n]), ops[n]);
    }
  }

  /** Every reply of every run is the reference cache's reply. */
  lemma RepliesMatchReference(capacity: nat, ops: seq<Op>, op: Op)
    requires capacity >= 1
    ensures ReplyOf(RunState(capacity, ops), op)
         == Reply(Run(LeastRecentlyUsed, capacity, ops), op)
  {
    RunRefinesReference(capacity, ops);
  }

  // ---------------------------------------------------------------- the linked structure

  /** List and index agree: same elements, each indexed under its own URL. */
  ghost predicate Agree(list: seq<CacheElement>, index: map<Url, CacheElement>) {
    && Distinct(Urls(list))
    && (forall e :: e in list ==> e.url in index && index[e.url] == e)
    && (forall u :: u in index ==> index[u] in list && index[u].url == u)
  }

  function Stored(index: map<Url, CacheElement>): map<Url, Bytes> {
    map u | u in index :: index[u].data
  }

  lemma InUrls(list: seq<CacheElement>, index: map<Url, CacheElement>, u: Url)
    requires Agree(list, index)
    ensures u in Urls(list) <==> u in index
  {
    if u in Urls(list) {
      var i :| 0 <= i < |list| && Urls(list)[i] == u;
      assert list[i] in list;
    }
    if u in index {
      var i :| 0 <= i < |list| && list[i] == index[u];
      assert Urls(list)[i] == u;
    }
  }

  lemma AgreePush(list: seq<CacheElement>, index: map<Url, CacheElement>, e: CacheElement)
    requires Agree(list, index) && e.url !in index
    ensures Agree([e] + list, index[e.url := e])
    ensures Urls([e] + list) == [e.url] + Urls(list)
    ensures Stored(index[e.url := e]) == Stored(index)[e.url := e.data]
  {
    InUrls(list, index, e.url);
    PushUrls(list, e);
    assert Distinct([e.url] + Urls(list));
  }

  lemma PushUrls(list: seq<CacheElement>, e: CacheElement)
    ensures Urls([e] + list) == [e.url] + Urls(list)
  {
  }

  lemma AgreeShrink(list: seq<CacheElement>, list': seq<CacheElement>,
                    index: map<Url, CacheElement>, e: CacheElement)
    requires Agree(list, index) && e in list && Distinct(Urls(list'))
    requires forall x :: x in list' <==> x in list && x != e
    ensures Agree(list', index - {e.url})
    ensures Stored(index - {e.url}) == Stored(index) - {e.url}
  {
  }

  lemma AgreeErase(list: seq<CacheElement>, index: map<Url, CacheElement>, e: CacheElement)
    requires Agree(list, index) && e in list
    ensures Agree(Erase<CacheElement>(list, e), index - {e.url})
    ensures Urls(Erase<CacheElement>(list, e)) == Erase(Urls(list), e.url)
    ensures Stored(index - {e.url}) == Stored(index) - {e.url}
  {
    UrlsErase(list, e);
    EraseKeeps(list, e);
    EraseKeeps(Urls(list), e.url);
    AgreeShrink(list, Erase<CacheElement>(list, e), index, e);
  }

  class LRUCache {
    const capacity: nat
    var cacheList: seq<CacheElement>
    var cacheMap: map<Url, CacheElement>

    ghost predicate Valid()
      reads this
    {
      capacity >= 1 && |cacheList| <= capacity && Agree(cacheList, cacheMap)
    }

    ghost function Abstract(): State
      reads this
    {
      State(Urls(cacheList), Stored(cacheMap))
    }

    constructor (capacity: nat)
      requires capacity >= 1
      ensures Valid() && this.capacity == capacity && Abstract() == EMPTY_STATE
    {
      this.capacity := capacity;
      cacheList, cacheMap := [], map[];
    }

    method Find(url: Url) returns (found: Option<Bytes>)
      requires Valid()
      modifies this
      ensures Valid()
      ensures Abstract() == StepState(capacity, old(Abstract()), Op.Find(url))
      ensures found == ReplyOf(old(Abstract()), Op.Find(url))
    {
      if url !in cacheMap {
        return None;
      }
      MoveElementToFront(cacheMap[url]);
      return Some(cacheMap[url].data);
    }

    method Add(url: Url, data: Bytes)
      requires Valid()
      modifies this
      ensures Valid()
      ensures Abstract() == StepState(capacity, old(Abstract()), Op.Add(url, data))
    {
      if url in cacheMap {
        MoveElementToFront(cacheMap[url]);
        return;
      }
      if |cacheList| >= capacity {
        EvictBack();
      }
      PushFront(url, data);
    }

    method PushFront(url: Url, data: Bytes)
      requires Valid() && url !in cacheMap && |cacheList| < capacity
      modifies this
      ensures Valid()
      ensures Abstract() == State([url] + old(Abstract()).order, old(Abstract()).store[url := data])
    {
      var element := new CacheElement(url, data);
      AgreePush(cacheList, cacheMap, element);
      cacheList := [element] + cacheList;
      cacheMap := cacheMap[url := element];
    }

    method Remove(url: Url)
      requires Valid()
      modifies this
      ensures Valid()
      ensures Abstract() == StepState(capacity, old(Abstract()), Op.Remove(url))
    {
      InUrls(cacheList, cacheMap, url);
      if url !in cacheMap {
        return;
      }
      AgreeErase(cacheList, cacheMap, cacheMap[url]);
      cacheList := Erase(cacheList, cacheMap[url]);
      cacheMap := cacheMap - {url};
    }

    /** Splices the node to the front; the index entry, an iterator, stays good. */
    method MoveElementToFront(element: CacheElement)
      requires Valid() && element in cacheList
      modifies this`cacheList
      ensures Valid()
      ensures Abstract() == MoveToFront(old(Abstract()), element.url)
    {
      AgreeErase(cacheList, cacheMap, element);
      AgreePush(Erase(cacheList, element), cacheMap - {element.url}, element);
      assert (cacheMap - {element.url})[element.url := element] == cacheMap;
      cacheList := [element] + Erase(cacheList, element);
    }

    method EvictBack()
      requires Valid() && cacheList != []
      modifies this
      ensures Valid() && |cacheList| == old(|cacheList|) - 1
      ensures Abstract() == DropBack(old(Abstract()))
    {
      var n := |cacheList| - 1;
      var element := cacheList[n];
      EraseBack(cacheList, n);
      AgreeErase(cacheList, cacheMap, element);
      cacheMap := cacheMap - {element.url};
      cacheList := cacheList[..n];
    }
  }

  lemma EraseBack(list: seq<CacheElement>, n: nat)
    requires Distinct(Urls(list)) && |list| == n + 1
    ensures Erase(list, list[n]) == list[..n] && Erase(Urls(list), list[n].url) == Urls(list)[..n]
  {
    UrlsErase(list, list[n]);
    EraseAt(list, n);
    EraseAt(Urls(list), n);
  }
}
