/** The interface shared by both cache strategies, and the textbook cache they are
    measured against: every resident carries the number of hits since its insertion and
    the time it was last touched, and a full cache evicts the resident that the policy
    orders before all others. */
module CacheReference {
  import opened Options
  import opened Sequences

  datatype Url = Url(text: string)
  type Bytes = string

  datatype Op = Find(url: Url) | Add(url: Url, data: Bytes) | Remove(url: Url)

  ghost predicate NoRemove(ops: seq<Op>) {
    forall i :: 0 <= i < |ops| ==> !ops[i].Remove?
  }

  datatype Policy = LeastRecentlyUsed | LeastFrequentlyUsed

  datatype Resident = Resident(data: Bytes, hits: nat, touched: nat)

  datatype Reference = Reference(residents: map<Url, Resident>, clock: nat)

  const EMPTY := Reference(map[], 0)

  /** The policy's eviction order: for LFU, fewer hits first and ties by older touch. */
  predicate Before(policy: Policy, a: Resident, b: Resident) {
    match policy
    case LeastRecentlyUsed => a.touched < b.touched
    case LeastFrequentlyUsed => a.hits < b.hits || (a.hits == b.hits && a.touched < b.touched)
  }

  ghost predicate IsVictim(policy: Policy, m: map<Url, Resident>, v: Url) {
    v in m && forall u :: u in m && u != v ==> Before(policy, m[v], m[u])
  }

  ghost function Evict(policy: Policy, m: map<Url, Resident>): map<Url, Resident> {
    if v :| IsVictim(policy, m, v) then m - {v} else m
  }

  function Touch(r: Reference, u: Url): Reference
    requires u in r.residents
  {
    var e := r.residents[u];
    Reference(r.residents[u := e.(hits := e.hits + 1, touched := r.clock)], r.clock + 1)
  }

  ghost function Step(policy: Policy, capacity: nat, r: Reference, op: Op): Reference {
    match op
    case Find(u) => if u in r.residents then Touch(r, u) else r
    case Add(u, d) =>
      if u in r.residents then Touch(r, u)
      else
        var kept := if |r.residents| >= capacity then Evict(policy, r.residents) else r.residents;
        Reference(kept[u := Resident(d, 0, r.clock)], r.clock + 1)
    case Remove(u) => r.(residents := r.residents - {u})
  }

  /** What a caller sees of an operation: the bytes found, if any. */
  function Reply(r: Reference, op: Op): Option<Bytes> {
    if op.Find? && op.url in r.residents then Some(r.residents[op.url].data) else None
  }

  ghost function Run(policy: Policy, capacity: nat, ops: seq<Op>): Reference {
    if ops == [] then EMPTY
    else Step(policy, capacity, Run(policy, capacity, ops[..|ops| - 1]), ops[|ops| - 1])
  }

  /** At most one resident can be the victim, so `Evict` leaves nothing open. */
  lemma VictimUnique(policy: Policy, m: map<Url, Resident>, v: Url, w: Url)
    requires IsVictim(policy, m, v) && IsVictim(policy, m, w)
    ensures v == w
  {
  }

  lemma EvictIs(policy: Policy, m: map<Url, Resident>, v: Url)
    requires IsVictim(policy, m, v)
    ensures Evict(policy, m) == m - {v}
  {
    var w :| IsVictim(policy, m, w) && Evict(policy, m) == m - {w};
    VictimUnique(policy, m, v, w);
  }

  /** `order` lists residents only, in strictly decreasing order of last touch. */
  ghost predicate ByRecency(order: seq<Url>, m: map<Url, Resident>) {
    && (forall i :: 0 <= i < |order| ==> order[i] in m)
    && (forall i, j :: 0 <= i < j < |order| ==> m[order[i]].touched > m[order[j]].touched)
  }

  /** A freshly touched URL goes in front of everything touched before. */
  lemma FreshInFront(order: seq<Url>, m: map<Url, Resident>, u: Url, e: Resident)
    requires ByRecency(order, m) && u !in order
    requires forall i :: 0 <= i < |order| ==> m[order[i]].touched < e.touched
    ensures ByRecency([u] + order, m[u := e])
  {
    var o, m' := [u] + order, m[u := e];
    forall i | 0 <= i < |o| ensures o[i] in m' && (i > 0 ==> m'[o[i]] == m[order[i - 1]]) {
      assert i > 0 ==> o[i] == order[i - 1];
    }
  }

  /** Cutting one position out of the list keeps it ordered. */
  lemma CutByRecency(order: seq<Url>, m: map<Url, Resident>, i: nat)
    requires ByRecency(order, m) && i < |order|
    ensures ByRecency(order[..i] + order[i + 1..], m)
    ensures order[i] !in order[..i] + order[i + 1..]
  {
    var o := order[..i] + order[i + 1..];
    forall j | 0 <= j < |o| ensures o[j] == order[if j < i then j else j + 1] {
    }
  }

  lemma ErasedByRecency(order: seq<Url>, m: map<Url, Resident>, u: Url)
    requires ByRecency(order, m) && Distinct(order)
    ensures ByRecency(Erase(order, u), m) && ByRecency(Erase(order, u), m - {u})
  {
    if u in order {
      var i :| 0 <= i < |order| && order[i] == u;
      EraseAt(order, i);
      CutByRecency(order, m, i);
    }
    OnlyListed(Erase(order, u), m, m - {u});
  }

  lemma OnlyListed(order: seq<Url>, m: map<Url, Resident>, m': map<Url, Resident>)
    requires ByRecency(order, m)
    requires forall i :: 0 <= i < |order| ==> order[i] in m' && m'[order[i]] == m[order[i]]
    ensures ByRecency(order, m')
  {
  }

  /** A list node; a reference to it plays the role of the list iterator kept in the index. */
  class CacheElement {
    const url: Url
    const data: Bytes

    constructor (url: Url, data: Bytes)
      ensures this.url == url && this.data == data
    {
      this.url, this.data := url, data;
    }
  }

  function Urls(elements: seq<CacheElement>): (r: seq<Url>)
    ensures |r| == |elements| && forall i :: 0 <= i < |r| ==> r[i] == elements[i].url
  {
    seq(|elements|, i requires 0 <= i < |elements| => elements[i].url)
  }

  lemma UrlsDistinct(list: seq<CacheElement>)
    requires Distinct(Urls(list))
    ensures Distinct(list)
  {
    forall j, k | 0 <= j < k < |list| ensures list[j] != list[k] {
      assert Urls(list)[j] != Urls(list)[k];
    }
  }

  lemma UrlsCut(list: seq<CacheElement>, i: nat)
    requires i < |list|
    ensures Urls(list[..i] + list[i + 1..]) == Urls(list)[..i] + Urls(list)[i + 1..]
  {
  }

  lemma UrlsEraseAt(list: seq<CacheElement>, i: nat)
    requires Distinct(list) && Distinct(Urls(list)) && i < |list|
    ensures Urls(Erase<CacheElement>(list, list[i])) == Erase(Urls(list), list[i].url)
  {
    assert Urls(list)[i] == list[i].url;
    EraseAt<CacheElement>(list, i);
    EraseAt<Url>(Urls(list), i);
    UrlsCut(list, i);
  }

  lemma UrlsErase(list: seq<CacheElement>, e: CacheElement)
    requires Distinct(Urls(list)) && e in list
    ensures Distinct(list) && Urls(Erase<CacheElement>(list, e)) == Erase(Urls(list), e.url)
  {
    UrlsDistinct(list);
    var i :| 0 <= i < |list| && list[i] == e;
    UrlsEraseAt(list, i);
  }
}
