/** The first version's cache: a singly linked list of timestamped elements, newest first,
    under a budget of bytes; room is made by unlinking the element with the least
    timestamp until the new one fits. */
module ByteBudgetCache {
  import opened Sequences

  const NODE_SIZE := 40                      // sizeof(cache_element) with 64-bit pointers
  const MAX_SIZE := 200 * 0x10_0000
  const MAX_ELEMENT_SIZE := 10 * 0x10_0000

  // ---------------------------------------------------------------- specification

  datatype Element = Element(url: string, data: string, time: int)

  function SizeOf(e: Element): nat {
    |e.data| + 1 + |e.url| + NODE_SIZE
  }

  function TotalSize(s: seq<Element>): nat {
    if s == [] then 0 else SizeOf(s[0]) + TotalSize(s[1..])
  }

  /** Position of the first element with the least timestamp. */
  function Oldest(s: seq<Element>): (i: nat)
    requires s != []
    ensures i < |s|
    ensures forall j :: 0 <= j < |s| ==> s[i].time <= s[j].time
    ensures forall j :: 0 <= j < i ==> s[i].time < s[j].time
  {
    if |s| == 1 then 0
    else
      var i := Oldest(s[1..]);
      assert forall j :: 1 <= j < |s| ==> s[j] == s[1..][j - 1];
      if s[1 + i].time < s[0].time then 1 + i else 0
  }

  function RemoveOldest(s: seq<Element>): seq<Element> {
    if s == [] then [] else DropAt(s, Oldest(s))
  }

  lemma {:induction false} DropAtSize(s: seq<Element>, i: nat)
    requires i < |s|
    ensures TotalSize(DropAt(s, i)) == TotalSize(s) - SizeOf(s[i])
  {
    if i == 0 {
      assert DropAt(s, 0) == s[1..];
    } else {
      DropAtSize(s[1..], i - 1);
      assert DropAt(s, i)[1..] == DropAt(s[1..], i - 1);
    }
  }

  /** The outcome of making room: what stays, and what went, in the order it went. */
  datatype Eviction = Eviction(kept: seq<Element>, gone: seq<Element>)

  /** Elements removed, in order, until `need` more bytes fit, and what is left. */
  function MakeRoom(s: seq<Element>, need: nat): (r: Eviction)
    requires need <= MAX_SIZE
    ensures TotalSize(r.kept) + need <= MAX_SIZE
    decreases |s|
  {
    if TotalSize(s) + need <= MAX_SIZE then Eviction(s, [])
    else
      var rest := MakeRoom(RemoveOldest(s), need);
      Eviction(rest.kept, [s[Oldest(s)]] + rest.gone)
  }

  /** The list after adding `e`: refused if too large, otherwise in front of what stays. */
  function Added(s: seq<Element>, e: Element): seq<Element> {
    if SizeOf(e) > MAX_ELEMENT_SIZE then s else [e] + MakeRoom(s, SizeOf(e)).kept
  }

  function Lookup(s: seq<Element>, url: string): (i: nat)
    ensures i <= |s| && (i < |s| ==> s[i].url == url)
    ensures forall j :: 0 <= j < i ==> s[j].url != url
  {
    if s == [] then 0
    else if s[0].url == url then 0
    else
      var i := Lookup(s[1..], url);
      assert forall j :: 1 <= j < 1 + i ==> s[j] == s[1..][j - 1];
      1 + i
  }

  /** Survivors keep their order. */
  lemma {:induction false} SurvivorsInOrder(s: seq<Element>, need: nat)
    requires need <= MAX_SIZE
    ensures Sub(MakeRoom(s, need).kept, s)
    decreases |s|
  {
    if TotalSize(s) + need <= MAX_SIZE {
      SubRefl(s);
    } else {
      SurvivorsInOrder(RemoveOldest(s), need);
      DropAtSub(s, Oldest(s));
      SubTransitive(MakeRoom(s, need).kept, RemoveOldest(s), s);
    }
  }

  /** Nothing is lost or invented: evicted and surviving elements together are the list. */
  lemma {:induction false} EvictionConserves(s: seq<Element>, need: nat)
    requires need <= MAX_SIZE
    ensures var r := MakeRoom(s, need);
            multiset(s) == multiset(r.kept) + multiset(r.gone)
    decreases |s|
  {
    if TotalSize(s) + need > MAX_SIZE {
      var t, o := RemoveOldest(s), s[Oldest(s)];
      EvictionConserves(t, need);
      DropAtMultiset(s, Oldest(s));
      var gone := MakeRoom(t, need).gone;
      assert multiset([o] + gone) == multiset{o} + multiset(gone);
    }
  }

  lemma DropAtMultiset(s: seq<Element>, i: nat)
    requires i < |s|
    ensures multiset(s) == multiset(DropAt(s, i)) + multiset{s[i]}
    ensures forall j :: 0 <= j < |DropAt(s, i)| ==> DropAt(s, i)[j] in s
  {
    assert s == s[..i] + [s[i]] + s[i + 1..];
  }

  /** `o` is no younger than anything in `s`. */
  ghost predicate NoYounger(o: Element, s: seq<Element>) {
    forall j :: 0 <= j < |s| ==> o.time <= s[j].time
  }

  lemma NoYoungerDrop(o: Element, s: seq<Element>, i: nat)
    requires NoYounger(o, s) && i < |s|
    ensures NoYounger(o, DropAt(s, i))
  {
  }

  lemma {:induction false} NoYoungerKept(o: Element, s: seq<Element>, need: nat)
    requires need <= MAX_SIZE && NoYounger(o, s)
    ensures NoYounger(o, MakeRoom(s, need).kept) && NoYounger(o, MakeRoom(s, need).gone)
    decreases |s|
  {
    if TotalSize(s) + need > MAX_SIZE {
      NoYoungerDrop(o, s, Oldest(s));
      NoYoungerKept(o, RemoveOldest(s), need);
    }
  }

  ghost predicate OldestFirst(s: seq<Element>) {
    forall i, j :: 0 <= i < j < |s| ==> s[i].time <= s[j].time
  }

  /** Elements leave oldest first, and none that leaves is younger than one that stays. */
  lemma {:induction false} EvictedAreOldest(s: seq<Element>, need: nat)
    requires need <= MAX_SIZE
    ensures var r := MakeRoom(s, need);
      OldestFirst(r.gone) && forall i :: 0 <= i < |r.gone| ==> NoYounger(r.gone[i], r.kept)
    decreases |s|
  {
    if TotalSize(s) + need > MAX_SIZE {
      var t, o := RemoveOldest(s), s[Oldest(s)];
      EvictedAreOldest(t, need);
      assert NoYounger(o, t);
      NoYoungerKept(o, t, need);
      OldestFirstCons(o, MakeRoom(t, need).gone, MakeRoom(t, need).kept);
    }
  }

  lemma OldestFirstCons(o: Element, gone: seq<Element>, kept: seq<Element>)
    requires OldestFirst(gone) && NoYounger(o, gone) && NoYounger(o, kept)
    requires forall i :: 0 <= i < |gone| ==> NoYounger(gone[i], kept)
    ensures OldestFirst([o] + gone)
    ensures forall i :: 0 <= i < |[o] + gone| ==> NoYounger(([o] + gone)[i], kept)
  {
  }

  /** Eviction stops at the first point where the new element fits: with the last evicted
      element still in place it would not have fitted. */
  lemma {:induction false} EvictionIsMinimal(s: seq<Element>, need: nat)
    requires need <= MAX_SIZE && MakeRoom(s, need).gone != []
    ensures var r := MakeRoom(s, need);
      TotalSize(r.kept) + SizeOf(r.gone[|r.gone| - 1]) + need > MAX_SIZE
    decreases |s|
  {
    var t := RemoveOldest(s);
    DropAtSize(s, Oldest(s));
    if MakeRoom(t, need).gone != [] {
      EvictionIsMinimal(t, need);
    }
  }

  /** Adding evicts: the element is small enough to be accepted and does not fit yet. */
  predicate Evicts(s: seq<Element>, e: Element) {
    SizeOf(e) <= MAX_ELEMENT_SIZE && TotalSize(s) + SizeOf(e) > MAX_SIZE
  }

  /** The routine that removes an element is entered, while the lock it takes is held,
      exactly when adding evicts; otherwise an accepted element just goes in front. */
  lemma EvictsIff(s: seq<Element>, e: Element)
    requires SizeOf(e) <= MAX_ELEMENT_SIZE && TotalSize(s) <= MAX_SIZE
    ensures Evicts(s, e) <==> MakeRoom(s, SizeOf(e)).gone != []
    ensures !Evicts(s, e) <==> Added(s, e) == [e] + s
  {
    if Evicts(s, e) {
      EvictionConserves(s, SizeOf(e));
      var r := MakeRoom(s, SizeOf(e));
      assert |multiset(s)| == |multiset(r.kept)| + |multiset(r.gone)|;
      assert |multiset(s)| == |s| && |multiset(r.kept)| == |r.kept| && |multiset(r.gone)| == |r.gone|;
      assert |Added(s, e)| == 1 + |r.kept|;
    }
  }

  // ---------------------------------------------------------------- the budget in bytes

  /** The bytes a list occupies: for each element its data and its URL with their NULs, and
      40 bytes of list node. */
  function BytesHeld(s: seq<Element>): nat {
    if s == [] then 0 else |s[0].data| + |s[0].url| + 41 + BytesHeld(s[1..])
  }

  lemma {:induction false} BytesHeldIs(s: seq<Element>)
    ensures TotalSize(s) == BytesHeld(s)
  {
    if s != [] {
      BytesHeldIs(s[1..]);
    }
  }

  /** An element is accepted exactly when it takes at most 10 MiB; then it is in front of
      survivors, all of them if there is room, and the list takes at most 200 MiB. */
  lemma AcceptedIff(s: seq<Element>, e: Element)
    ensures |e.data| + |e.url| + 41 > 10485760 ==> Added(s, e) == s
    ensures |e.data| + |e.url| + 41 <= 10485760 ==>
      var after := Added(s, e);
      && after != [] && after[0] == e && Sub(after[1..], s) && BytesHeld(after) <= 209715200
      && (BytesHeld(s) + |e.data| + |e.url| + 41 <= 209715200 <==> after == [e] + s)
  {
    if |e.data| + |e.url| + 41 <= 10485760 {
      var kept := MakeRoom(s, SizeOf(e)).kept;
      AddedIs(s, e, SizeOf(e), kept);
      SurvivorsInOrder(s, SizeOf(e));
      BytesHeldIs(kept);
      BytesHeldIs(s);
      assert ([e] + kept)[1..] == kept;
      KeptAllIff(s, SizeOf(e));
    }
  }

  lemma KeptAllIff(s: seq<Element>, need: nat)
    requires need <= MAX_SIZE
    ensures MakeRoom(s, need).kept == s <==> TotalSize(s) + need <= MAX_SIZE
  {
  }

  // ---------------------------------------------------------------- the linked list

  class Node {
    var url: string
    var data: string
    var len: int
    var time: int
    var next: Node?

    constructor (url: string, data: string, time: int, next: Node?)
      ensures this.url == url && this.data == data && this.len == |data|
      ensures this.time == time && this.next == next
    {
      this.url, this.data, this.len, this.time, this.next := url, data, |data|, time, next;
    }
  }

  ghost function ElementsOf(nodes: seq<Node>): (c: seq<Element>)
    reads nodes
    ensures |c| == |nodes|
    ensures forall i :: 0 <= i < |c| ==>
              c[i] == Element(nodes[i].url, nodes[i].data, nodes[i].time)
  {
    seq(|nodes|, i requires 0 <= i < |nodes| reads nodes =>
      Element(nodes[i].url, nodes[i].data, nodes[i].time))
  }

  function At(nodes: seq<Node>, i: nat): Node? {
    if i < |nodes| then nodes[i] else null
  }

  /** `first` starts the chain of `nodes`, which ends in a null pointer. */
  ghost predicate LinkedFrom(nodes: seq<Node>, first: Node?)
    reads nodes
  {
    && (forall i, j :: 0 <= i < j < |nodes| ==> nodes[i] != nodes[j])
    && first == At(nodes, 0)
    && (forall i {:trigger nodes[i].next} :: 0 <= i < |nodes| ==>
          nodes[i].next == At(nodes, i + 1))
    && (forall i {:trigger nodes[i].len} :: 0 <= i < |nodes| ==>
          nodes[i].len == |nodes[i].data|)
  }

  /** Where the chain continues from position `k` or, for `k == -1`, from the head, once the
      node at `i` is skipped. */
  function After(nodes: seq<Node>, i: nat, k: int): Node?
    requires k >= -1
  {
    if k + 1 == i then At(nodes, i + 1) else At(nodes, k + 1)
  }

  lemma CutLinked(nodes: seq<Node>, i: nat, first: Node?)
    requires i < |nodes| && first == After(nodes, i, -1)
    requires forall j, k :: 0 <= j < k < |nodes| ==> nodes[j] != nodes[k]
    requires forall k {:trigger nodes[k].next} :: 0 <= k < |nodes| && k != i ==>
               nodes[k].next == After(nodes, i, k)
    requires forall k {:trigger nodes[k].len} :: 0 <= k < |nodes| ==> nodes[k].len == |nodes[k].data|
    ensures LinkedFrom(nodes[..i] + nodes[i + 1..], first)
  {
    var cut := nodes[..i] + nodes[i + 1..];
    forall k | 0 <= k < |cut| ensures cut[k].next == At(cut, k + 1) && cut[k].len == |cut[k].data| {
      assert cut[k] == nodes[if k < i then k else k + 1];
    }
  }

  lemma CutElements(nodes: seq<Node>, i: nat)
    requires i < |nodes|
    ensures ElementsOf(nodes[..i] + nodes[i + 1..]) == DropAt(ElementsOf(nodes), i)
  {
  }

  lemma PushLinked(node: Node, nodes: seq<Node>)
    requires LinkedFrom(nodes, node.next) && node !in nodes && node.len == |node.data|
    ensures LinkedFrom([node] + nodes, node)
  {
  }

  lemma PushElements(node: Node, nodes: seq<Node>)
    ensures ElementsOf([node] + nodes)
         == [Element(node.url, node.data, node.time)] + ElementsOf(nodes)
  {
  }

  class Cache {
    var head: Node?
    var cacheSize: int
    ghost var spine: seq<Node>

    ghost predicate Linked()
      reads `head, `spine, spine
    {
      LinkedFrom(spine, head)
    }

    /** The elements from head to tail. */
    ghost function Contents(): (c: seq<Element>)
      reads `spine, spine
      ensures |c| == |spine|
      ensures forall i :: 0 <= i < |c| ==>
                c[i] == Element(spine[i].url, spine[i].data, spine[i].time)
    {
      ElementsOf(spine)
    }

    /** The list is properly linked, the size counter is exact and within the budget. */
    ghost predicate Valid()
      reads this, spine
    {
      Linked() && cacheSize == TotalSize(Contents()) && cacheSize <= MAX_SIZE
    }

    constructor ()
      ensures Valid() && Contents() == [] && fresh(spine)
    {
      head, cacheSize, spine := null, 0, [];
    }

    /** Returns the bytes under `url`, stamping the element with the current time. */
    method Find(url: string, now: int) returns (site: Node?)
      requires Valid()
      modifies spine
      ensures Valid() && spine == old(spine)
      ensures var c := old(Contents()); var i := Lookup(c, url);
              if i == |c| then site == null && Contents() == c
              else site == spine[i] && Contents() == c[i := c[i].(time := now)]
    {
      site := head;
      ghost var i := 0;
      while site != null
        invariant i <= |spine| && site == if i == |spine| then null else spine[i]
        invariant forall j :: 0 <= j < i ==> spine[j].url != url
        invariant Valid() && Contents() == old(Contents())
        decreases |spine| - i
      {
        if site.url == url {
          LookupIs(Contents(), url, i);
          Stamp(site, i, now);
          return;
        }
        site := site.next;
        i := i + 1;
      }
      LookupIs(Contents(), url, i);
    }

    method Stamp(site: Node, ghost i: nat, now: int)
      requires Valid() && i < |spine| && site == spine[i]
      modifies site`time
      ensures Valid() && Contents() == old(Contents())[i := old(Contents())[i].(time := now)]
    {
      TimeKeepsSize(Contents(), i, now);
      site.time := now;
      assert Contents() == old(Contents())[i := old(Contents())[i].(time := now)];
    }

    /** Searches for the least timestamp and unlinks that element. */
    method RemoveElement()
      requires Valid()
      modifies this, spine
      ensures Valid() && Contents() == RemoveOldest(old(Contents()))
      ensures cacheSize == BytesHeld(Contents())
      ensures forall i :: 0 <= i < |spine| ==> spine[i] in old(spine)
    {
      if head == null {
        BytesHeldIs(Contents());
        return;
      }
      var q, p, temp := head, head, head;
      ghost var iq, it := 0, 0;
      while q.next != null
        invariant 0 <= it <= iq < |spine| && q == spine[iq] && temp == spine[it]
        invariant p == spine[if it == 0 then 0 else it - 1]
        invariant forall j :: 0 <= j <= iq ==> spine[it].time <= spine[j].time
        invariant forall j :: 0 <= j < it ==> spine[it].time < spine[j].time
        decreases |spine| - iq
      {
        if q.next.time < temp.time {
          temp := q.next;
          p := q;
          it := iq + 1;
        }
        q := q.next;
        iq := iq + 1;
      }
      OldestIs(Contents(), it);
      Unlink(p, temp, it);
      BytesHeldIs(Contents());
    }

    method Unlink(p: Node, temp: Node, ghost it: nat)
      requires Valid() && it < |spine| && temp == spine[it]
      requires p == spine[if it == 0 then 0 else it - 1]
      modifies this, p`next
      ensures Valid() && Contents() == DropAt(old(Contents()), it)
      ensures forall i :: 0 <= i < |spine| ==> spine[i] in old(spine)
    {
      ghost var c := Contents();
      DropAtSize(c, it);
      var size := temp.len + NODE_SIZE + |temp.url| + 1;
      assert size == SizeOf(c[it]);
      Relink(p, temp, it);
      cacheSize := cacheSize - size;
    }

    /** The pointer surgery: the predecessor, or the head, skips the node. */
    method Relink(p: Node, temp: Node, ghost it: nat)
      requires Linked() && it < |spine| && temp == spine[it]
      requires p == spine[if it == 0 then 0 else it - 1]
      modifies this`head, this`spine, p`next
      ensures Linked() && spine == old(spine[..it] + spine[it + 1..])
      ensures Contents() == DropAt(old(Contents()), it)
    {
      if temp == head {
        assert it == 0;
        head := head.next;
      } else {
        p.next := temp.next;
      }
      CutLinked(spine, it, head);
      assert ElementsOf(spine) == old(Contents());
      CutElements(spine, it);
      spine := spine[..it] + spine[it + 1..];
    }

    /** Adds an element in front, evicting until it fits; an element over the single-element
        limit is refused and changes nothing. */
    method AddElement(data: string, url: string, now: int) returns (added: bool)
      requires Valid()
      modifies this, spine
      ensures Valid()
      ensures added <==> |data| + |url| + 41 <= 10485760
      ensures Contents() == Added(old(Contents()), Element(url, data, now))
      ensures cacheSize == BytesHeld(Contents()) && cacheSize <= 209715200
      ensures forall n :: n in spine ==> n in old(spine) || fresh(n)
    {
      var elementSize := |data| + 1 + |url| + NODE_SIZE;
      if elementSize > MAX_ELEMENT_SIZE {
        BytesHeldIs(Contents());
        return false;
      }
      ghost var c := Contents();
      EvictFor(elementSize);
      ghost var kept := Contents();
      Push(data, url, now);
      AddedIs(c, Element(url, data, now), elementSize, kept);
      BytesHeldIs(Contents());
      return true;
    }

    /** Removes elements until `elementSize` more bytes fit; an empty list always has room. */
    method EvictFor(elementSize: nat)
      requires Valid() && elementSize <= MAX_ELEMENT_SIZE
      modifies this, spine
      ensures Valid() && cacheSize + elementSize <= MAX_SIZE
      ensures Contents() == MakeRoom(old(Contents()), elementSize).kept
      ensures forall i :: 0 <= i < |spine| ==> spine[i] in old(spine)
    {
      while cacheSize + elementSize > MAX_SIZE
        invariant Valid()
        invariant MakeRoom(Contents(), elementSize).kept == MakeRoom(old(Contents()), elementSize).kept
        invariant forall i :: 0 <= i < |spine| ==> spine[i] in old(spine)
        decreases |spine|
      {
        assert Contents() != [];
        RemoveElement();
      }
    }

    method Push(data: string, url: string, now: int)
      requires Valid() && cacheSize + SizeOf(Element(url, data, now)) <= MAX_SIZE
      modifies this
      ensures Valid() && Contents() == [Element(url, data, now)] + old(Contents())
      ensures cacheSize == old(cacheSize) + SizeOf(Element(url, data, now))
      ensures forall n :: n in spine ==> n in old(spine) || fresh(n)
    {
      var element := new Node(url, data, now, head);
      head := element;
      cacheSize := cacheSize + (|data| + 1 + |url| + NODE_SIZE);
      ghost var before := spine;
      PushElements(element, before);
      PushLinked(element, before);
      assert ElementsOf(before) == old(Contents());
      spine := [element] + before;
    }
  }

  lemma AddedIs(s: seq<Element>, e: Element, size: nat, kept: seq<Element>)
    requires SizeOf(e) == size <= MAX_ELEMENT_SIZE && kept == MakeRoom(s, size).kept
    ensures Added(s, e) == [e] + kept
  {
  }

  lemma LookupIs(s: seq<Element>, url: string, i: nat)
    requires i <= |s| && (i < |s| ==> s[i].url == url)
    requires forall j :: 0 <= j < i ==> s[j].url != url
    ensures Lookup(s, url) == i
  {
  }

  lemma OldestIs(s: seq<Element>, i: nat)
    requires i < |s| && forall j :: 0 <= j < |s| ==> s[i].time <= s[j].time
    requires forall j :: 0 <= j < i ==> s[i].time < s[j].time
    ensures Oldest(s) == i
  {
  }

  lemma {:induction false} TimeKeepsSize(s: seq<Element>, i: nat, now: int)
    requires i < |s|
    ensures TotalSize(s[i := s[i].(time := now)]) == TotalSize(s)
  {
    var s' := s[i := s[i].(time := now)];
    if i == 0 {
      assert s'[1..] == s[1..];
    } else {
      TimeKeepsSize(s[1..], i - 1, now);
      assert s'[1..] == s[1..][i - 1 := s[1..][i - 1].(time := now)];
    }
  }
}
