/** The byte-budget cache over whole runs: exactly when the element it evicts is the least
    recently used one, under a clock that may stand still between uses. */
module ByteBudgetRecency {
  import opened ByteBudgetCache
  import opened Sequences

  datatype Use = Find(url: string) | Insert(url: string, data: string)

  /** The list after one use at time `now`. */
  function Used(s: seq<Element>, use: Use, now: int): seq<Element> {
    match use
    case Find(u) =>
      var i := Lookup(s, u);
      if i == |s| then s else s[i := s[i].(time := now)]
    case Insert(u, d) => Added(s, Element(u, d, now))
  }

  function RunCache(uses: seq<Use>, clock: seq<int>): seq<Element>
    requires |uses| == |clock|
  {
    if uses == [] then []
    else
      var n := |uses| - 1;
      Used(RunCache(uses[..n], clock[..n]), uses[n], clock[n])
  }

  /** Over every run the cache stays within 200 MiB. */
  lemma {:induction false} RunWithinBudget(uses: seq<Use>, clock: seq<int>)
    requires |uses| == |clock|
    ensures BytesHeld(RunCache(uses, clock)) <= 209715200
  {
    if uses != [] {
      var n := |uses| - 1;
      RunWithinBudget(uses[..n], clock[..n]);
      UseWithinBudget(RunCache(uses[..n], clock[..n]), uses[n], clock[n]);
    }
  }

  lemma UseWithinBudget(s: seq<Element>, use: Use, now: int)
    requires BytesHeld(s) <= 209715200
    ensures BytesHeld(Used(s, use, now)) <= 209715200
  {
    match use {
      case Find(u) =>
        var i := Lookup(s, u);
        if i < |s| {
          TimeKeepsSize(s, i, now);
          BytesHeldIs(s);
          BytesHeldIs(s[i := s[i].(time := now)]);
        }
      case Insert(u, d) => AcceptedIff(s, Element(u, d, now));
    }
  }

  ghost predicate WasInserted(uses: seq<Use>, e: Element) {
    exists k :: 0 <= k < |uses| && uses[k] == Insert(e.url, e.data)
  }

  /** Over every run each element holds bytes that were inserted under its URL. */
  lemma {:induction false} HoldsWhatWasInserted(uses: seq<Use>, clock: seq<int>)
    requires |uses| == |clock|
    ensures forall e :: e in RunCache(uses, clock) ==> WasInserted(uses, e)
  {
    if uses != [] {
      var n := |uses| - 1;
      HoldsWhatWasInserted(uses[..n], clock[..n]);
      forall e | e in RunCache(uses, clock) ensures WasInserted(uses, e) {
        UsedHolds(RunCache(uses[..n], clock[..n]), uses[n], clock[n], e);
        InsertedBefore(uses, n);
      }
    }
  }

  lemma InsertedBefore(uses: seq<Use>, n: nat)
    requires n < |uses|
    ensures forall e :: WasInserted(uses[..n], e) ==> WasInserted(uses, e)
  {
  }

  /** After a use an element is the inserted one, or was there, with another stamp perhaps. */
  lemma UsedHolds(s: seq<Element>, use: Use, now: int, e: Element)
    requires e in Used(s, use, now)
    ensures use == Insert(e.url, e.data) || exists x :: x in s && x.url == e.url && x.data == e.data
  {
    if use.Insert? {
      var x := Element(use.url, use.data, now);
      AcceptedIff(s, x);
      if SizeOf(x) <= MAX_ELEMENT_SIZE && e != x {
        var after := Added(s, x);
        assert after == [x] + after[1..];
        SubMember(after[1..], s, e);
      }
    }
  }

  /** The same elements, their timestamps in the same order. */
  ghost predicate Alike(s: seq<Element>, s': seq<Element>) {
    && |s| == |s'|
    && (forall i :: 0 <= i < |s| ==> s[i].url == s'[i].url && s[i].data == s'[i].data)
    && (forall i, j :: 0 <= i < |s| && 0 <= j < |s| ==>
          (s[i].time < s[j].time <==> s'[i].time < s'[j].time))
  }

  /** Different timestamps, all before `now`. */
  ghost predicate Stamped(s: seq<Element>, now: int) {
    && (forall i :: 0 <= i < |s| ==> s[i].time < now)
    && (forall i, j :: 0 <= i < j < |s| ==> s[i].time != s[j].time)
  }

  lemma AlikeOldest(s: seq<Element>, s': seq<Element>)
    requires Alike(s, s') && s != []
    ensures Oldest(s') == Oldest(s)
  {
    OldestIs(s', Oldest(s));
  }

  lemma {:induction false} AlikeSize(s: seq<Element>, s': seq<Element>)
    requires Alike(s, s')
    ensures TotalSize(s') == TotalSize(s)
  {
    if s != [] {
      AlikeSize(s[1..], s'[1..]);
    }
  }

  lemma AlikeDrop(s: seq<Element>, s': seq<Element>, i: nat)
    requires Alike(s, s') && i < |s|
    ensures Alike(DropAt(s, i), DropAt(s', i))
  {
  }

  lemma {:induction false} AlikeRoom(s: seq<Element>, s': seq<Element>, need: nat)
    requires Alike(s, s') && need <= MAX_SIZE
    ensures Alike(MakeRoom(s, need).kept, MakeRoom(s', need).kept)
    decreases |s|
  {
    AlikeSize(s, s');
    if TotalSize(s) + need > MAX_SIZE {
      AlikeOldest(s, s');
      AlikeDrop(s, s', Oldest(s));
      AlikeRoom(RemoveOldest(s), RemoveOldest(s'), need);
    }
  }

  lemma StampedDrop(s: seq<Element>, now: int, i: nat)
    requires Stamped(s, now) && i < |s|
    ensures Stamped(DropAt(s, i), now)
  {
  }

  lemma {:induction false} StampedRoom(s: seq<Element>, now: int, need: nat)
    requires Stamped(s, now) && need <= MAX_SIZE
    ensures Stamped(MakeRoom(s, need).kept, now)
    decreases |s|
  {
    if TotalSize(s) + need > MAX_SIZE {
      StampedDrop(s, now, Oldest(s));
      StampedRoom(RemoveOldest(s), now, need);
    }
  }

  /** A stamp newer than all others, on the same element of both lists. */
  lemma AlikeTouch(s: seq<Element>, s': seq<Element>, i: nat, now: int, now': int)
    requires Alike(s, s') && Stamped(s, now) && Stamped(s', now') && i < |s|
    ensures Alike(s[i := s[i].(time := now)], s'[i := s'[i].(time := now')])
  {
  }

  lemma AlikeFront(s: seq<Element>, s': seq<Element>, e: Element, e': Element)
    requires Alike(s, s') && Stamped(s, e.time) && Stamped(s', e'.time)
    requires e.url == e'.url && e.data == e'.data
    ensures Alike([e] + s, [e'] + s')
  {
  }

  lemma AlikeAdded(s: seq<Element>, s': seq<Element>, e: Element, e': Element)
    requires Alike(s, s') && Stamped(s, e.time) && Stamped(s', e'.time)
    requires e.url == e'.url && e.data == e'.data
    ensures Alike(Added(s, e), Added(s', e'))
  {
    if SizeOf(e) <= MAX_ELEMENT_SIZE {
      var size := SizeOf(e);
      var kept, kept' := MakeRoom(s, size).kept, MakeRoom(s', size).kept;
      AlikeRoom(s, s', size);
      StampedRoom(s, e.time, size);
      StampedRoom(s', e'.time, size);
      AlikeFront(kept, kept', e, e');
      AddedIs(s, e, size, kept);
      AddedIs(s', e', size, kept');
    }
  }

  lemma AlikeLookup(s: seq<Element>, s': seq<Element>, url: string)
    requires Alike(s, s')
    ensures Lookup(s', url) == Lookup(s, url)
  {
    LookupIs(s', url, Lookup(s, url));
  }

  lemma AlikeUsed(s: seq<Element>, s': seq<Element>, use: Use, now: int, now': int)
    requires Alike(s, s') && Stamped(s, now) && Stamped(s', now')
    ensures Alike(Used(s, use, now), Used(s', use, now'))
  {
    match use {
      case Find(u) =>
        AlikeLookup(s, s', u);
        if Lookup(s, u) < |s| {
          AlikeTouch(s, s', Lookup(s, u), now, now');
        }
      case Insert(u, d) => AlikeAdded(s, s', Element(u, d, now), Element(u, d, now'));
    }
  }

  lemma StampedAdded(s: seq<Element>, e: Element, later: int)
    requires Stamped(s, e.time) && e.time < later
    ensures Stamped(Added(s, e), later)
  {
    if SizeOf(e) <= MAX_ELEMENT_SIZE {
      var kept := MakeRoom(s, SizeOf(e)).kept;
      StampedRoom(s, e.time, SizeOf(e));
      AddedIs(s, e, SizeOf(e), kept);
      StampedFront(kept, e, later);
    }
  }

  lemma StampedFront(s: seq<Element>, e: Element, later: int)
    requires Stamped(s, e.time) && e.time < later
    ensures Stamped([e] + s, later)
  {
  }

  lemma StampedTouch(s: seq<Element>, i: nat, now: int, later: int)
    requires Stamped(s, now) && now < later && i < |s|
    ensures Stamped(s[i := s[i].(time := now)], later)
  {
  }

  lemma StampedUsed(s: seq<Element>, use: Use, now: int, later: int)
    requires Stamped(s, now) && now < later
    ensures Stamped(Used(s, use, now), later)
  {
    match use {
      case Find(u) =>
        if Lookup(s, u) < |s| {
          StampedTouch(s, Lookup(s, u), now, later);
        }
      case Insert(u, d) => StampedAdded(s, Element(u, d, now), later);
    }
  }

  ghost predicate Increasing(clock: seq<int>) {
    forall i, j :: 0 <= i < j < |clock| ==> clock[i] < clock[j]
  }

  lemma {:induction false} RunStamped(uses: seq<Use>, clock: seq<int>, now: int)
    requires |uses| == |clock| && Increasing(clock + [now])
    ensures Stamped(RunCache(uses, clock), now)
  {
    if uses != [] {
      var n := |uses| - 1;
      assert forall i :: 0 <= i <= n ==> (clock + [now])[i] == clock[i];
      assert clock[n] == (clock + [now])[n] < (clock + [now])[n + 1] == now;
      assert clock[..n] + [clock[n]] == clock;
      RunStamped(uses[..n], clock[..n], clock[n]);
      StampedUsed(RunCache(uses[..n], clock[..n]), uses[n], clock[n], now);
    }
  }

  /** Only the order of the uses matters: under any two advancing clocks the cache holds the
      same elements in the same places. */
  lemma {:induction false} RunsAlike(uses: seq<Use>, clock: seq<int>, clock': seq<int>)
    requires |uses| == |clock| == |clock'| && Increasing(clock) && Increasing(clock')
    ensures Alike(RunCache(uses, clock), RunCache(uses, clock'))
  {
    if uses != [] {
      var n := |uses| - 1;
      RunsAlike(uses[..n], clock[..n], clock'[..n]);
      LastApart(clock);
      LastApart(clock');
      RunStamped(uses[..n], clock[..n], clock[n]);
      RunStamped(uses[..n], clock'[..n], clock'[n]);
      AlikeUsed(RunCache(uses[..n], clock[..n]), RunCache(uses[..n], clock'[..n]),
                uses[n], clock[n], clock'[n]);
    }
  }

  /** The clock that counts the uses: an element's stamp is the number of its last use. */
  function Steps(n: nat): (clock: seq<int>)
    ensures |clock| == n && Increasing(clock)
  {
    seq(n, i => i)
  }

  /** Over every run under an advancing clock the cache holds what it would hold if every
      element carried the number of its last use, and the element evicted next is the one
      whose last use is longest ago. */
  lemma EvictsLeastRecentlyUsed(uses: seq<Use>, clock: seq<int>)
    requires |uses| == |clock| && Increasing(clock) && RunCache(uses, clock) != []
    ensures var s, numbered := RunCache(uses, clock), RunCache(uses, Steps(|uses|));
      && Alike(s, numbered)
      && forall j :: 0 <= j < |s| && j != Oldest(s) ==> numbered[Oldest(s)].time < numbered[j].time
  {
    var n := |uses|;
    RunsAlike(uses, clock, Steps(n));
    AlikeOldest(RunCache(uses, clock), RunCache(uses, Steps(n)));
    RunStamped(uses, Steps(n), n);
  }

  // ---------------------------------------------------------------- a clock that may stand still

  ghost predicate NeverBack(clock: seq<int>) {
    forall i, j :: 0 <= i < j < |clock| ==> clock[i] <= clock[j]
  }

  /** The numbers of the elements that stay when room is made. */
  function KeptNumbers(s: seq<Element>, last: seq<nat>, need: nat): (r: seq<nat>)
    requires |last| == |s| && need <= MAX_SIZE
    ensures |r| == |MakeRoom(s, need).kept|
    decreases |s|
  {
    if TotalSize(s) + need <= MAX_SIZE then last
    else KeptNumbers(RemoveOldest(s), DropAt(last, Oldest(s)), need)
  }

  /** Use number `n` numbers the element it stores or finds. */
  function UsedNumbers(s: seq<Element>, last: seq<nat>, use: Use, now: int, n: nat): (r: seq<nat>)
    requires |last| == |s|
    ensures |r| == |Used(s, use, now)|
  {
    match use
    case Find(u) =>
      var i := Lookup(s, u);
      if i == |s| then last else last[i := n]
    case Insert(u, d) =>
      var size := SizeOf(Element(u, d, now));
      if size > MAX_ELEMENT_SIZE then last else [n] + KeptNumbers(s, last, size)
  }

  /** For each element in the cache, the number of the use that last stored or found it. */
  function LastUses(uses: seq<Use>, clock: seq<int>): (last: seq<nat>)
    requires |uses| == |clock|
    ensures |last| == |RunCache(uses, clock)|
  {
    if uses == [] then []
    else
      var n := |uses| - 1;
      UsedNumbers(RunCache(uses[..n], clock[..n]), LastUses(uses[..n], clock[..n]),
                  uses[n], clock[n], n)
  }

  /** Every element has a number of its own, of a use of its URL at its timestamp. */
  ghost predicate Records(s: seq<Element>, last: seq<nat>, uses: seq<Use>, clock: seq<int>)
    requires |uses| == |clock|
  {
    && |last| == |s| && Distinct(last)
    && forall i :: 0 <= i < |s| ==>
         last[i] < |uses| && uses[last[i]].url == s[i].url && clock[last[i]] == s[i].time
  }

  lemma RecordsDrop(s: seq<Element>, last: seq<nat>, uses: seq<Use>, clock: seq<int>, i: nat)
    requires |uses| == |clock| && Records(s, last, uses, clock) && i < |s|
    ensures Records(DropAt(s, i), DropAt(last, i), uses, clock)
  {
  }

  lemma {:induction false} RecordsKept(s: seq<Element>, last: seq<nat>, uses: seq<Use>,
                                       clock: seq<int>, need: nat)
    requires |uses| == |clock| && Records(s, last, uses, clock) && need <= MAX_SIZE
    ensures Records(MakeRoom(s, need).kept, KeptNumbers(s, last, need), uses, clock)
    decreases |s|
  {
    if TotalSize(s) + need > MAX_SIZE {
      RecordsDrop(s, last, uses, clock, Oldest(s));
      RecordsKept(RemoveOldest(s), DropAt(last, Oldest(s)), uses, clock, need);
    }
  }

  lemma RecordsTouch(s: seq<Element>, last: seq<nat>, uses: seq<Use>, clock: seq<int>,
                     i: nat, use: Use, now: int)
    requires |uses| == |clock| && Records(s, last, uses, clock)
    requires i < |s| && use.url == s[i].url
    ensures Records(s[i := s[i].(time := now)], last[i := |uses|], uses + [use], clock + [now])
  {
  }

  lemma RecordsFront(s: seq<Element>, last: seq<nat>, uses: seq<Use>, clock: seq<int>,
                     e: Element, use: Use)
    requires |uses| == |clock| && Records(s, last, uses, clock) && use.url == e.url
    ensures Records([e] + s, [|uses|] + last, uses + [use], clock + [e.time])
  {
  }

  lemma RecordsLater(s: seq<Element>, last: seq<nat>, uses: seq<Use>, clock: seq<int>,
                     use: Use, now: int)
    requires |uses| == |clock| && Records(s, last, uses, clock)
    ensures Records(s, last, uses + [use], clock + [now])
  {
  }

  lemma RecordsUsed(s: seq<Element>, last: seq<nat>, uses: seq<Use>, clock: seq<int>,
                    use: Use, now: int)
    requires |uses| == |clock| && Records(s, last, uses, clock)
    ensures Records(Used(s, use, now), UsedNumbers(s, last, use, now, |uses|),
                    uses + [use], clock + [now])
  {
    match use {
      case Find(u) =>
        if Lookup(s, u) < |s| {
          RecordsTouch(s, last, uses, clock, Lookup(s, u), use, now);
        } else {
          RecordsLater(s, last, uses, clock, use, now);
        }
      case Insert(u, d) =>
        var e := Element(u, d, now);
        var size := SizeOf(e);
        if size <= MAX_ELEMENT_SIZE {
          RecordsKept(s, last, uses, clock, size);
          RecordsFront(MakeRoom(s, size).kept, KeptNumbers(s, last, size), uses, clock, e, use);
        } else {
          RecordsLater(s, last, uses, clock, use, now);
        }
    }
  }

  /** Over every run the numbers are those of uses of the elements' own URLs, at the times
      of their stamps, a different one for each element. */
  lemma {:induction false} LastUsesAre(uses: seq<Use>, clock: seq<int>)
    requires |uses| == |clock|
    ensures Records(RunCache(uses, clock), LastUses(uses, clock), uses, clock)
  {
    if uses != [] {
      var n := |uses| - 1;
      var before, ticks := uses[..n], clock[..n];
      LastUsesAre(before, ticks);
      RecordsUsed(RunCache(before, ticks), LastUses(before, ticks), before, ticks, uses[n], clock[n]);
      LastApart(uses);
      LastApart(clock);
    }
  }

  /** The element at `v` has not been used for the longest. */
  ghost predicate LeastRecent(last: seq<nat>, v: nat) {
    v < |last| && forall j :: 0 <= j < |last| ==> last[v] <= last[j]
  }

  lemma LeastRecentIsOldest(s: seq<Element>, last: seq<nat>, uses: seq<Use>, clock: seq<int>,
                            v: nat)
    requires |uses| == |clock| && Records(s, last, uses, clock) && NeverBack(clock)
    requires LeastRecent(last, v)
    ensures forall j :: 0 <= j < |s| ==> s[v].time <= s[j].time
  {
    forall j | 0 <= j < |s| ensures s[v].time <= s[j].time {
      assert last[v] <= last[j] < |clock|;
    }
  }

  /** Over every run under a clock that never goes back: what is evicted next has the same
      timestamp as the least recently used element and is the first such element in the
      list. So it is the least recently used one exactly when no element in front of that
      one was used within the same tick. */
  lemma EvictsLeastRecentlyUsedIff(uses: seq<Use>, clock: seq<int>, v: nat)
    requires |uses| == |clock| && NeverBack(clock) && LeastRecent(LastUses(uses, clock), v)
    ensures var s := RunCache(uses, clock);
      && Oldest(s) <= v && s[Oldest(s)].time == s[v].time
      && (Oldest(s) == v <==> forall j :: 0 <= j < v ==> s[j].time > s[v].time)
  {
    var s := RunCache(uses, clock);
    LastUsesAre(uses, clock);
    LeastRecentIsOldest(s, LastUses(uses, clock), uses, clock, v);
    if forall j :: 0 <= j < v ==> s[j].time > s[v].time {
      OldestIs(s, v);
    }
  }

  // ---------------------------------------------------------------- runs that evict another

  function UseSize(use: Use): nat {
    match use
    case Find(_) => 0
    case Insert(u, d) => SizeOf(Element(u, d, 0))
  }

  predicate SmallInserts(uses: seq<Use>) {
    forall i :: 0 <= i < |uses| ==> uses[i].Insert? && UseSize(uses[i]) <= MAX_ELEMENT_SIZE
  }

  /** Inserts of elements of the greatest size that is accepted. */
  predicate FullInserts(uses: seq<Use>) {
    forall i :: 0 <= i < |uses| ==> uses[i].Insert? && UseSize(uses[i]) == MAX_ELEMENT_SIZE
  }

  function Needed(uses: seq<Use>): nat {
    if uses == [] then 0 else Needed(uses[..|uses| - 1]) + UseSize(uses[|uses| - 1])
  }

  /** Inserts that fit together are all there, newest first. */
  ghost predicate AllThere(s: seq<Element>, last: seq<nat>, uses: seq<Use>, clock: seq<int>) {
    && |s| == |last| == |uses| == |clock|
    && forall i :: 0 <= i < |s| ==>
         && last[i] == |s| - 1 - i && s[i].time == clock[|s| - 1 - i]
         && SizeOf(s[i]) == UseSize(uses[|s| - 1 - i])
  }

  lemma AllThereNext(s: seq<Element>, last: seq<nat>, uses: seq<Use>, clock: seq<int>, e: Element,
                     use: Use)
    requires AllThere(s, last, uses, clock) && SizeOf(e) == UseSize(use)
    ensures AllThere([e] + s, [|s|] + last, uses + [use], clock + [e.time])
  {
  }

  lemma InsertStays(s: seq<Element>, last: seq<nat>, before: seq<Use>, ticks: seq<int>,
                    use: Use, now: int, uses: seq<Use>, clock: seq<int>)
    requires uses == before + [use] && clock == ticks + [now]
    requires AllThere(s, last, before, ticks) && use.Insert? && UseSize(use) <= MAX_ELEMENT_SIZE
    requires TotalSize(s) + UseSize(use) <= MAX_SIZE
    ensures TotalSize(Used(s, use, now)) == TotalSize(s) + UseSize(use)
    ensures AllThere(Used(s, use, now), UsedNumbers(s, last, use, now, |s|), uses, clock)
  {
    var e := Element(use.url, use.data, now);
    assert SizeOf(e) == UseSize(use);
    assert MakeRoom(s, SizeOf(e)) == Eviction(s, []);
    AllThereNext(s, last, before, ticks, e, use);
  }

  /** One more insert in a run of inserts that fit together. */
  lemma LastInsertStays(uses: seq<Use>, clock: seq<int>, s: seq<Element>, last: seq<nat>)
    requires |uses| == |clock| > 0 && Needed(uses) <= MAX_SIZE && SmallInserts(uses)
    requires var n := |uses| - 1;
      && s == RunCache(uses[..n], clock[..n]) && last == LastUses(uses[..n], clock[..n])
      && TotalSize(s) == Needed(uses[..n]) && AllThere(s, last, uses[..n], clock[..n])
    ensures TotalSize(RunCache(uses, clock)) == Needed(uses)
    ensures AllThere(RunCache(uses, clock), LastUses(uses, clock), uses, clock)
  {
    var n := |uses| - 1;
    LastApart(uses);
    LastApart(clock);
    InsertStays(s, last, uses[..n], clock[..n], uses[n], clock[n], uses, clock);
  }

  lemma {:induction false} InsertsStay(uses: seq<Use>, clock: seq<int>)
    requires |uses| == |clock| && Needed(uses) <= MAX_SIZE && SmallInserts(uses)
    ensures TotalSize(RunCache(uses, clock)) == Needed(uses)
    ensures AllThere(RunCache(uses, clock), LastUses(uses, clock), uses, clock)
  {
    if uses != [] {
      var before, ticks := uses[..|uses| - 1], clock[..|uses| - 1];
      InsertsStay(before, ticks);
      LastInsertStays(uses, clock, RunCache(before, ticks), LastUses(before, ticks));
    }
  }

  /** Inserts that fit together, the first two within one tick: whatever evicts next throws
      out another element than the least recently used one, which is the last. */
  lemma TieEvictsAnother(uses: seq<Use>, clock: seq<int>)
    requires |uses| == |clock| >= 2 && Needed(uses) <= MAX_SIZE
    requires SmallInserts(uses)
    requires NeverBack(clock) && clock[0] == clock[1]
    ensures var s := RunCache(uses, clock);
      && |s| == |uses| && LeastRecent(LastUses(uses, clock), |s| - 1)
      && Oldest(s) < |s| - 1
  {
    InsertsStay(uses, clock);
    var s := RunCache(uses, clock);
    EvictsLeastRecentlyUsedIff(uses, clock, |s| - 1);
    assert s[|s| - 2].time == s[|s| - 1].time;
  }

  lemma {:induction false} FullSize(uses: seq<Use>)
    requires FullInserts(uses)
    ensures Needed(uses) == |uses| * MAX_ELEMENT_SIZE
  {
    if uses != [] {
      FullSize(uses[..|uses| - 1]);
    }
  }

  /** It happens: after twenty inserts of the greatest size, the first two within one tick,
      adding any further element evicts exactly one element, and the least recently used one
      stays. */
  lemma FullCacheEvictsAnother(uses: seq<Use>, clock: seq<int>, e: Element)
    requires |uses| == |clock| == 20 && NeverBack(clock) && clock[0] == clock[1]
    requires FullInserts(uses) && SizeOf(e) <= MAX_ELEMENT_SIZE
    ensures var s := RunCache(uses, clock);
      && |s| == 20 && LeastRecent(LastUses(uses, clock), 19) && Oldest(s) < 19
      && Evicts(s, e) && Added(s, e) == [e] + DropAt(s, Oldest(s))
  {
    FullNeeds(uses);
    TieEvictsAnother(uses, clock);
    FullCacheIsFull(uses, clock, RunCache(uses, clock));
    OneGoes(RunCache(uses, clock), e);
  }

  lemma FullCacheIsFull(uses: seq<Use>, clock: seq<int>, s: seq<Element>)
    requires |uses| == |clock| == 20 && FullInserts(uses) && s == RunCache(uses, clock)
    ensures TotalSize(s) == MAX_SIZE && |s| == 20
    ensures forall i :: 0 <= i < |s| ==> SizeOf(s[i]) == MAX_ELEMENT_SIZE
  {
    FullNeeds(uses);
    InsertsStay(uses, clock);
    forall i | 0 <= i < |s| ensures SizeOf(s[i]) == MAX_ELEMENT_SIZE {
      AllLarge(s, LastUses(uses, clock), uses, clock, i);
    }
  }

  lemma FullNeeds(uses: seq<Use>)
    requires FullInserts(uses) && |uses| == 20
    ensures Needed(uses) == MAX_SIZE && SmallInserts(uses)
  {
    FullSize(uses);
  }

  lemma AllLarge(s: seq<Element>, last: seq<nat>, uses: seq<Use>, clock: seq<int>, i: nat)
    requires AllThere(s, last, uses, clock) && FullInserts(uses) && i < |s|
    ensures SizeOf(s[i]) == MAX_ELEMENT_SIZE
  {
  }

  lemma OneGoes(s: seq<Element>, e: Element)
    requires TotalSize(s) == MAX_SIZE && s != [] && SizeOf(e) <= SizeOf(s[Oldest(s)])
    requires SizeOf(e) <= MAX_ELEMENT_SIZE
    ensures Evicts(s, e) && Added(s, e) == [e] + DropAt(s, Oldest(s))
  {
    DropAtSize(s, Oldest(s));
    assert MakeRoom(RemoveOldest(s), SizeOf(e)).kept == RemoveOldest(s);
  }
}
