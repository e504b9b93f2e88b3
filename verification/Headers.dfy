/** The header table of a parsed request: an array of slots that doubles when full and
    keeps removed headers as dead slots, standing for an ordered list of headers with
    distinct keys; and the printer of that list. */
module Headers {
  import opened CStrings
  import opened Options
  import opened Sequences

  datatype Header = Header(key: string, value: string)

  datatype Slot = Dead | Live(header: Header)

  const DEFAULT_SLOTS := 8

  // ---------------------------------------------------------------- specification

  ghost predicate DistinctKeys(h: seq<Header>) {
    forall i, j :: 0 <= i < j < |h| ==> h[i].key != h[j].key
  }

  ghost predicate NulFree(h: seq<Header>) {
    forall x :: x in h ==> NUL !in x.key && NUL !in x.value
  }

  /** Position of the first header with the given key. */
  function KeyAt(h: seq<Header>, key: string): (i: nat)
    ensures i <= |h| && (i < |h| ==> h[i].key == key)
    ensures forall j :: 0 <= j < i ==> h[j].key != key
  {
    if h == [] then 0
    else if h[0].key == key then 0
    else
      var i := KeyAt(h[1..], key);
      assert forall j :: 1 <= j < 1 + i ==> h[j] == h[1..][j - 1];
      1 + i
  }

  function DeleteKey(h: seq<Header>, key: string): seq<Header> {
    var i := KeyAt(h, key);
    if i == |h| then h else h[..i] + h[i + 1..]
  }

  /** Set: delete, then append. */
  function SetHeader(h: seq<Header>, x: Header): seq<Header> {
    DeleteKey(h, x.key) + [x]
  }

  function Get(h: seq<Header>, key: string): Option<string> {
    var i := KeyAt(h, key);
    if i == |h| then None else Some(h[i].value)
  }

  lemma KeyAtIs(h: seq<Header>, key: string, i: nat)
    requires i <= |h| && (i < |h| ==> h[i].key == key)
    requires forall j :: 0 <= j < i ==> h[j].key != key
    ensures KeyAt(h, key) == i
  {
  }

  /** Deleting a key removes it, keeps every other header, and keeps the order. */
  lemma DeleteKeyMeans(h: seq<Header>, key: string)
    requires DistinctKeys(h)
    ensures DistinctKeys(DeleteKey(h, key)) && Sub(DeleteKey(h, key), h)
    ensures forall x :: x in DeleteKey(h, key) <==> x in h && x.key != key
  {
    var i := KeyAt(h, key);
    var d := DeleteKey(h, key);
    if i < |h| {
      DropAtSub(h, i);
      assert forall j :: 0 <= j < |d| ==> d[j] == if j < i then h[j] else h[j + 1];
      forall x | x in h && x.key != key ensures x in d {
        var j :| 0 <= j < |h| && h[j] == x;
        assert x == d[if j < i then j else j - 1];
      }
    } else {
      SubRefl(h);
    }
  }

  /** After a set, get returns the value set under that key and what it returned before
      under every other one, and keys stay distinct. */
  lemma SetMeans(h: seq<Header>, x: Header, key: string)
    requires DistinctKeys(h)
    ensures DistinctKeys(SetHeader(h, x))
    ensures Get(SetHeader(h, x), key) == if key == x.key then Some(x.value) else Get(h, key)
  {
    DeleteKeyMeans(h, x.key);
    var d, s := DeleteKey(h, x.key), SetHeader(h, x);
    assert forall j :: 0 <= j < |d| ==> d[j] in d;
    if key == x.key {
      KeyAtIs(s, key, |d|);
    } else {
      GetIff(h, key);
      GetIff(s, key);
      GetAgree(h, s, key);
    }
  }

  /** Get is membership when keys are distinct. */
  lemma GetIff(h: seq<Header>, key: string)
    requires DistinctKeys(h)
    ensures Get(h, key) == None <==> forall x :: x in h ==> x.key != key
    ensures Get(h, key).Some? ==> Header(key, Get(h, key).value) in h
  {
    var i := KeyAt(h, key);
    if i < |h| {
      assert h[i] in h && h[i] == Header(key, h[i].value);
    }
  }

  lemma GetAgree(h: seq<Header>, g: seq<Header>, key: string)
    requires DistinctKeys(h) && DistinctKeys(g)
    requires forall x: Header :: x.key == key ==> (x in h <==> x in g)
    ensures Get(h, key) == Get(g, key)
  {
    GetIff(h, key);
    GetIff(g, key);
    if Get(h, key).Some? {
      var x := Header(key, Get(h, key).value);
      var j := KeyOf(g, x);
    }
  }

  lemma KeyOf(g: seq<Header>, x: Header) returns (j: nat)
    requires DistinctKeys(g) && x in g
    ensures j < |g| && g[j] == x && KeyAt(g, x.key) == j
  {
    j :| 0 <= j < |g| && g[j] == x;
    KeyAtIs(g, x.key, j);
  }

  // ---------------------------------------------------------------- leaving keys out

  /** The headers whose key is not in `keys`, in order. */
  function Dropping(h: seq<Header>, keys: set<string>): seq<Header> {
    if h == [] then []
    else
      var n := |h| - 1;
      Dropping(h[..n], keys) + if h[n].key in keys then [] else [h[n]]
  }

  lemma DroppingAppend(h: seq<Header>, x: Header, keys: set<string>)
    ensures Dropping(h + [x], keys) == Dropping(h, keys) + if x.key in keys then [] else [x]
  {
    assert (h + [x])[..|h|] == h;
  }

  lemma {:induction false} DroppingConcat(a: seq<Header>, b: seq<Header>, keys: set<string>)
    ensures Dropping(a + b, keys) == Dropping(a, keys) + Dropping(b, keys)
  {
    if b == [] {
      assert a + b == a;
    } else {
      var n := |b| - 1;
      var front, x := b[..n], b[n];
      DroppingConcat(a, front, keys);
      assert b == front + [x] && a + b == (a + front) + [x];
      DroppingAppend(front, x, keys);
      DroppingAppend(a + front, x, keys);
    }
  }

  lemma DroppingOne(x: Header, keys: set<string>)
    ensures Dropping([x], keys) == if x.key in keys then [] else [x]
  {
    assert [x][..0] == [];
  }

  lemma {:induction false} DroppingHas(h: seq<Header>, keys: set<string>, x: Header)
    ensures x in Dropping(h, keys) <==> x in h && x.key !in keys
  {
    if h != [] {
      var n := |h| - 1;
      DroppingHas(h[..n], keys, x);
      assert h == h[..n] + [h[n]];
    }
  }

  ghost predicate Outside(h: seq<Header>, keys: set<string>) {
    forall i :: 0 <= i < |h| ==> h[i].key !in keys
  }

  ghost predicate Inside(h: seq<Header>, keys: set<string>) {
    forall i :: 0 <= i < |h| ==> h[i].key in keys
  }

  /** Nothing to leave out. */
  lemma {:induction false} DroppingNone(h: seq<Header>, keys: set<string>)
    requires Outside(h, keys)
    ensures Dropping(h, keys) == h
  {
    if h != [] {
      var n := |h| - 1;
      DroppingNone(h[..n], keys);
      assert h == h[..n] + [h[n]];
    }
  }

  /** Nothing left. */
  lemma {:induction false} DroppingAll(h: seq<Header>, keys: set<string>)
    requires Inside(h, keys)
    ensures Dropping(h, keys) == []
  {
    if h != [] {
      DroppingAll(h[..|h| - 1], keys);
    }
  }

  lemma {:induction false} DroppingOutside(h: seq<Header>, keys: set<string>)
    ensures Outside(Dropping(h, keys), keys)
  {
    if h != [] {
      DroppingOutside(h[..|h| - 1], keys);
    }
  }

  lemma {:induction false} DroppingTwice(h: seq<Header>, a: set<string>, b: set<string>)
    ensures Dropping(Dropping(h, a), b) == Dropping(h, a + b)
  {
    if h != [] {
      var n := |h| - 1;
      DroppingTwice(h[..n], a, b);
      if h[n].key in a {
        assert Dropping(h, a) == Dropping(h[..n], a);
        assert Dropping(h, a + b) == Dropping(h[..n], a + b);
      } else {
        DroppingConcat(Dropping(h[..n], a), [h[n]], b);
        DroppingOne(h[n], b);
      }
    }
  }

  /** With distinct keys, deleting a key leaves out exactly its header. */
  lemma DeleteIsDropping(h: seq<Header>, key: string)
    requires DistinctKeys(h)
    ensures DeleteKey(h, key) == Dropping(h, {key})
  {
    var i := KeyAt(h, key);
    if i < |h| {
      assert h == h[..i] + ([h[i]] + h[i + 1..]);
      DroppingAround(h[..i], h[i], h[i + 1..], {key});
    } else {
      DroppingNone(h, {key});
    }
  }

  lemma DroppingAround(a: seq<Header>, x: Header, b: seq<Header>, keys: set<string>)
    requires x.key in keys && Outside(a, keys) && Outside(b, keys)
    ensures Dropping(a + ([x] + b), keys) == a + b
  {
    DroppingNone(a, keys);
    DroppingNone(b, keys);
    DroppingOne(x, keys);
    DroppingConcat([x], b, keys);
    assert Dropping([x] + b, keys) == b;
    DroppingConcat(a, [x] + b, keys);
  }

  lemma SetIsDropping(h: seq<Header>, x: Header)
    requires DistinctKeys(h)
    ensures SetHeader(h, x) == Dropping(h, {x.key}) + [x]
  {
    DeleteIsDropping(h, x.key);
  }

  lemma SetThenDrop(h: seq<Header>, x: Header, keys: set<string>)
    requires DistinctKeys(h) && x.key !in keys
    ensures Dropping(SetHeader(h, x), keys) == Dropping(h, {x.key} + keys) + [x]
  {
    SetIsDropping(h, x);
    DroppingConcat(Dropping(h, {x.key}), [x], keys);
    DroppingOne(x, keys);
    DroppingTwice(h, {x.key}, keys);
  }

  /** Two sets under different keys: everything else in order, then the two headers. */
  lemma TwoSets(h: seq<Header>, a: Header, b: Header)
    requires DistinctKeys(h) && a.key != b.key
    ensures SetHeader(SetHeader(h, a), b) == Dropping(h, {a.key, b.key}) + [a] + [b]
    ensures DistinctKeys(SetHeader(SetHeader(h, a), b))
  {
    var s := SetHeader(h, a);
    SetMeans(h, a, a.key);
    SetMeans(s, b, b.key);
    SetIsDropping(s, b);
    SetThenDrop(h, a, {b.key});
    assert {a.key} + {b.key} == {a.key, b.key};
  }

  lemma {:induction false} DroppingDistinct(h: seq<Header>, keys: set<string>)
    requires DistinctKeys(h)
    ensures DistinctKeys(Dropping(h, keys)) && Sub(Dropping(h, keys), h)
  {
    if h != [] {
      var n := |h| - 1;
      var d, last := Dropping(h[..n], keys), h[n];
      DroppingDistinct(h[..n], keys);
      SubAppend(d, h[..n], last);
      assert h == h[..n] + [last];
      assert Dropping(h, keys) == if last.key in keys then d else d + [last];
      forall j | 0 <= j < |d| ensures d[j].key != last.key {
        DroppingHas(h[..n], keys, d[j]);
      }
    }
  }

  // ---------------------------------------------------------------- printing

  function HeaderLine(x: Header): string {
    x.key + ": " + x.value + CRLF
  }

  function Lines(h: seq<Header>): string {
    if h == [] then "" else Lines(h[..|h| - 1]) + HeaderLine(h[|h| - 1])
  }

  /** All header lines and the empty line that ends them. */
  function HeadersText(h: seq<Header>): string {
    Lines(h) + CRLF
  }

  /** Where the line of header number `i` starts: the headers before it take the length of
      key and value and four characters each. */
  function FieldStart(h: seq<Header>, i: nat): nat
    requires i <= |h|
  {
    if i == 0 then 0 else FieldStart(h, i - 1) + |h[i - 1].key| + |h[i - 1].value| + 4
  }

  /** At `p` stand the key, a colon, a space, the value, and a carriage return and a line
      feed. */
  ghost predicate FieldAt(t: string, p: nat, key: string, value: string) {
    var v := p + |key| + 2;
    var e := v + |value|;
    && e + 2 <= |t|
    && t[p..p + |key|] == key && t[p + |key|] == ':' && t[p + |key| + 1] == ' '
    && t[v..e] == value && t[e] == '\r' && t[e + 1] == '\n'
  }

  lemma FieldFurther(t: string, p: nat, key: string, value: string, more: string)
    requires FieldAt(t, p, key, value)
    ensures FieldAt(t + more, p, key, value)
  {
    var v := p + |key| + 2;
    assert (t + more)[p..p + |key|] == t[p..p + |key|];
    assert (t + more)[v..v + |value|] == t[v..v + |value|];
  }

  lemma FieldBehind(t: string, x: Header)
    ensures FieldAt(t + HeaderLine(x), |t|, x.key, x.value)
    ensures |HeaderLine(x)| == |x.key| + |x.value| + 4
  {
    var u, v := t + HeaderLine(x), |t| + |x.key| + 2;
    assert HeaderLine(x) == x.key + ([':', ' '] + (x.value + ['\r', '\n']));
    assert u[|t|..|t| + |x.key|] == x.key;
    assert u[v..v + |x.value|] == x.value;
  }

  /** The lines of all headers, one right behind the other. */
  ghost predicate FieldsAt(t: string, h: seq<Header>) {
    forall i :: 0 <= i < |h| ==> FieldAt(t, FieldStart(h, i), h[i].key, h[i].value)
  }

  lemma FieldsFurther(t: string, h: seq<Header>, more: string)
    requires FieldsAt(t, h)
    ensures FieldsAt(t + more, h)
  {
    forall i | 0 <= i < |h| ensures FieldAt(t + more, FieldStart(h, i), h[i].key, h[i].value) {
      FieldFurther(t, FieldStart(h, i), h[i].key, h[i].value, more);
    }
  }

  lemma {:induction false} SameStart(h: seq<Header>, x: Header, i: nat)
    requires i <= |h|
    ensures FieldStart(h + [x], i) == FieldStart(h, i)
  {
    if i > 0 {
      SameStart(h, x, i - 1);
    }
  }

  lemma OneMoreField(t: string, h: seq<Header>, x: Header)
    requires FieldsAt(t, h) && |t| == FieldStart(h, |h|)
    ensures FieldsAt(t + HeaderLine(x), h + [x])
    ensures |t + HeaderLine(x)| == FieldStart(h + [x], |h| + 1)
  {
    FieldsFurther(t, h, HeaderLine(x));
    FieldBehind(t, x);
    StartsAgree(h, x, h + [x]);
    FieldsJoin(t + HeaderLine(x), h, x, h + [x]);
  }

  lemma StartsAgree(h: seq<Header>, x: Header, g: seq<Header>)
    requires g == h + [x]
    ensures forall i :: 0 <= i <= |h| ==> FieldStart(g, i) == FieldStart(h, i)
    ensures FieldStart(g, |g|) == FieldStart(h, |h|) + |x.key| + |x.value| + 4
  {
    forall i | 0 <= i <= |h| ensures FieldStart(g, i) == FieldStart(h, i) {
      SameStart(h, x, i);
    }
  }

  lemma FieldsJoin(u: string, h: seq<Header>, x: Header, g: seq<Header>)
    requires FieldsAt(u, h) && FieldAt(u, FieldStart(h, |h|), x.key, x.value)
    requires g == h + [x] && forall i :: 0 <= i <= |h| ==> FieldStart(g, i) == FieldStart(h, i)
    ensures FieldsAt(u, g)
  {
    forall i | 0 <= i < |g| ensures FieldAt(u, FieldStart(g, i), g[i].key, g[i].value) {
      if i < |h| {
        assert FieldAt(u, FieldStart(h, i), h[i].key, h[i].value);
      }
    }
  }

  lemma {:induction false} LinesAre(h: seq<Header>)
    ensures |Lines(h)| == FieldStart(h, |h|) && FieldsAt(Lines(h), h)
  {
    if h != [] {
      var n := |h| - 1;
      LinesAre(h[..n]);
      OneMoreField(Lines(h[..n]), h[..n], h[n]);
      LastApart(h);
    }
  }

  /** The printed headers, character by character: the line of each header stands right
      behind the lines before it, and a carriage return and a line feed end the text. */
  lemma HeadersTextIs(h: seq<Header>)
    ensures var t, n := HeadersText(h), FieldStart(h, |h|);
      |t| == n + 2 && t[n] == '\r' && t[n + 1] == '\n'
    ensures forall i :: 0 <= i < |h| ==>
              FieldAt(HeadersText(h), FieldStart(h, i), h[i].key, h[i].value)
  {
    LinesAre(h);
    FieldsFurther(Lines(h), h, CRLF);
  }

  // ---------------------------------------------------------------- the table

  function LiveOf(slots: seq<Slot>): seq<Header> {
    if slots == [] then []
    else
      var n := |slots| - 1;
      LiveOf(slots[..n]) + if slots[n].Live? then [slots[n].header] else []
  }

  lemma {:induction false} LiveOfConcat(a: seq<Slot>, b: seq<Slot>)
    ensures LiveOf(a + b) == LiveOf(a) + LiveOf(b)
  {
    if b == [] {
      assert a + b == a;
    } else {
      var n := |b| - 1;
      LiveOfConcat(a, b[..n]);
      assert (a + b)[..|a| + n] == a + b[..n];
    }
  }

  lemma LiveOfCut(s: seq<Slot>, a: seq<Slot>, b: seq<Slot>)
    requires s == a + b
    ensures LiveOf(s) == LiveOf(a) + LiveOf(b)
  {
    LiveOfConcat(a, b);
  }

  /** A slot is the position of its header among the live ones. */
  lemma LiveOfSplit(s: seq<Slot>, i: nat)
    requires i < |s|
    ensures LiveOf(s) == LiveOf(s[..i]) + (if s[i].Live? then [s[i].header] else [])
                         + LiveOf(s[i + 1..])
  {
    LiveOfPrefix(s, i);
    SplitAt(s, i + 1);
    LiveOfCut(s, s[..i + 1], s[i + 1..]);
  }

  lemma LiveOfPrefix(s: seq<Slot>, i: nat)
    requires i < |s|
    ensures LiveOf(s[..i + 1]) == LiveOf(s[..i]) + if s[i].Live? then [s[i].header] else []
  {
    assert s[..i + 1][..i] == s[..i];
  }

  class HeaderTable {
    var slots: array<Slot>
    var used: nat

    /** Keys of live slots are distinct, keys and values are C strings, and used slots stay
        strictly below capacity. */
    ghost predicate Valid()
      reads this, slots
    {
      used < slots.Length && DistinctKeys(Contents()) && NulFree(Contents())
    }

    ghost function Contents(): seq<Header>
      reads this, slots
      requires used <= slots.Length
    {
      LiveOf(slots[..used])
    }

    constructor ()
      ensures Valid() && Contents() == [] && fresh(slots)
    {
      slots, used := new Slot[DEFAULT_SLOTS](_ => Dead), 0;
    }

    /** The first live slot with the given key. */
    method Find(key: string) returns (found: Option<nat>)
      requires Valid()
      ensures found == None ==> KeyAt(Contents(), key) == |Contents()|
      ensures found.Some? ==>
        var i := found.value;
        && i < used && slots[i].Live? && slots[i].header.key == key
        && KeyAt(Contents(), key) == |LiveOf(slots[..i])|
        && Contents() == LiveOf(slots[..i]) + [slots[i].header] + LiveOf(slots[i + 1..used])
    {
      var i := 0;
      while i < used
        invariant i <= used
        invariant forall x :: x in LiveOf(slots[..i]) ==> x.key != key
      {
        if slots[i].Live? && slots[i].header.key == key {
          FoundAt(slots[..], used, i);
          return Some(i);
        }
        SkippedAt(slots[..], i, key);
        i := i + 1;
      }
      NotThere(Contents(), key);
      return None;
    }

    /** The value stored under a key. */
    method Lookup(key: string) returns (value: Option<string>)
      requires Valid()
      ensures value == Get(Contents(), key)
    {
      var i := Find(key);
      value := if i == None then None else Some(slots[i.value].header.value);
    }

    /** Leaves a dead slot behind; reports whether there was such a header. */
    method Remove(key: string) returns (removed: bool)
      requires Valid()
      modifies slots
      ensures Valid() && Contents() == DeleteKey(old(Contents()), key)
      ensures removed <==> Get(old(Contents()), key).Some?
    {
      var i := Find(key);
      DeleteKeyMeans(Contents(), key);
      if i == None {
        return false;
      }
      ghost var s := slots[..used];
      assert s[..i.value] == slots[..i.value];
      DeadSlot(s, i.value);
      slots[i.value] := Dead;
      assert slots[..used] == s[i.value := Dead];
      return true;
    }

    /** Doubles the capacity, keeping the used slots. */
    method Grow()
      requires Valid()
      modifies this`slots
      ensures Valid() && Contents() == old(Contents()) && used == old(used)
      ensures fresh(slots) && slots.Length == 2 * old(slots.Length)
    {
      var bigger := new Slot[2 * slots.Length](i => Dead);
      for i := 0 to used
        modifies bigger
        invariant bigger[..i] == slots[..i]
      {
        bigger[i] := slots[i];
      }
      slots := bigger;
    }

    /** Replaces or adds a header: it moves to the end of the list. */
    method Set(key: string, value: string)
      requires Valid() && NUL !in key && NUL !in value
      modifies this, slots
      ensures Valid() && Contents() == SetHeader(old(Contents()), Header(key, value))
      ensures slots == old(slots) || fresh(slots)
    {
      SetMeans(Contents(), Header(key, value), key);
      var _ := Remove(key);
      if slots.Length <= used + 1 {
        Grow();
      }
      Append(Header(key, value));
    }

    /** Takes the next free slot. */
    method Append(x: Header)
      requires used < slots.Length
      modifies this`used, slots
      ensures used == old(used) + 1 && Contents() == old(Contents()) + [x]
    {
      ghost var s := slots[..used];
      slots[used] := Live(x);
      used := used + 1;
      ghost var s' := slots[..used];
      assert s' == s + [Live(x)];
      LiveOfPrefix(s', used - 1);
      assert s'[..used - 1] == s && s'[..used] == s';
    }

    method LineLength(x: Slot) returns (len: nat)
      ensures len == |LineOf(x)|
    {
      len := if x.Live? then |x.header.key| + |x.header.value| + 4 else 0;
    }

    /** Length of the printed headers. */
    method TextLength() returns (len: nat)
      requires Valid()
      ensures len == |HeadersText(Contents())|
    {
      len := 0;
      for i := 0 to used
        invariant len == |Lines(LiveOf(slots[..i]))|
      {
        NextLine(slots[..used], i);
        assert slots[..used][..i] == slots[..i] && slots[..used][..i + 1] == slots[..i + 1];
        var n := LineLength(slots[i]);
        len := len + n;
      }
      len := len + 2;
    }

    /** Prints the headers at `start`, where `len` characters may be written. */
    method Print(out: array<char>, start: nat, len: nat) returns (ok: bool)
      requires Valid() && start + len <= out.Length
      modifies out
      ensures Valid() && Contents() == old(Contents())
      ensures ok <==> |HeadersText(Contents())| <= len
      ensures !ok ==> out[..] == old(out[..])
      ensures ok ==> out[..] == Overwrite(old(out[..]), start, HeadersText(Contents()))
    {
      var total := TextLength();
      if len < total {
        return false;
      }
      var current := PrintLines(out, start);
      OverwriteTwice(old(out[..]), start, Lines(Contents()), CRLF);
      CopyInto(out, current, CRLF);
      return true;
    }

    method PrintLines(out: array<char>, start: nat) returns (current: nat)
      requires Valid() && start + |Lines(Contents())| <= out.Length
      modifies out
      ensures current == start + |Lines(Contents())|
      ensures out[..] == Overwrite(old(out[..]), start, Lines(Contents()))
    {
      ghost var b, s, text := out[..], slots[..used], "";
      current := start;
      for i := 0 to used
        invariant text == Lines(LiveOf(s[..i])) && s == slots[..used]
        invariant start + |text| <= out.Length && current == start + |text|
        invariant out[..] == Overwrite(b, start, text)
      {
        var line := LineOf(slots[i]);
        PrintStep(b, start, s, i, text, current, line);
        CopyInto(out, current, line);
        current := current + |line|;
        text := text + line;
        assert out[..] == Overwrite(b, start, text);
      }
      assert s[..used] == s;
    }
  }

  lemma FoundAt(slots: seq<Slot>, used: nat, i: nat)
    requires i < used <= |slots| && slots[i].Live?
    requires forall x :: x in LiveOf(slots[..i]) ==> x.key != slots[i].header.key
    ensures LiveOf(slots[..used])
         == LiveOf(slots[..i]) + [slots[i].header] + LiveOf(slots[i + 1..used])
    ensures KeyAt(LiveOf(slots[..used]), slots[i].header.key) == |LiveOf(slots[..i])|
  {
    var s := slots[..used];
    assert s[..i] == slots[..i] && s[i + 1..] == slots[i + 1..used];
    LiveOfSplit(s, i);
    KeyBehind(LiveOf(slots[..i]), slots[i].header, LiveOf(slots[i + 1..used]));
  }

  lemma SkippedAt(slots: seq<Slot>, i: nat, key: string)
    requires i < |slots| && (slots[i].Live? ==> slots[i].header.key != key)
    requires forall x :: x in LiveOf(slots[..i]) ==> x.key != key
    ensures forall x :: x in LiveOf(slots[..i + 1]) ==> x.key != key
  {
    LiveOfPrefix(slots, i);
  }

  lemma NotThere(h: seq<Header>, key: string)
    requires forall x :: x in h ==> x.key != key
    ensures KeyAt(h, key) == |h|
  {
    assert forall j :: 0 <= j < |h| ==> h[j] in h;
    KeyAtIs(h, key, |h|);
  }

  lemma KeyBehind(before: seq<Header>, x: Header, behind: seq<Header>)
    requires forall y :: y in before ==> y.key != x.key
    ensures KeyAt(before + [x] + behind, x.key) == |before|
  {
    assert forall j :: 0 <= j < |before| ==> before[j] in before;
    KeyAtIs(before + [x] + behind, x.key, |before|);
  }

  /** One turn of the printing loop: the next line goes right behind the lines so far. */
  lemma PrintStep(b: seq<char>, start: nat, s: seq<Slot>, i: nat, text: string,
                  current: nat, line: string)
    requires i < |s| && start + |Lines(LiveOf(s))| <= |b| && text == Lines(LiveOf(s[..i]))
    requires current == start + |text| && line == LineOf(s[i])
    ensures current + |line| <= |b| && Lines(LiveOf(s[..i + 1])) == text + line
    ensures Overwrite(Overwrite(b, start, text), current, line) == Overwrite(b, start, text + line)
  {
    NextLine(s, i);
    LinesFit(s, i + 1);
    OverwriteTwice(b, start, text, line);
  }

  /** Killing the first slot with a key deletes that key from the list. */
  lemma DeadSlot(s: seq<Slot>, i: nat)
    requires i < |s| && s[i].Live?
    requires KeyAt(LiveOf(s), s[i].header.key) == |LiveOf(s[..i])|
    ensures LiveOf(s[i := Dead]) == DeleteKey(LiveOf(s), s[i].header.key)
  {
    var s' := s[i := Dead];
    LiveOfSplit(s, i);
    LiveOfSplit(s', i);
    assert s'[..i] == s[..i] && s'[i + 1..] == s[i + 1..];
  }

  function LineOf(x: Slot): string {
    if x.Live? then HeaderLine(x.header) else ""
  }

  lemma LinesAppend(h: seq<Header>, x: Header)
    ensures Lines(h + [x]) == Lines(h) + HeaderLine(x)
  {
    assert (h + [x])[..|h|] == h;
  }

  /** One more slot adds its line, or nothing if it is dead. */
  lemma NextLine(s: seq<Slot>, i: nat)
    requires i < |s|
    ensures Lines(LiveOf(s[..i + 1])) == Lines(LiveOf(s[..i]))
            + LineOf(s[i])
  {
    LiveOfPrefix(s, i);
    if s[i].Live? {
      LinesAppend(LiveOf(s[..i]), s[i].header);
    } else {
      assert LiveOf(s[..i]) + [] == LiveOf(s[..i]);
    }
  }

  lemma {:induction false} LinesFit(s: seq<Slot>, i: nat)
    requires i <= |s|
    ensures |Lines(LiveOf(s[..i]))| <= |Lines(LiveOf(s))|
    decreases |s| - i
  {
    if i < |s| {
      NextLine(s, i);
      LinesFit(s, i + 1);
    } else {
      assert s[..i] == s;
    }
  }
}
