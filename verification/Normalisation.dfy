/** Printing what was parsed and parsing it again changes nothing, for every accepted input.
    The difficulty is a header line without a colon: its key then reaches over the CRLF to a
    colon further down, while the loop goes on with the very next line, so the same value
    is stored once more under each tail of that key. */
module Normalisation {
  import opened CStrings
  import opened Headers
  import opened RequestGrammar
  import opened Sequences
  import opened Options

  // ---------------------------------------------------------------- tails of a key

  /** The key with its first line left out, unless an empty line ends the headers there. */
  function NextTail(key: string): (r: Option<string>)
    ensures r.Some? ==> |r.value| < |key|
  {
    match FindCrlf(key)
    case None => None
    case Some(e) => if CrlfAt(key[e + 2..], 0) then None else Some(key[e + 2..])
  }

  /** Does an empty line inside the key end the headers? */
  predicate Stops(key: string)
    decreases |key|
  {
    match NextTail(key)
    case None => FindCrlf(key).Some?
    case Some(tail) => Stops(tail)
  }

  /** The key and its tails: every key under which the value is stored. */
  function Tails(key: string): set<string>
    decreases |key|
  {
    match NextTail(key)
    case None => {key}
    case Some(tail) => {key} + Tails(tail)
  }

  /** The headers stored for one key and value, in the order in which they are stored. */
  function Chain(x: Header): (c: seq<Header>)
    ensures c != [] && c[0] == x
    decreases |x.key|
  {
    match NextTail(x.key)
    case None => [x]
    case Some(tail) => [x] + Chain(Header(tail, x.value))
  }

  lemma {:induction false} TailsShorter(key: string, k: string)
    requires k in Tails(key)
    ensures |k| <= |key| && (|k| == |key| ==> k == key)
    decreases |key|
  {
    if k != key {
      TailsShorter(NextTail(key).value, k);
    }
  }

  lemma {:induction false} TailsClosed(key: string, k: string)
    requires k in Tails(key)
    ensures Tails(k) <= Tails(key)
    decreases |key|
  {
    if k != key {
      TailsClosed(NextTail(key).value, k);
    }
  }

  lemma {:induction false} ChainInside(x: Header)
    ensures Inside(Chain(x), Tails(x.key)) && DistinctKeys(Chain(x))
    decreases |x.key|
  {
    if NextTail(x.key).Some? {
      var y := Header(NextTail(x.key).value, x.value);
      var c := Chain(y);
      ChainInside(y);
      forall i | 0 <= i < |c| ensures c[i].key != x.key {
        TailsShorter(y.key, c[i].key);
      }
    }
  }

  // ---------------------------------------------------------------- storing a header

  /** The table after a header and everything its key's tails bring with them. */
  function Settled(h: seq<Header>, x: Header): seq<Header> {
    Dropping(h, Tails(x.key)) + Chain(x)
  }

  lemma SettledDistinct(h: seq<Header>, x: Header)
    requires DistinctKeys(h)
    ensures DistinctKeys(Settled(h, x))
  {
    DroppingDistinct(h, Tails(x.key));
    DroppingOutside(h, Tails(x.key));
    ChainInside(x);
    DistinctParts(Dropping(h, Tails(x.key)), Chain(x), Tails(x.key));
  }

  lemma DistinctParts(a: seq<Header>, b: seq<Header>, keys: set<string>)
    requires DistinctKeys(a) && DistinctKeys(b) && Outside(a, keys) && Inside(b, keys)
    ensures DistinctKeys(a + b)
  {
    forall i, j | 0 <= i < j < |a + b| ensures (a + b)[i].key != (a + b)[j].key {
      if i < |a| && |a| <= j {
        assert a[i].key !in keys && b[j - |a|].key in keys;
      }
    }
  }

  lemma SettledLast(h: seq<Header>, x: Header)
    requires DistinctKeys(h) && NextTail(x.key) == None
    ensures Settled(h, x) == SetHeader(h, x)
  {
    SetIsDropping(h, x);
  }

  lemma ChainNext(x: Header, y: Header)
    requires NextTail(x.key) == Some(y.key) && y.value == x.value
    ensures Chain(x) == [x] + Chain(y)
    ensures Tails(x.key) == {x.key} + Tails(y.key) && x.key !in Tails(y.key)
  {
    assert y == Header(y.key, x.value);
    if x.key in Tails(y.key) {
      TailsShorter(y.key, x.key);
    }
  }

  /** Setting the header and then settling the next tail settles the header. */
  lemma SettledNext(h: seq<Header>, x: Header, y: Header)
    requires DistinctKeys(h) && NextTail(x.key) == Some(y.key) && y.value == x.value
    ensures Settled(SetHeader(h, x), y) == Settled(h, x)
  {
    ChainNext(x, y);
    SetThenDrop(h, x, Tails(y.key));
  }

  /** Reading a printed list: headers settle one after the other, until one stops. */
  function Replay(h: seq<Header>, todo: seq<Header>): seq<Header>
    decreases |todo|
  {
    if todo == [] then h
    else if Stops(todo[0].key) then Settled(h, todo[0])
    else Replay(Settled(h, todo[0]), todo[1..])
  }

  // ---------------------------------------------------------------- the parser settles

  ghost predicate Storable(x: Header) {
    && ':' !in x.key && !CrlfAt(x.key, 0) && NoCrlf(x.value)
    && NUL !in x.key && NUL !in x.value
  }

  ghost predicate AllStorable(h: seq<Header>) {
    forall i :: 0 <= i < |h| ==> Storable(h[i])
  }

  lemma FirstCrlfWithin(a: string, b: string)
    requires FindCrlf(a).Some?
    ensures FindCrlf(a + b) == FindCrlf(a)
  {
    var e := FindCrlf(a).value;
    assert CrlfAt(a + b, e);
    forall j | j < e ensures !CrlfAt(a + b, j) {
      assert !CrlfAt(a, j);
    }
    FindCrlfIs(a + b, e);
  }

  lemma StartsLike(key: string, b: string)
    ensures CrlfAt(key + ([':'] + b), 0) <==> CrlfAt(key, 0)
  {
    var t := key + ([':'] + b);
    assert |key| < 2 ==> t[|key|] == ':';
  }

  /** The text behind the first line of a printed header whose key spans lines. */
  lemma SecondLine(x: Header, rest: string)
    requires FindCrlf(x.key).Some?
    ensures var t, e := HeaderLine(x) + rest, FindCrlf(x.key).value;
      FindCrlf(t) == Some(e) && e + 2 <= |x.key|
      && t[e + 2..] == HeaderLine(Header(x.key[e + 2..], x.value)) + rest
  {
    var e := FindCrlf(x.key).value;
    FirstCrlfWithin(x.key, ": " + x.value + CRLF + rest);
    assert HeaderLine(x) + rest == x.key + (": " + x.value + CRLF + rest);
  }

  lemma LineStart(x: Header, rest: string)
    ensures var t := HeaderLine(x) + rest; t != "" && (CrlfAt(t, 0) <==> CrlfAt(x.key, 0))
  {
    assert HeaderLine(x) + rest == x.key + ([':'] + (" " + x.value + CRLF + rest));
    StartsLike(x.key, " " + x.value + CRLF + rest);
  }

  /** Behind the first line of a key that spans lines the text reads as its tail. */
  lemma ReadsOn(t: string, e: nat) returns (y: Header)
    requires ParseHeader(t).Parsed? && FindCrlf(ParseHeader(t).value.key) == Some(e)
    ensures var x := ParseHeader(t).value;
      && FindCrlf(t) == Some(e) && e + 2 <= |x.key| && y == Header(x.key[e + 2..], x.value)
      && ParseHeader(t[e + 2..]) == Parsed(y) && t[e + 2..] != ""
      && (CrlfAt(t[e + 2..], 0) <==> CrlfAt(y.key, 0))
  {
    var i := FindChar(t, ':').value;
    y := ReadsBehind(t, ParseHeader(t).value, i, e);
  }

  lemma ReadsBehind(t: string, x: Header, i: nat, e: nat) returns (y: Header)
    requires i + 2 <= |t| && t[i] == ':' && ':' !in t[..i] && x.key == t[..i]
    requires FindCrlf(t[i + 2..]).Some? && x.value == t[i + 2..][..FindCrlf(t[i + 2..]).value]
    requires FindCrlf(x.key) == Some(e)
    ensures FindCrlf(t) == Some(e) && e + 2 <= |x.key| && y == Header(x.key[e + 2..], x.value)
    ensures ParseHeader(t[e + 2..]) == Parsed(y) && t[e + 2..] != ""
    ensures CrlfAt(t[e + 2..], 0) <==> CrlfAt(y.key, 0)
  {
    TailText(t, i, e);
    y := Header(x.key[e + 2..], x.value);
    ReadsTail(y.key, t[i + 1..], x.value);
  }

  /** The text behind the first line of a key that ends at `i`. */
  lemma TailText(t: string, i: nat, e: nat)
    requires i + 2 <= |t| && t[i] == ':' && ':' !in t[..i] && FindCrlf(t[..i]) == Some(e)
    ensures FindCrlf(t) == Some(e) && e + 2 <= i && ':' !in t[..i][e + 2..]
    ensures t[e + 2..] == t[..i][e + 2..] + ([':'] + t[i + 1..]) && t[i + 2..] == t[i + 1..][1..]
  {
    SplitAt(t, i);
    FirstCrlfWithin(t[..i], t[i..]);
    assert CrlfAt(t[..i], e);
    TailSlices(t, i, e + 2);
  }

  lemma TailSlices(t: string, i: nat, p: nat)
    requires p <= i < |t|
    ensures t[p..] == t[..i][p..] + ([t[i]] + t[i + 1..]) && t[i + 1..] == t[i..][1..]
    ensures i + 2 <= |t| ==> t[i + 2..] == t[i + 1..][1..]
  {
  }

  /** The same text starts with a line end exactly when its key does. */
  lemma ReadsTail(key: string, after: string, value: string)
    requires ':' !in key && after != "" && FindCrlf(after[1..]).Some?
    requires value == after[1..][..FindCrlf(after[1..]).value]
    ensures var u := key + ([':'] + after);
      && u != "" && ParseHeader(u) == Parsed(Header(key, value))
      && (CrlfAt(u, 0) <==> CrlfAt(key, 0))
  {
    ReadsHeader(key, after, value);
    StartsLike(key, after);
  }

  /** Reading `x` first settles it, and the loop then goes on at `rest`. */
  ghost predicate Settles(t: string, h: seq<Header>, x: Header, rest: string) {
    ParseHeaders(t, h)
    == if Stops(x.key) then Parsed(Settled(h, x)) else ParseHeaders(rest, Settled(h, x))
  }

  lemma SettlesThrough(t: string, h: seq<Header>, x: Header, u: string, y: Header, rest: string)
    requires DistinctKeys(h) && NextTail(x.key) == Some(y.key) && y.value == x.value
    requires ParseHeaders(t, h) == ParseHeaders(u, SetHeader(h, x))
    requires Settles(u, SetHeader(h, x), y, rest)
    ensures Settles(t, h, x, rest)
  {
    SettledNext(h, x, y);
  }

  /** A header whose key has no further tail: it is set, and the loop goes on behind the
      line or, at an empty line, ends. */
  lemma SettlesLast(t: string, h: seq<Header>, x: Header)
    requires t != "" && !CrlfAt(t, 0) && DistinctKeys(h)
    requires ParseHeader(t) == Parsed(x) && NextTail(x.key) == None
    ensures FindCrlf(t).Some? && FindCrlf(t).value + 2 <= |t|
    ensures Settles(t, h, x, t[FindCrlf(t).value + 2..])
  {
    OneTurn(t, h);
    SettledLast(h, x);
    if FindCrlf(x.key).Some? {
      var y := ReadsOn(t, FindCrlf(x.key).value);
    }
  }

  lemma TurnsTo(t: string, h: seq<Header>, x: Header, e: nat, u: string)
    requires t != "" && !CrlfAt(t, 0) && ParseHeader(t) == Parsed(x)
    requires FindCrlf(t) == Some(e) && e + 2 <= |t| && u == t[e + 2..]
    ensures ParseHeaders(t, h) == ParseHeaders(u, SetHeader(h, x))
  {
    OneTurn(t, h);
    assert u == t[FindCrlf(t).value + 2..];
  }

  /** The text of a header line whose key has a tail, and of the tail's header line in it. */
  lemma FirstTurn(x: Header, rest: string, y: Header) returns (t: string, u: string, e: nat)
    requires Storable(x) && NextTail(x.key) == Some(y.key) && y.value == x.value
    ensures t == HeaderLine(x) + rest && u == HeaderLine(y) + rest
    ensures t != "" && !CrlfAt(t, 0) && ParseHeader(t) == Parsed(x)
    ensures FindCrlf(t) == Some(e) && e + 2 <= |t| && u == t[e + 2..]
  {
    t, u, e := HeaderLine(x) + rest, HeaderLine(y) + rest, FindCrlf(x.key).value;
    ParsesKeyAndValue(x, rest);
    LineStart(x, rest);
    SecondLine(x, rest);
  }

  /** A header whose key has a further tail settles when the tail's header does. */
  lemma SettlesOnward(h: seq<Header>, x: Header, rest: string, y: Header)
    requires DistinctKeys(h) && Storable(x)
    requires NextTail(x.key) == Some(y.key) && y.value == x.value
    requires Settles(HeaderLine(y) + rest, SetHeader(h, x), y, rest)
    ensures Settles(HeaderLine(x) + rest, h, x, rest)
  {
    var t, u, e := FirstTurn(x, rest, y);
    TurnsTo(t, h, x, e, u);
    SettlesThrough(t, h, x, u, y, rest);
  }

  lemma SettlesHere(h: seq<Header>, x: Header, rest: string)
    requires DistinctKeys(h) && Storable(x) && NextTail(x.key) == None
    ensures Settles(HeaderLine(x) + rest, h, x, rest)
  {
    ParsesKeyAndValue(x, rest);
    LineStart(x, rest);
    SettlesLast(HeaderLine(x) + rest, h, x);
    if FindCrlf(x.key) == None {
      HeaderLineEnds(x, rest);
    }
  }

  /** A printed header line is read back as one settled header. */
  lemma {:induction false} ParsesSettled(h: seq<Header>, x: Header, rest: string)
    requires DistinctKeys(h) && Storable(x)
    ensures Settles(HeaderLine(x) + rest, h, x, rest)
    decreases |x.key|
  {
    if NextTail(x.key).Some? {
      var y := Header(NextTail(x.key).value, x.value);
      SetMeans(h, x, x.key);
      ParsesSettled(SetHeader(h, x), y, rest);
      SettlesOnward(h, x, rest, y);
    } else {
      SettlesHere(h, x, rest);
    }
  }

  lemma {:induction false} ParsesReplay(h: seq<Header>, todo: seq<Header>)
    requires DistinctKeys(h) && AllStorable(todo)
    ensures ParseHeaders(HeadersText(todo), h) == Parsed(Replay(h, todo))
    decreases |todo|
  {
    if todo == [] {
      assert HeadersText(todo) == CRLF;
    } else {
      var x, rest := todo[0], todo[1..];
      LinesCons(todo);
      assert HeadersText(todo) == HeaderLine(x) + HeadersText(rest);
      ParsesSettled(h, x, HeadersText(rest));
      SettledDistinct(h, x);
      if !Stops(x.key) {
        ParsesReplay(Settled(h, x), rest);
      }
    }
  }

  /** Whatever the text, its first header settles, and the loop goes on further down. */
  lemma {:induction false} SettlesFirst(t: string, h: seq<Header>) returns (rest: string)
    requires t != "" && !CrlfAt(t, 0) && NUL !in t && DistinctKeys(h)
    requires ParseHeaders(t, h).Parsed?
    ensures ParseHeader(t).Parsed? && Storable(ParseHeader(t).value)
    ensures |rest| < |t| && NUL !in rest
    ensures Settles(t, h, ParseHeader(t).value, rest)
    decreases |t|
  {
    var x := ReadsFirst(t, h);
    if NextTail(x.key).Some? {
      var u, y := ReadsTailNext(t, h, x);
      rest := SettlesFirst(u, SetHeader(h, x));
      SettlesThrough(t, h, x, u, y, rest);
    } else {
      rest := SettlesFirstLast(t, h, x);
    }
  }

  lemma ReadsFirst(t: string, h: seq<Header>) returns (x: Header)
    requires t != "" && !CrlfAt(t, 0) && NUL !in t && ParseHeaders(t, h).Parsed?
    ensures ParseHeader(t) == Parsed(x) && Storable(x)
  {
    OneTurn(t, h);
    x := ParseHeader(t).value;
    ReadIsStorable(t);
  }

  lemma ReadsTailNext(t: string, h: seq<Header>, x: Header) returns (u: string, y: Header)
    requires t != "" && !CrlfAt(t, 0) && NUL !in t && DistinctKeys(h)
    requires ParseHeaders(t, h).Parsed? && ParseHeader(t) == Parsed(x) && NextTail(x.key).Some?
    ensures u != "" && !CrlfAt(u, 0) && NUL !in u && |u| < |t| && DistinctKeys(SetHeader(h, x))
    ensures ParseHeaders(t, h) == ParseHeaders(u, SetHeader(h, x)) && ParseHeader(u) == Parsed(y)
    ensures NextTail(x.key) == Some(y.key) && y.value == x.value
  {
    SetMeans(h, x, x.key);
    var e := FindCrlf(x.key).value;
    y := ReadsOn(t, e);
    u := t[e + 2..];
    TurnsTo(t, h, x, e, u);
  }

  lemma SettlesFirstLast(t: string, h: seq<Header>, x: Header) returns (rest: string)
    requires t != "" && !CrlfAt(t, 0) && NUL !in t && DistinctKeys(h)
    requires ParseHeader(t) == Parsed(x) && NextTail(x.key) == None
    ensures |rest| < |t| && NUL !in rest && Settles(t, h, x, rest)
  {
    SettlesLast(t, h, x);
    rest := t[FindCrlf(t).value + 2..];
  }

  lemma ReadIsStorable(t: string)
    requires t != "" && !CrlfAt(t, 0) && NUL !in t && ParseHeader(t).Parsed?
    ensures Storable(ParseHeader(t).value)
  {
    var i := FindChar(t, ':').value;
    HeaderNulFree(t);
    BeforeFirstCrlf(t[i + 2..]);
    assert CrlfAt(t[..i], 0) ==> CrlfAt(t, 0);
  }

  // ---------------------------------------------------------------- replaying a table

  ghost predicate NoStops(h: seq<Header>) {
    forall i :: 0 <= i < |h| ==> !Stops(h[i].key)
  }

  ghost predicate Closed(keys: set<string>) {
    forall k :: k in keys ==> Tails(k) <= keys
  }

  lemma TailsAreClosed(key: string)
    ensures Closed(Tails(key))
  {
    forall k | k in Tails(key) ensures Tails(k) <= Tails(key) {
      TailsClosed(key, k);
    }
  }

  /** Outside a closed set of keys, a header of that set leaves no trace. */
  lemma SettledInside(g: seq<Header>, x: Header, keys: set<string>)
    requires Closed(keys) && x.key in keys
    ensures Dropping(Settled(g, x), keys) == Dropping(g, keys)
  {
    var d := Dropping(g, Tails(x.key));
    ChainInside(x);
    DroppingConcat(d, Chain(x), keys);
    DroppingAll(Chain(x), keys);
    DroppingTwice(g, Tails(x.key), keys);
    assert Tails(x.key) + keys == keys;
  }

  /** Outside a set of keys, what a header leaves depends only on what was outside. */
  lemma SettledOutside(g: seq<Header>, g': seq<Header>, x: Header, keys: set<string>)
    requires Dropping(g, keys) == Dropping(g', keys)
    ensures Dropping(Settled(g, x), keys) == Dropping(Settled(g', x), keys)
  {
    SettledParts(g, x, keys);
    SettledParts(g', x, keys);
  }

  lemma SettledParts(g: seq<Header>, x: Header, keys: set<string>)
    ensures Dropping(Settled(g, x), keys)
         == Dropping(Dropping(g, keys), Tails(x.key)) + Dropping(Chain(x), keys)
  {
    DroppingConcat(Dropping(g, Tails(x.key)), Chain(x), keys);
    DroppingTwice(g, Tails(x.key), keys);
    DroppingTwice(g, keys, Tails(x.key));
    assert Tails(x.key) + keys == keys + Tails(x.key);
  }

  lemma DroppingFirst(h: seq<Header>, keys: set<string>)
    requires h != []
    ensures Dropping(h, keys)
         == (if h[0].key in keys then [] else [h[0]]) + Dropping(h[1..], keys)
  {
    assert h == [h[0]] + h[1..];
    DroppingConcat([h[0]], h[1..], keys);
    DroppingOne(h[0], keys);
  }

  /** Leaving a closed set of keys out before or after a replay makes no difference. */
  lemma {:induction false} ReplayApart(g: seq<Header>, g': seq<Header>, h: seq<Header>,
                                       keys: set<string>)
    requires Closed(keys) && NoStops(h) && Dropping(g, keys) == Dropping(g', keys)
    ensures Dropping(Replay(g, h), keys) == Dropping(Replay(g', Dropping(h, keys)), keys)
    decreases |h|
  {
    if h != [] {
      var x, rest := h[0], h[1..];
      DroppingFirst(h, keys);
      if x.key in keys {
        SettledInside(g, x, keys);
        assert Dropping(h, keys) == Dropping(rest, keys);
        ReplayApart(Settled(g, x), g', rest, keys);
      } else {
        SettledOutside(g, g', x, keys);
        ReplayApart(Settled(g, x), Settled(g', x), rest, keys);
        var d := Dropping(rest, keys);
        assert ([x] + d)[1..] == d;
      }
    }
  }

  lemma {:induction false} ReplayConcat(g: seq<Header>, a: seq<Header>, b: seq<Header>)
    requires NoStops(a)
    ensures Replay(g, a + b) == Replay(Replay(g, a), b)
    decreases |a|
  {
    if a == [] {
      assert a + b == b;
    } else {
      assert (a + b)[1..] == a[1..] + b;
      ReplayConcat(Settled(g, a[0]), a[1..], b);
    }
  }

  /** Once a chain is in place, replaying its tails moves nothing. */
  lemma {:induction false} ReplayTails(g: seq<Header>, x: Header)
    requires Outside(g, Tails(x.key)) && !Stops(x.key)
    ensures Replay(g + Chain(x), Chain(x)[1..]) == g + Chain(x)
    decreases |x.key|
  {
    if NextTail(x.key).Some? {
      var y := Header(NextTail(x.key).value, x.value);
      var g', c := g + [x], Chain(y);
      assert g + Chain(x) == g' + c && Chain(x)[1..] == c;
      if x.key in Tails(y.key) {
        TailsShorter(y.key, x.key);
      }
      SettledAgain(g', y);
      ReplayTails(g', y);
    }
  }

  lemma DroppingBack(g: seq<Header>, c: seq<Header>, keys: set<string>)
    requires Outside(g, keys) && Inside(c, keys)
    ensures Dropping(g + c, keys) == g
  {
    DroppingConcat(g, c, keys);
    DroppingNone(g, keys);
    DroppingAll(c, keys);
  }

  lemma SettledAgain(g: seq<Header>, y: Header)
    requires Outside(g, Tails(y.key))
    ensures Settled(g + Chain(y), y) == g + Chain(y)
  {
    ChainInside(y);
    DroppingBack(g, Chain(y), Tails(y.key));
  }

  lemma ReplayChain(g: seq<Header>, x: Header)
    ensures Replay(g, Chain(x)) == Settled(g, x)
  {
    if !Stops(x.key) {
      DroppingOutside(g, Tails(x.key));
      ReplayTails(Dropping(g, Tails(x.key)), x);
    }
  }

  // ---------------------------------------------------------------- every accepted input

  /** The table is what reading its own printed form gives. */
  ghost predicate Rebuilds(h: seq<Header>) {
    DistinctKeys(h) && AllStorable(h) && Replay([], h) == h
  }

  lemma {:induction false} ChainStorable(x: Header)
    requires Storable(x)
    ensures AllStorable(Chain(x)) && (!Stops(x.key) ==> NoStops(Chain(x)))
    decreases |x.key|
  {
    if NextTail(x.key).Some? {
      ChainStorable(Header(NextTail(x.key).value, x.value));
    }
  }

  lemma DroppingKeeps(h: seq<Header>, keys: set<string>)
    ensures AllStorable(h) ==> AllStorable(Dropping(h, keys))
    ensures NoStops(h) ==> NoStops(Dropping(h, keys))
  {
    var d := Dropping(h, keys);
    forall i | 0 <= i < |d| ensures d[i] in h {
      DroppingHas(h, keys, d[i]);
    }
  }

  /** Settling one more header keeps the table one that rebuilds itself. */
  lemma SettledRebuilds(h: seq<Header>, x: Header)
    requires Rebuilds(h) && NoStops(h) && Storable(x)
    ensures Rebuilds(Settled(h, x)) && (!Stops(x.key) ==> NoStops(Settled(h, x)))
  {
    var keys := Tails(x.key);
    var d := Dropping(h, keys);
    DroppingKeeps(h, keys);
    ChainStorable(x);
    SettledDistinct(h, x);
    ReplayConcat([], d, Chain(x));
    ReplayChain(Replay([], d), x);
    TailsAreClosed(x.key);
    ReplayApart([], [], h, keys);
  }

  lemma {:induction false} ParsedRebuilds(t: string, h: seq<Header>)
    requires NUL !in t && Rebuilds(h) && NoStops(h) && ParseHeaders(t, h).Parsed?
    ensures Rebuilds(ParseHeaders(t, h).value)
    decreases |t|
  {
    if t != "" && !CrlfAt(t, 0) {
      var rest := SettlesFirst(t, h);
      var x := ParseHeader(t).value;
      SettledRebuilds(h, x);
      if !Stops(x.key) {
        ParsedRebuilds(rest, Settled(h, x));
      }
    }
  }

  lemma ReparsesHeaders(t: string)
    requires NUL !in t && ParseHeaders(t, []).Parsed?
    ensures var h := ParseHeaders(t, []).value;
      AllStorable(h) && ParseHeaders(HeadersText(h), []) == Parsed(h)
  {
    ParsedRebuilds(t, []);
    ParsesReplay([], ParseHeaders(t, []).value);
  }

  /** Normalisation is idempotent: for every accepted input, whatever its spelling (leading
      slashes, repeated headers, missing spaces behind colons, lines without a colon),
      printing what was parsed and parsing it again gives the same request, exactly when
      the printed form is within the length limit. */
  lemma NormalisationIsIdempotent(input: string)
    requires Parse(input).Parsed?
    ensures Parse(Unparse(Parse(input).value)) == Parse(input)
       <==> |Unparse(Parse(input).value)| <= MAX_REQ_LEN
  {
    ReparsesInput(input);
    ParsesWithin(Unparse(Parse(input).value), Parse(input).value);
  }

  lemma ReparsesInput(input: string)
    requires Parse(input).Parsed?
    ensures var r := Parse(input).value; var t := Unparse(r);
      ParseText(t) == Parsed(r) && |t| >= MIN_REQ_LEN && UpToNul(t) == t && HasBlankLine(t)
  {
    var rest := AcceptedParts(input);
    ReparsesRequest(Parse(input).value, rest);
  }

  lemma ReparsesRequest(r: Request, rest: string)
    requires WellFormedLine(r.line) && NUL !in rest && ParseHeaders(rest, []) == Parsed(r.headers)
    ensures var t := Unparse(r);
      ParseText(t) == Parsed(r) && |t| >= MIN_REQ_LEN && UpToNul(t) == t && HasBlankLine(t)
  {
    ReparsesHeaders(rest);
    UnparseShape(r);
    ParsesText(r, r.headers);
  }

  lemma ParsesWithin(t: string, r: Request)
    requires ParseText(t) == Parsed(r) && |t| >= MIN_REQ_LEN && UpToNul(t) == t && HasBlankLine(t)
    ensures Parse(t) == Parsed(r) <==> |t| <= MAX_REQ_LEN
  {
  }

  // ---------------------------------------------------------------- a line without a colon

  lemma ChainOfTwo(first: string, second: string, value: string)
    requires first != "" && NoCrlf(first) && NoCrlf(second)
    ensures var x := Header(first + (CRLF + second), value);
      Chain(x) == [x, Header(second, value)] && !Stops(x.key)
  {
    FirstCrlf(first, second);
    var key := first + (CRLF + second);
    assert key[|first| + 2..] == second;
    assert !CrlfAt(second, 0);
    assert NextTail(key) == Some(second) && NextTail(second) == None;
  }

  lemma FoldedHeader(first: string, second: string, value: string)
    requires first != "" && ':' !in first && Clean(first)
    requires WellFormedHeader(Header(second, value))
    ensures var x := Header(first + (CRLF + second), value);
      && Storable(x) && !WellFormedHeader(x)
      && ParseHeaders(HeadersText([x]), []) == Parsed([x, Header(second, value)])
  {
    var x := Header(first + (CRLF + second), value);
    assert CrlfAt(x.key, |first|);
    assert !CrlfAt(first, 0);
    ChainOfTwo(first, second, value);
    ParsesReplay([], [x]);
    assert Replay([], [x]) == [x, Header(second, value)];
  }

  /** A line `first` without a colon before a header is read into the header's key, and the
      header is stored a second time under its own: a request whose key holds a CRLF does
      not survive printing and parsing. */
  lemma ColonlessLine(l: RequestLine, first: string, second: string, value: string)
    requires WellFormedLine(l) && first != "" && ':' !in first && Clean(first)
    requires WellFormedHeader(Header(second, value))
    requires |Unparse(Request(l, [Header(first + (CRLF + second), value)]))| <= MAX_REQ_LEN
    ensures var x, y := Header(first + (CRLF + second), value), Header(second, value);
      Parse(Unparse(Request(l, [x]))) == Parsed(Request(l, [x, y])) && !WellFormed(Request(l, [x, y]))
  {
    var x, y := Header(first + (CRLF + second), value), Header(second, value);
    FoldedHeader(first, second, value);
    FoldedRequest(l, x, y);
  }

  lemma FoldedRequest(l: RequestLine, x: Header, y: Header)
    requires WellFormedLine(l) && Storable(x) && !WellFormedHeader(x)
    requires ParseHeaders(HeadersText([x]), []) == Parsed([x, y])
    requires |Unparse(Request(l, [x]))| <= MAX_REQ_LEN
    ensures Parse(Unparse(Request(l, [x]))) == Parsed(Request(l, [x, y]))
    ensures !WellFormed(Request(l, [x, y]))
  {
    UnparseShape(Request(l, [x]));
    ParsesText(Request(l, [x]), [x, y]);
    assert !WellFormedHeader([x, y][0]);
  }
}
