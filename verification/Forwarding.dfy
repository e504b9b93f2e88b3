/** The text of the forwarded request: its first line piece by piece, and what a reader with
    the same grammar makes of its headers. */
module Forwarding {
  import opened CStrings
  import opened Headers
  import opened Normalisation
  import opened Options
  import opened ProxyUtils
  import opened RequestGrammar

  // ---------------------------------------------------------------- the request line

  /** Method, path and version, with one space between. */
  function OriginLine(l: RequestLine): string {
    l.verb + ([' '] + (l.path + ([' '] + l.version)))
  }

  lemma ForwardedTextIs(r: Request)
    ensures ForwardedText(r)
         == OriginLine(r.line) + (CRLF + HeadersText(ForwardedHeaders(r.headers, r.line.host)))
  {
  }

  lemma OriginLineClean(l: RequestLine)
    requires WellFormedLine(l)
    ensures Clean(OriginLine(l))
  {
    NoCrlfConcat(" ", l.version);
    NoCrlfConcat(l.path, [' '] + l.version);
    NoCrlfConcat(" ", l.path + ([' '] + l.version));
    NoCrlfConcat(l.verb, [' '] + (l.path + ([' '] + l.version)));
  }

  /** For every well-formed line: up to its first CRLF the forwarded text is GET, a space,
      the path, a space and the version; the rewritten headers stand behind. */
  lemma ForwardedLine(r: Request, t: string) returns (line: string)
    requires WellFormedLine(r.line) && t == ForwardedText(r)
    ensures line == "GET" + ([' '] + (r.line.path + ([' '] + r.line.version)))
    ensures FindCrlf(t) == Some(|line|) && |line| + 2 <= |t| && t[..|line|] == line
    ensures t[|line| + 2..] == HeadersText(ForwardedHeaders(r.headers, r.line.host))
  {
    line := OriginLine(r.line);
    ForwardedTextIs(r);
    OriginLineClean(r.line);
    CutBehind(t, line, HeadersText(ForwardedHeaders(r.headers, r.line.host)));
  }

  /** A reader that splits that line at spaces finds the method, the path and the version. */
  lemma ForwardedTokens(l: RequestLine, line: string)
    requires WellFormedLine(l) && line == "GET" + ([' '] + (l.path + ([' '] + l.version)))
    ensures var rest := l.path + ([' '] + l.version);
      && Strtok(line, {' '}) == Token(0, "GET", true, rest)
      && Strtok(rest, {' '}) == Token(0, l.path, true, l.version)
  {
    StrtokFirst("GET", ' ', l.path + ([' '] + l.version), {' '});
    StrtokFirst(l.path, ' ', l.version, {' '});
  }

  lemma CutBehind(t: string, line: string, rest: string)
    requires t == line + (CRLF + rest) && NoCrlf(line)
    ensures FindCrlf(t) == Some(|line|) && |line| + 2 <= |t|
    ensures t[..|line|] == line && t[|line| + 2..] == rest
  {
    FirstCrlf(line, rest);
  }

  // ---------------------------------------------------------------- the headers

  /** A key with a blank line inside is where a reader of the printed headers stops. */
  lemma {:induction false} StopsIff(key: string)
    requires !CrlfAt(key, 0)
    ensures Stops(key) <==> HasBlankLine(key)
    decreases |key|
  {
    if FindCrlf(key).Some? {
      var e := FindCrlf(key).value;
      BlankShifts(key, e, key[e + 2..]);
      if !CrlfAt(key[e + 2..], 0) {
        StopsIff(key[e + 2..]);
      }
    }
  }

  lemma BlankShifts(key: string, e: nat, tail: string)
    requires FindCrlf(key) == Some(e) && e + 2 <= |key| && tail == key[e + 2..]
    ensures HasBlankLine(key) <==> CrlfAt(tail, 0) || HasBlankLine(tail)
  {
    if HasBlankLine(key) && !CrlfAt(tail, 0) {
      BlankLater(key, e, tail);
    }
    if HasBlankLine(tail) {
      BlankEarlier(key, e + 2, tail);
    }
    if CrlfAt(tail, 0) {
      CrlfMoves(key, e + 2, 0, tail);
      BlankHere(key, e);
    }
  }

  lemma BlankHere(s: string, i: nat)
    requires CrlfAt(s, i) && CrlfAt(s, i + 2)
    ensures HasBlankLine(s)
  {
  }

  lemma BlankLater(key: string, e: nat, tail: string)
    requires FindCrlf(key) == Some(e) && e + 2 <= |key| && tail == key[e + 2..]
    requires HasBlankLine(key) && !CrlfAt(tail, 0)
    ensures HasBlankLine(tail)
  {
    var i :| 0 <= i < |key| && CrlfAt(key, i) && CrlfAt(key, i + 2);
    CrlfMoves(key, e + 2, 0, tail);
    BlankMoves(key, e, i, tail);
  }

  lemma BlankMoves(key: string, e: nat, i: nat, tail: string)
    requires e + 2 <= |key| && tail == key[e + 2..] && CrlfAt(key, e) && e <= i && i != e
    requires CrlfAt(key, i) && CrlfAt(key, i + 2)
    ensures HasBlankLine(tail)
  {
    assert i != e + 1;
    CrlfMoves(key, e + 2, i - e - 2, tail);
    CrlfMoves(key, e + 2, i - e, tail);
    BlankHere(tail, i - e - 2);
  }

  lemma BlankEarlier(key: string, p: nat, tail: string)
    requires p <= |key| && tail == key[p..] && HasBlankLine(tail)
    ensures HasBlankLine(key)
  {
    var i :| 0 <= i < |tail| && CrlfAt(tail, i) && CrlfAt(tail, i + 2);
    CrlfMoves(key, p, i, tail);
    CrlfMoves(key, p, i + 2, tail);
    BlankHere(key, p + i);
  }

  lemma CrlfMoves(key: string, p: nat, i: nat, tail: string)
    requires p <= |key| && tail == key[p..]
    ensures CrlfAt(tail, i) <==> CrlfAt(key, p + i)
  {
  }

  lemma {:induction false} ChainStops(x: Header)
    requires Stops(x.key)
    ensures var c := Chain(x); !NoCrlf(c[|c| - 1].key)
    decreases |x.key|
  {
    if NextTail(x.key).Some? {
      ChainStops(Header(NextTail(x.key).value, x.value));
    }
  }

  /** Reading a list with a key that stops ends with a key that spans lines. */
  lemma {:induction false} ReplayStops(h: seq<Header>, todo: seq<Header>)
    requires !NoStops(todo)
    ensures var r := Replay(h, todo); r != [] && !NoCrlf(r[|r| - 1].key)
    decreases |todo|
  {
    if Stops(todo[0].key) {
      ChainStops(todo[0]);
    } else {
      RestStops(todo);
      ReplayStops(Settled(h, todo[0]), todo[1..]);
    }
  }

  lemma RestStops(todo: seq<Header>)
    requires todo != [] && !NoStops(todo) && !Stops(todo[0].key)
    ensures !NoStops(todo[1..])
  {
    var i :| 0 <= i < |todo| && Stops(todo[i].key);
    assert todo[1..][i - 1] == todo[i];
  }

  lemma PlainHeader(h: seq<Header>, x: Header)
    requires DistinctKeys(h) && NoCrlf(x.key)
    ensures Settled(h, x) == SetHeader(h, x) && !Stops(x.key)
  {
    SettledLast(h, x);
  }

  /** Setting a plain header in a table that rebuilds itself. */
  lemma SetRebuilds(h: seq<Header>, x: Header)
    requires Rebuilds(h) && NoStops(h) && Storable(x) && NoCrlf(x.key)
    ensures Rebuilds(SetHeader(h, x)) && NoStops(SetHeader(h, x))
  {
    PlainHeader(h, x);
    SettledRebuilds(h, x);
  }

  lemma HostStorable(host: string)
    requires Clean(host)
    ensures Storable(Header(HOST, host)) && Storable(Header(CONNECTION, "close"))
    ensures NoCrlf(HOST) && NoCrlf(CONNECTION)
  {
  }

  lemma ForwardedRebuilds(h: seq<Header>, host: string)
    requires Rebuilds(h) && NoStops(h) && Clean(host)
    ensures Rebuilds(ForwardedHeaders(h, host))
  {
    HostStorable(host);
    SetRebuilds(h, Header(HOST, host));
    SetRebuilds(SetHeader(h, Header(HOST, host)), Header(CONNECTION, "close"));
  }

  lemma ForwardedStorable(h: seq<Header>, host: string)
    requires DistinctKeys(h) && AllStorable(h) && Clean(host)
    ensures AllStorable(ForwardedHeaders(h, host))
  {
    ForwardedAre(h, host);
    HostStorable(host);
    DroppingKeeps(h, {HOST, CONNECTION});
    TwoMoreStorable(Others(h), Header(HOST, host), Header(CONNECTION, "close"));
  }

  lemma TwoMoreStorable(h: seq<Header>, x: Header, y: Header)
    requires AllStorable(h) && Storable(x) && Storable(y)
    ensures AllStorable(h + [x] + [y])
  {
  }

  lemma TwoMoreStop(h: seq<Header>, x: Header, y: Header, stopped: Header)
    requires stopped in h && Stops(stopped.key)
    ensures !NoStops(h + [x] + [y])
  {
    var j :| 0 <= j < |h| && h[j] == stopped;
    assert (h + [x] + [y])[j] == stopped;
  }

  lemma ForwardedStops(h: seq<Header>, host: string)
    requires DistinctKeys(h) && AllStorable(h) && !NoStops(h)
    ensures !NoStops(ForwardedHeaders(h, host))
  {
    var i :| 0 <= i < |h| && Stops(h[i].key);
    ForwardedAre(h, host);
    HostStorable("");
    PlainKeysGoOn();
    assert h[i] in Others(h);
    TwoMoreStop(Others(h), Header(HOST, host), Header(CONNECTION, "close"), h[i]);
  }

  lemma PlainKeysGoOn()
    ensures !Stops(HOST) && !Stops(CONNECTION)
  {
    HostStorable("");
    PlainHeader([], Header(HOST, ""));
    PlainHeader([], Header(CONNECTION, ""));
  }

  /** No key has a blank line inside. */
  ghost predicate NoBlankInKeys(h: seq<Header>) {
    forall x :: x in h ==> !HasBlankLine(x.key)
  }

  lemma NoStopsIff(h: seq<Header>)
    requires AllStorable(h)
    ensures NoStops(h) <==> NoBlankInKeys(h)
  {
    forall i | 0 <= i < |h| ensures Stops(h[i].key) <==> HasBlankLine(h[i].key) {
      StopsIff(h[i].key);
    }
    if NoStops(h) {
      forall x | x in h ensures !HasBlankLine(x.key) {
        var i :| 0 <= i < |h| && h[i] == x;
        assert !Stops(h[i].key);
      }
    }
    if NoBlankInKeys(h) {
      forall i | 0 <= i < |h| ensures !Stops(h[i].key) {
        assert h[i] in h;
      }
    }
  }

  lemma ReadsBackIff(h: seq<Header>, host: string)
    requires Rebuilds(h) && Clean(host)
    ensures var f := ForwardedHeaders(h, host);
      ParseHeaders(HeadersText(f), []) == Parsed(f) <==> NoStops(h)
  {
    var f := ForwardedHeaders(h, host);
    ForwardedStorable(h, host);
    ParsesReplay([], f);
    if NoStops(h) {
      ForwardedRebuilds(h, host);
    } else {
      ForwardedStops(h, host);
      ReplayStops([], f);
      ForwardedAre(h, host);
      HostStorable(host);
    }
  }

  /** For every accepted input: a reader with the same grammar finds in the forwarded headers
      exactly the other headers, in order, then `Host` with the target's host and
      `Connection: close`, exactly when no key has a blank line inside; one that has was read
      across the end of the client's headers and ends the forwarded ones early. */
  lemma ForwardedReadsBackIff(input: string)
    requires Parse(input).Parsed?
    ensures var r := Parse(input).value;
      var t, n := ForwardedText(r), 5 + |r.line.path| + |r.line.version|;
      && n + 2 <= |t|
      && (ParseHeaders(t[n + 2..], [])
            == Parsed(Others(r.headers) + [Header("Host", r.line.host)] + [Header("Connection", "close")])
          <==> NoBlankInKeys(r.headers))
  {
    var r := Parse(input).value;
    var rest := AcceptedParts(input);
    ParsedRebuilds(rest, []);
    var line := ForwardedLine(r, ForwardedText(r));
    ForwardedAre(r.headers, r.line.host);
    ReadsBackIff(r.headers, r.line.host);
    NoStopsIff(r.headers);
  }

  /** With a colon in every header line no key has a blank line inside. */
  lemma ColonsKeepKeysPlain(input: string)
    requires Parse(input).Parsed? && HeaderLinesHaveColons(input)
    ensures NoBlankInKeys(Parse(input).value.headers)
  {
    ParsedIsWellFormed(input);
    WellFormedKeysPlain(Parse(input).value.headers);
  }

  lemma WellFormedKeysPlain(h: seq<Header>)
    requires forall i :: 0 <= i < |h| ==> WellFormedHeader(h[i])
    ensures NoBlankInKeys(h)
  {
    forall x | x in h ensures !HasBlankLine(x.key) {
      var i :| 0 <= i < |h| && h[i] == x;
      assert WellFormedHeader(h[i]);
    }
  }

  lemma BlankKeyChain(first: string, second: string, key: string, value: string)
    requires first != "" && NoCrlf(first) && key == first + (CRLF + (CRLF + second))
    ensures Chain(Header(key, value)) == [Header(key, value)]
    ensures HasBlankLine(key) && !CrlfAt(key, 0)
  {
    CutBehind(key, first, CRLF + second);
    CrlfMoves(key, |first| + 2, 0, CRLF + second);
    assert CrlfAt(CRLF + second, 0);
    StartsClean(first, key);
    BlankHere(key, |first|);
  }

  lemma StartsClean(first: string, key: string)
    requires first != "" && NoCrlf(first) && first <= key && |first| < |key| && key[|first|] == '\r'
    ensures !CrlfAt(key, 0)
  {
    assert !CrlfAt(first, 0);
  }

  lemma BlankKeyClean(first: string, second: string, key: string)
    requires ':' !in first && ':' !in second && NUL !in first && NUL !in second
    requires key == first + (CRLF + (CRLF + second))
    ensures ':' !in key && NUL !in key
  {
  }

  /** It happens: a last line without a colon, the empty line, and a line with a colon behind
      it, which is no header any more. The request is accepted with a key that has a blank
      line inside. */
  lemma BlankKeyAccepted(l: RequestLine, first: string, second: string, key: string, value: string)
    requires WellFormedLine(l) && first != "" && ':' !in first && Clean(first)
    requires WellFormedHeader(Header(second, value)) && key == first + (CRLF + (CRLF + second))
    requires |Unparse(Request(l, [Header(key, value)]))| <= MAX_REQ_LEN
    ensures var r := Request(l, [Header(key, value)]);
      Parse(Unparse(r)) == Parsed(r) && !NoBlankInKeys(r.headers)
  {
    BlankKeyChain(first, second, key, value);
    BlankKeyClean(first, second, key);
    ParsesReplay([], [Header(key, value)]);
    BlankKeyRead(l, Header(key, value));
  }

  lemma BlankKeyRead(l: RequestLine, x: Header)
    requires WellFormedLine(l) && Storable(x) && Chain(x) == [x] && HasBlankLine(x.key)
    requires ParseHeaders(HeadersText([x]), []) == Parsed(Replay([], [x]))
    requires |Unparse(Request(l, [x]))| <= MAX_REQ_LEN
    ensures Parse(Unparse(Request(l, [x]))) == Parsed(Request(l, [x])) && !NoBlankInKeys([x])
  {
    assert Replay([], [x]) == [x];
    UnparseShape(Request(l, [x]));
    ParsesText(Request(l, [x]), [x]);
    assert x in [x];
  }
}
