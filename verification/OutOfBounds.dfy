/** On which inputs the parser reads behind the end of a string: a condition on the text, the
    grammar's `Undefined` in both directions, and inputs that meet it. */
module OutOfBounds {
  import opened CStrings
  import opened Headers
  import opened LineForms
  import opened Options
  import opened RequestGrammar

  // ---------------------------------------------------------------- the request line

  /** The address, if there is one, is followed by a space. */
  ghost predicate AddressEnds(l: string) {
    var t1 := Strtok(l, {' '});
    t1.Token? && t1.text == "GET" && Strtok(t1.rest, {' '}).Token? ==> Strtok(t1.rest, {' '}).cut
  }

  /** The version is looked for behind the terminator of the line exactly when the address
      is the last thing on it. */
  lemma LineUndefinedIff(l: string)
    ensures ParseLine(l) == Undefined <==> !AddressEnds(l)
  {
  }

  // ---------------------------------------------------------------- one header

  ghost predicate FirstColon(t: string, k: int, c: int) {
    0 <= k <= c < |t| && t[c] == ':' && forall j :: k <= j < c ==> t[j] != ':'
  }

  ghost predicate NoCrlfFrom(t: string, p: int) {
    forall j :: j >= p ==> !CrlfAt(t, j)
  }

  /** From position `k` on there is a colon, and no CRLF from the second character behind
      the first one. */
  ghost predicate UnendedColon(t: string, k: int) {
    exists c :: FirstColon(t, k, c) && NoCrlfFrom(t, c + 2)
  }

  lemma FindColon(t: string)
    ensures FindChar(t, ':') == None <==> ':' !in t
    ensures FindChar(t, ':').Some? ==> FirstColon(t, 0, FindChar(t, ':').value)
  {
  }

  lemma SameColon(t: string, k: int, c: int, d: int)
    requires FirstColon(t, k, c) && FirstColon(t, k, d)
    ensures c == d
  {
  }

  lemma CrlfBehind(t: string, p: nat)
    requires p <= |t|
    ensures NoCrlf(t[p..]) <==> NoCrlfFrom(t, p)
  {
    forall i ensures CrlfAt(t[p..], i) <==> i >= 0 && CrlfAt(t, p + i) {
    }
    if NoCrlf(t[p..]) {
      forall j | j >= p ensures !CrlfAt(t, j) {
        assert !CrlfAt(t[p..], j - p);
      }
    }
  }

  lemma HeaderUndefinedIff(t: string)
    ensures ParseHeader(t) == Undefined <==> UnendedColon(t, 0)
  {
    FindColon(t);
    if FindChar(t, ':').Some? {
      var i := FindChar(t, ':').value;
      if i + 2 <= |t| {
        CrlfBehind(t, i + 2);
      }
      forall c | FirstColon(t, 0, c) ensures c == i {
        SameColon(t, 0, i, c);
      }
      assert ParseHeader(t) == Undefined <==> NoCrlfFrom(t, i + 2);
    }
  }

  // ---------------------------------------------------------------- all headers

  /** The start of a line. */
  predicate LineAt(t: string, k: int) {
    k == 0 || CrlfAt(t, k - 2)
  }

  /** The start of a line that comes before the first empty one. */
  ghost predicate HeaderLineAt(t: string, k: int) {
    0 <= k < |t| && LineAt(t, k) && forall j :: 0 <= j <= k && LineAt(t, j) ==> !CrlfAt(t, j)
  }

  /** Some header line has no CRLF from the second character behind the next colon on. */
  ghost predicate DanglingHeader(t: string) {
    exists k :: HeaderLineAt(t, k) && UnendedColon(t, k)
  }

  lemma ColonMoves(t: string, p: nat, k: nat, q: nat, c: nat)
    requires p <= |t| && q == p + k && c >= p
    ensures FirstColon(t[p..], k, c - p) <==> FirstColon(t, q, c)
    ensures NoCrlfFrom(t[p..], c - p + 2) <==> NoCrlfFrom(t, c + 2)
  {
    var u := t[p..];
    forall j ensures j >= p ==> (CrlfAt(t, j) <==> CrlfAt(u, j - p)) {
    }
    if NoCrlfFrom(u, c - p + 2) {
      forall j | j >= c + 2 ensures !CrlfAt(t, j) {
        assert !CrlfAt(u, j - p);
      }
    }
    if NoCrlfFrom(t, c + 2) {
      forall j | j >= c - p + 2 ensures !CrlfAt(u, j) {
        assert !CrlfAt(t, j + p);
      }
    }
    if FirstColon(u, k, c - p) {
      forall j | q <= j < c ensures t[j] != ':' {
        assert u[j - p] == t[j];
      }
    }
  }

  lemma ColonShifts(t: string, p: nat, k: nat, q: nat)
    requires p <= |t| && q == p + k
    ensures UnendedColon(t[p..], k) <==> UnendedColon(t, q)
  {
    if UnendedColon(t[p..], k) {
      var c :| FirstColon(t[p..], k, c) && NoCrlfFrom(t[p..], c + 2);
      ColonMoves(t, p, k, q, c + p);
    }
    if UnendedColon(t, q) {
      var c :| FirstColon(t, q, c) && NoCrlfFrom(t, c + 2);
      ColonMoves(t, p, k, q, c);
    }
  }

  /** Behind the first line the line starts are those of the remaining text. */
  lemma LineShifts(t: string, e: nat, k: int)
    requires FindCrlf(t) == Some(e) && k >= e + 2
    ensures LineAt(t, k) <==> LineAt(t[e + 2..], k - e - 2)
  {
    assert !CrlfAt(t, e + 1);
  }

  lemma HeaderLineShifts(t: string, e: nat, k: nat)
    requires FindCrlf(t) == Some(e) && !CrlfAt(t, 0) && k >= e + 2
    ensures HeaderLineAt(t, k) <==> HeaderLineAt(t[e + 2..], k - e - 2)
  {
    var u, p := t[e + 2..], e + 2;
    LineShifts(t, e, k);
    if HeaderLineAt(t, k) {
      forall j | 0 <= j <= k - p && LineAt(u, j) ensures !CrlfAt(u, j) {
        LineShifts(t, e, j + p);
      }
    }
    if HeaderLineAt(u, k - p) {
      forall j | 0 <= j <= k && LineAt(t, j) ensures !CrlfAt(t, j) {
        if j >= p {
          LineShifts(t, e, j);
        }
      }
    }
  }

  lemma FirstLineFirst(t: string, e: nat, k: nat)
    requires FindCrlf(t) == Some(e) && LineAt(t, k)
    ensures k == 0 || k >= e + 2
  {
  }

  lemma DanglingLater(t: string, e: nat, k: nat)
    requires FindCrlf(t) == Some(e) && !CrlfAt(t, 0) && k >= e + 2
    ensures HeaderLineAt(t, k) && UnendedColon(t, k)
       <==> HeaderLineAt(t[e + 2..], k - e - 2) && UnendedColon(t[e + 2..], k - e - 2)
  {
    HeaderLineShifts(t, e, k);
    ColonShifts(t, e + 2, k - e - 2, k);
  }

  /** Dangling headers are those of the first line or of the remaining text. */
  lemma DanglingShifts(t: string, e: nat)
    requires FindCrlf(t) == Some(e) && t != "" && !CrlfAt(t, 0)
    ensures DanglingHeader(t) <==> UnendedColon(t, 0) || DanglingHeader(t[e + 2..])
  {
    var u, p := t[e + 2..], e + 2;
    if DanglingHeader(t) {
      var k :| HeaderLineAt(t, k) && UnendedColon(t, k);
      FirstLineFirst(t, e, k);
      if k > 0 {
        DanglingLater(t, e, k);
      }
    }
    if DanglingHeader(u) {
      var k :| HeaderLineAt(u, k) && UnendedColon(u, k);
      DanglingLater(t, e, k + p);
    }
    if UnendedColon(t, 0) {
      assert HeaderLineAt(t, 0);
    }
  }

  lemma NoColonNoDangling(t: string)
    requires ':' !in t
    ensures !DanglingHeader(t)
  {
    forall k ensures !UnendedColon(t, k) {
      forall c ensures !FirstColon(t, k, c) {
      }
    }
  }

  lemma AtTheEnd(t: string)
    requires t == "" || CrlfAt(t, 0)
    ensures !DanglingHeader(t)
  {
    assert forall k :: HeaderLineAt(t, k) ==> LineAt(t, 0);
  }

  lemma FirstDangles(t: string)
    requires t != "" && !CrlfAt(t, 0) && UnendedColon(t, 0)
    ensures DanglingHeader(t)
  {
    assert HeaderLineAt(t, 0);
  }

  lemma RejectedHasNone(t: string)
    requires ParseHeader(t) == Rejected
    ensures !DanglingHeader(t)
  {
    FindColon(t);
    NoColonNoDangling(t);
  }

  /** The header loop leaves the text exactly when some header line dangles. */
  ghost predicate LeavesIff(t: string, h: seq<Header>) {
    ParseHeaders(t, h) == Undefined <==> DanglingHeader(t)
  }

  lemma ParsedTurn(t: string, h: seq<Header>, rest: string)
    requires t != "" && !CrlfAt(t, 0) && ParseHeader(t).Parsed? && FindCrlf(t).Some?
    requires FindCrlf(t).value + 2 <= |t| && rest == t[FindCrlf(t).value + 2..]
    requires ParseHeaders(t, h) == ParseHeaders(rest, SetHeader(h, ParseHeader(t).value))
    requires LeavesIff(rest, SetHeader(h, ParseHeader(t).value))
    ensures LeavesIff(t, h)
  {
    TurnLeavesIff(t, h, FindCrlf(t).value, rest, SetHeader(h, ParseHeader(t).value));
  }

  lemma TurnLeavesIff(t: string, h: seq<Header>, p: nat, rest: string, h': seq<Header>)
    requires t != "" && !CrlfAt(t, 0) && ParseHeader(t) != Undefined
    requires FindCrlf(t) == Some(p) && p + 2 <= |t| && rest == t[p + 2..]
    requires ParseHeaders(t, h) == ParseHeaders(rest, h') && LeavesIff(rest, h')
    ensures LeavesIff(t, h)
  {
    DanglingBehind(t, p, rest);
  }

  lemma DanglingBehind(t: string, p: nat, rest: string)
    requires t != "" && !CrlfAt(t, 0) && ParseHeader(t) != Undefined
    requires FindCrlf(t) == Some(p) && p + 2 <= |t| && rest == t[p + 2..]
    ensures DanglingHeader(t) <==> DanglingHeader(rest)
  {
    HeaderUndefinedIff(t);
    DanglingShifts(t, p);
  }

  lemma UnparsedTurn(t: string, h: seq<Header>)
    requires t != "" && !CrlfAt(t, 0) && !ParseHeader(t).Parsed?
    ensures LeavesIff(t, h)
  {
    OneTurn(t, h);
    HeaderUndefinedIff(t);
    if ParseHeader(t) == Undefined {
      FirstDangles(t);
    } else {
      RejectedHasNone(t);
    }
  }

  /** The header loop leaves the text exactly when some header line dangles, whatever was
      read before. */
  lemma {:induction false} HeadersUndefinedIff(t: string, h: seq<Header>)
    ensures LeavesIff(t, h)
    decreases |t|
  {
    if t == "" || CrlfAt(t, 0) {
      AtTheEnd(t);
    } else if ParseHeader(t).Parsed? {
      OneTurn(t, h);
      var rest := t[FindCrlf(t).value + 2..];
      HeadersUndefinedIff(rest, SetHeader(h, ParseHeader(t).value));
      ParsedTurn(t, h, rest);
    } else {
      UnparsedTurn(t, h);
    }
  }

  // ---------------------------------------------------------------- the whole input

  lemma BlankHasCrlf(t: string)
    requires HasBlankLine(t)
    ensures FindCrlf(t).Some?
  {
  }

  /** The line does not end with its address, and behind a line of the accepted form no
      header line dangles. */
  ghost predicate PartsStayInside(l: string, rest: string) {
    !AddressLast(l) && (LineForm(l) ==> !DanglingHeader(rest))
  }

  lemma PartsUndefinedIff(l: string, rest: string)
    ensures Combined(ParseLine(l), ParseHeaders(rest, [])) == Undefined <==> !PartsStayInside(l, rest)
  {
    AddressLastIff(l);
    LineFormIff(l);
    HeadersUndefinedIff(rest, []);
  }

  /** The string in the input has a blank line, and its first line ends at `e`. */
  ghost predicate LineEndsAt(input: string, t: string, e: nat) {
    t == UpToNul(input) && HasBlankLine(t) && FindCrlf(t) == Some(e) && e + 2 <= |t|
  }

  /** The input gets as far as its first line, which ends at `e`. */
  ghost predicate LooksAt(input: string, t: string, e: nat) {
    MIN_REQ_LEN <= |input| <= MAX_REQ_LEN && LineEndsAt(input, t, e)
  }

  /** The input keeps the parser inside its strings, as a condition on the text alone: if it
      is looked at, its line does not end with the address, and if the line is of the form
      that is accepted, no header line dangles. */
  ghost predicate StaysInside(input: string) {
    forall t, e | LooksAt(input, t, e) :: PartsStayInside(t[..e], t[e + 2..])
  }

  lemma UndefinedIff(input: string)
    ensures Parse(input) == Undefined <==> !StaysInside(input)
  {
    if t, e :| LooksAt(input, t, e) {
      LookedAt(input, t, e, t[..e], t[e + 2..]);
    } else {
      NotLookedAt(input);
    }
  }

  lemma LookedAt(input: string, t: string, e: nat, l: string, rest: string)
    requires LooksAt(input, t, e) && l == t[..e] && rest == t[e + 2..]
    ensures Parse(input) == Undefined <==> !StaysInside(input)
  {
    InputMeans(input, t, e);
    PartsUndefinedIff(l, rest);
    StaysIff(input, t, e);
  }

  lemma StaysIff(input: string, t: string, e: nat)
    requires LooksAt(input, t, e)
    ensures StaysInside(input) <==> PartsStayInside(t[..e], t[e + 2..])
  {
  }

  lemma NotLookedAt(input: string)
    requires forall t, e :: !LooksAt(input, t, e)
    ensures Parse(input) == Rejected
  {
    var t := UpToNul(input);
    if MIN_REQ_LEN <= |input| <= MAX_REQ_LEN && HasBlankLine(t) {
      BlankHasCrlf(t);
      var e := FindCrlf(t).value;
      assert LooksAt(input, t, e);
    }
  }

  // ---------------------------------------------------------------- a simple sufficient condition

  /** The text is at its empty line, or has one further down. */
  ghost predicate BlankAhead(t: string) {
    CrlfAt(t, 0) || exists i :: CrlfAt(t, i) && CrlfAt(t, i + 2)
  }

  lemma BlankStaysAhead(t: string, e: nat)
    requires BlankAhead(t) && !CrlfAt(t, 0) && FindCrlf(t) == Some(e)
    ensures BlankAhead(t[e + 2..])
  {
    var u := t[e + 2..];
    var i :| CrlfAt(t, i) && CrlfAt(t, i + 2);
    if i == e {
      assert CrlfAt(u, 0);
    } else {
      assert CrlfAt(u, i - e - 2) && CrlfAt(u, i - e - 2 + 2);
    }
  }

  lemma EndedColon(t: string)
    requires BlankAhead(t) && t != "" && !CrlfAt(t, 0)
    requires FindCrlf(t).Some? && ':' in t[..FindCrlf(t).value]
    ensures !UnendedColon(t, 0)
  {
    var e := FindCrlf(t).value;
    var i :| CrlfAt(t, i) && CrlfAt(t, i + 2);
    FindCharWithin(t, ':', e);
    FindColon(t);
    forall c | FirstColon(t, 0, c) ensures !NoCrlfFrom(t, c + 2) {
      SameColon(t, 0, c, FindChar(t, ':').value);
      assert c < e && i >= e && CrlfAt(t, i + 2);
    }
  }

  lemma {:induction false} ColonsEnd(t: string)
    requires ColonLines(t) && BlankAhead(t)
    ensures !DanglingHeader(t)
    decreases |t|
  {
    if t == "" || CrlfAt(t, 0) {
      AtTheEnd(t);
    } else {
      assert FindCrlf(t).Some?;
      var e := FindCrlf(t).value;
      EndedColon(t);
      BlankStaysAhead(t, e);
      ColonsEnd(t[e + 2..]);
      DanglingShifts(t, e);
    }
  }

  /** A space behind the address and a colon in every header line are enough. */
  lemma ColonsStayInside(input: string)
    requires HeaderLinesHaveColons(input)
    requires FindCrlf(UpToNul(input)).Some? ==>
               !AddressLast(UpToNul(input)[..FindCrlf(UpToNul(input)).value])
    ensures StaysInside(input) && Parse(input) != Undefined
  {
    forall t, e | LooksAt(input, t, e) ensures PartsStayInside(t[..e], t[e + 2..]) {
      BlankBehindLine(t, e, t[e + 2..]);
      ColonsEnd(t[e + 2..]);
    }
    UndefinedIff(input);
  }

  lemma BlankBehindLine(t: string, e: nat, u: string)
    requires HasBlankLine(t) && FindCrlf(t) == Some(e) && e + 2 <= |t| && u == t[e + 2..]
    ensures BlankAhead(u)
  {
    var i :| 0 <= i < |t| && CrlfAt(t, i) && CrlfAt(t, i + 2);
    if i == e {
      assert CrlfAt(u, 0);
    } else {
      assert CrlfAt(u, i - e - 2) && CrlfAt(u, i - e - 2 + 2);
    }
  }

  // ---------------------------------------------------------------- inputs that leave it

  lemma LineLeaves(addr: string)
    requires addr != "" && Without(addr, {' '})
    ensures ParseLine("GET" + ([' '] + addr)) == Undefined
  {
    var l := "GET" + ([' '] + addr);
    StrtokFirst("GET", ' ', addr, {' '});
    StrtokLast(addr, {' '});
  }

  /** An input that is looked at: its line and what follows the line. */
  lemma InputParts(l: string, rest: string)
    requires Clean(l) && NUL !in rest
    ensures var t := l + (CRLF + rest);
      UpToNul(t) == t && FindCrlf(t) == Some(|l|) && t[..|l|] == l && t[|l| + 2..] == rest
  {
    FirstCrlf(l, rest);
    assert NUL !in l + (CRLF + rest);
  }

  lemma LineLeavesInput(l: string, rest: string)
    requires Clean(l) && NUL !in rest && ParseLine(l) == Undefined
    requires var t := l + (CRLF + rest); MIN_REQ_LEN <= |t| <= MAX_REQ_LEN && HasBlankLine(t)
    ensures Parse(l + (CRLF + rest)) == Undefined
  {
    InputParts(l, rest);
  }

  lemma HeaderLeavesInput(l: string, rest: string)
    requires Clean(l) && NUL !in rest && ParseLine(l).Parsed? && DanglingHeader(rest)
    requires var t := l + (CRLF + rest); MIN_REQ_LEN <= |t| <= MAX_REQ_LEN && HasBlankLine(t)
    ensures Parse(l + (CRLF + rest)) == Undefined
  {
    InputParts(l, rest);
    HeadersUndefinedIff(rest, []);
  }

  lemma BlankAfter(text: string, first: string, b: string)
    ensures HasBlankLine(text + (CRLF + (first + (CRLF + CRLF + b))))
  {
    var t, n := text + (CRLF + (first + (CRLF + CRLF + b))), |text| + 2 + |first|;
    assert t[n] == '\r' && t[n + 1] == '\n' && t[n + 2] == '\r' && t[n + 3] == '\n';
    assert CrlfAt(t, n) && CrlfAt(t, n + 2);
  }

  lemma BlankAtOnce(text: string)
    ensures HasBlankLine(text + (CRLF + CRLF))
  {
    var t, n := text + (CRLF + CRLF), |text|;
    assert CrlfAt(t, n) && CrlfAt(t, n + 2);
  }

  /** A request line that ends with its address: the version is read behind the line. */
  lemma AddressLastLeaves(addr: string)
    requires addr != "" && Without(addr, {' '}) && Clean(addr) && |addr| + 8 <= MAX_REQ_LEN
    ensures Parse(("GET" + ([' '] + addr)) + (CRLF + CRLF)) == Undefined
  {
    var l := AddressLine(addr);
    LineLeaves(addr);
    BlankAtOnce(l);
    LineLeavesInput(l, CRLF);
  }

  lemma AddressLine(addr: string) returns (l: string)
    requires Clean(addr)
    ensures l == "GET" + ([' '] + addr) && Clean(l) && |l| == |addr| + 4
  {
    l := "GET" + ([' '] + addr);
    NoCrlfConcat(" ", addr);
    NoCrlfConcat("GET", [' '] + addr);
  }

  const LOOSE := "x" + (CRLF + CRLF + "y:z")

  lemma LooseDangles()
    ensures DanglingHeader(LOOSE) && NUL !in LOOSE && |LOOSE| == 8
  {
    assert FirstColon(LOOSE, 0, 6) && NoCrlfFrom(LOOSE, 8);
    assert HeaderLineAt(LOOSE, 0) && UnendedColon(LOOSE, 0);
  }

  lemma LooseAfter(text: string)
    requires Clean(text) && ParseLine(text).Parsed? && |text| + 10 <= MAX_REQ_LEN
    ensures Parse(text + (CRLF + LOOSE)) == Undefined
  {
    LooseDangles();
    BlankAfter(text, "x", "y:z");
    HeaderLeavesInput(text, LOOSE);
  }

  /** A header line without a colon, the empty line, and then a colon with no CRLF behind
      it: the end of the value is looked for behind the text. */
  lemma LooseColonLeaves(l: RequestLine)
    requires WellFormedLine(l) && |LineText(l)| + 10 <= MAX_REQ_LEN
    ensures Parse(LineText(l) + (CRLF + LOOSE)) == Undefined
  {
    LineTextClean(l);
    ParsesLine(l);
    LooseAfter(LineText(l));
  }
}
