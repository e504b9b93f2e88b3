/** Exactly which inputs the parser accepts, as a condition on their text. */
module Acceptance {
  import opened CStrings
  import opened Headers
  import opened LineForms
  import opened Options
  import opened OutOfBounds
  import opened RequestGrammar

  // ---------------------------------------------------------------- headers

  ghost predicate NoColonFrom(t: string, k: int) {
    forall j :: k <= j < |t| && 0 <= j ==> t[j] != ':'
  }

  ghost predicate ColonlessAt(t: string, k: int) {
    HeaderLineAt(t, k) && NoColonFrom(t, k)
  }

  /** From some header line on there is no colon any more. */
  ghost predicate ColonlessHeader(t: string) {
    exists k :: ColonlessAt(t, k)
  }

  lemma NoColonShifts(t: string, p: nat, u: string, i: nat, k: nat)
    requires p <= |t| && u == t[p..] && k == p + i
    ensures NoColonFrom(u, i) <==> NoColonFrom(t, k)
  {
    if NoColonFrom(u, i) {
      forall j | k <= j < |t| ensures t[j] != ':' {
        assert u[j - p] == t[j];
      }
    }
  }

  /** Behind a line with a colon ahead the condition is that of the remaining text. */
  lemma ColonlessShifts(t: string, e: nat)
    requires FindCrlf(t) == Some(e) && !CrlfAt(t, 0) && e + 2 <= |t| && ':' in t
    ensures ColonlessHeader(t) <==> ColonlessHeader(t[e + 2..])
  {
    if ColonlessHeader(t) {
      ColonlessBehind(t, e);
    }
    if ColonlessHeader(t[e + 2..]) {
      ColonlessInFront(t, e, t[e + 2..]);
    }
  }

  lemma ColonlessInFront(t: string, e: nat, u: string)
    requires FindCrlf(t) == Some(e) && !CrlfAt(t, 0) && e + 2 <= |t| && u == t[e + 2..]
    requires ColonlessHeader(u)
    ensures ColonlessHeader(t)
  {
    var k :| ColonlessAt(u, k);
    ColonlessLater(t, e, k + e + 2);
  }

  lemma ColonlessBehind(t: string, e: nat)
    requires FindCrlf(t) == Some(e) && !CrlfAt(t, 0) && e + 2 <= |t| && ':' in t
    requires ColonlessHeader(t)
    ensures ColonlessHeader(t[e + 2..])
  {
    var k :| ColonlessAt(t, k);
    ColonStarts(t, k);
    FirstLineFirst(t, e, k);
    ColonlessLater(t, e, k);
  }

  lemma ColonStarts(t: string, k: nat)
    requires ':' in t && NoColonFrom(t, k)
    ensures k != 0
  {
  }

  lemma ColonlessLater(t: string, e: nat, k: nat)
    requires FindCrlf(t) == Some(e) && !CrlfAt(t, 0) && e + 2 <= |t| && k >= e + 2
    ensures ColonlessAt(t, k) <==> ColonlessAt(t[e + 2..], k - e - 2)
  {
    HeaderLineShifts(t, e, k);
    NoColonShifts(t, e + 2, t[e + 2..], k - e - 2, k);
  }

  lemma NothingColonless(t: string)
    requires t == "" || CrlfAt(t, 0)
    ensures !ColonlessHeader(t)
  {
    forall k ensures !ColonlessAt(t, k) {
      assert HeaderLineAt(t, k) ==> LineAt(t, 0);
    }
  }

  lemma FirstColonless(t: string)
    requires t != "" && !CrlfAt(t, 0) && ':' !in t
    ensures ColonlessHeader(t)
  {
    assert ColonlessAt(t, 0);
  }

  ghost predicate AcceptsIff(t: string, h: seq<Header>) {
    ParseHeaders(t, h).Parsed? <==> !DanglingHeader(t) && !ColonlessHeader(t)
  }

  lemma ReadTurn(t: string, h: seq<Header>, p: nat, rest: string, h': seq<Header>)
    requires t != "" && !CrlfAt(t, 0) && !UnendedColon(t, 0) && ':' in t
    requires FindCrlf(t) == Some(p) && p + 2 <= |t| && rest == t[p + 2..]
    requires ParseHeaders(t, h) == ParseHeaders(rest, h') && AcceptsIff(rest, h')
    ensures AcceptsIff(t, h)
  {
    DanglingShifts(t, p);
    ColonlessShifts(t, p);
  }

  /** A header that is read has a colon, and a CRLF behind it. */
  lemma ReadHasColon(t: string)
    requires ParseHeader(t).Parsed?
    ensures !UnendedColon(t, 0) && ':' in t
  {
    HeaderUndefinedIff(t);
    FindColon(t);
  }

  lemma UnreadTurn(t: string, h: seq<Header>)
    requires t != "" && !CrlfAt(t, 0) && !ParseHeader(t).Parsed?
    ensures AcceptsIff(t, h)
  {
    OneTurn(t, h);
    if ParseHeader(t) == Undefined {
      HeaderUndefinedIff(t);
      FirstDangles(t);
    } else {
      FindColon(t);
      FirstColonless(t);
    }
  }

  lemma ReadOn(t: string, h: seq<Header>, rest: string, h': seq<Header>)
    requires t != "" && !CrlfAt(t, 0) && !UnendedColon(t, 0) && ':' in t && FindCrlf(t).Some?
    requires FindCrlf(t).value + 2 <= |t| && rest == t[FindCrlf(t).value + 2..]
    requires ParseHeaders(t, h) == ParseHeaders(rest, h') && AcceptsIff(rest, h')
    ensures AcceptsIff(t, h)
  {
    ReadTurn(t, h, FindCrlf(t).value, rest, h');
  }

  /** The header loop accepts exactly when every header line has a colon ahead, and behind
      its colon and one more character a CRLF. */
  lemma {:induction false} HeadersAcceptedIff(t: string, h: seq<Header>)
    ensures AcceptsIff(t, h)
    decreases |t|
  {
    if t == "" || CrlfAt(t, 0) {
      AtTheEnd(t);
      NothingColonless(t);
    } else if ParseHeader(t).Parsed? {
      OneTurn(t, h);
      var rest := t[FindCrlf(t).value + 2..];
      HeadersAcceptedIff(rest, SetHeader(h, ParseHeader(t).value));
      ReadHasColon(t);
      ReadOn(t, h, rest, SetHeader(h, ParseHeader(t).value));
    } else {
      UnreadTurn(t, h);
    }
  }

  // ---------------------------------------------------------------- the whole input

  /** The line has the accepted form, and every header line has a colon ahead and a CRLF
      behind that. */
  ghost predicate AcceptedPieces(l: string, rest: string) {
    LineForm(l) && !DanglingHeader(rest) && !ColonlessHeader(rest)
  }

  lemma PartsAcceptedIff(l: string, rest: string)
    ensures Combined(ParseLine(l), ParseHeaders(rest, [])).Parsed? <==> AcceptedPieces(l, rest)
  {
    LineFormIff(l);
    HeadersAcceptedIff(rest, []);
  }

  ghost predicate AcceptedText(input: string) {
    exists t, e :: LineEndsAt(input, t, e) && AcceptedPieces(t[..e], t[e + 2..])
  }

  /** Exactly the inputs of 4 to 65535 characters with a blank line, a first line of the
      accepted form, and header lines with a colon and a CRLF ahead are accepted. */
  lemma AcceptedIff(input: string)
    ensures Parse(input).Parsed? <==> 4 <= |input| <= 65535 && AcceptedText(input)
  {
    if t, e :| LooksAt(input, t, e) {
      InputMeans(input, t, e);
      PartsAcceptedIff(t[..e], t[e + 2..]);
      OnlyLine(input, t, e);
    } else {
      NotLookedAt(input);
      forall t, e | LineEndsAt(input, t, e) ensures !(4 <= |input| <= 65535) {
        assert !LooksAt(input, t, e);
      }
    }
  }

  lemma OnlyLine(input: string, t: string, e: nat)
    requires LineEndsAt(input, t, e)
    ensures AcceptedText(input) <==> AcceptedPieces(t[..e], t[e + 2..])
  {
  }
}
