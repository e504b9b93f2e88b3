/** NUL-terminated strings in character buffers, and the C library functions the request
    parser relies on: strtok_r on an explicit save index, strstr for CRLF, memcpy. */
module CStrings {
  import opened Options

  const NUL := '\0'
  const CRLF := "\r\n"

  // ---------------------------------------------------------------- strings in buffers

  /** The C string at `p` in `b` is `s`. */
  ghost predicate StrAt(b: seq<char>, p: nat, s: string) {
    p + |s| < |b| && b[p..p + |s|] == s && b[p + |s|] == NUL && NUL !in s
  }

  /** Character by character; the first NUL is the terminator. */
  lemma CharAt(b: seq<char>, p: nat, s: string, k: nat)
    requires StrAt(b, p, s) && k <= |s|
    ensures k < |s| ==> b[p + k] == s[k]
    ensures b[p + k] == NUL <==> k == |s|
  {
    if k < |s| {
      assert b[p..p + |s|][k] == s[k];
      assert s[k] in s;
    }
  }

  lemma StrAtSuffix(b: seq<char>, p: nat, s: string, k: nat)
    requires StrAt(b, p, s) && k <= |s|
    ensures StrAt(b, p + k, s[k..])
  {
    assert b[p + k..p + |s|] == b[p..p + |s|][k..];
  }

  /** Writing a NUL into a string splits it in two. */
  lemma StrAtCut(b: seq<char>, p: nat, s: string, k: nat)
    requires StrAt(b, p, s) && k < |s|
    ensures StrAt(b[p + k := NUL], p, s[..k])
    ensures StrAt(b[p + k := NUL], p + k + 1, s[k + 1..])
  {
    var b' := b[p + k := NUL];
    assert b'[p..p + k] == b[p..p + |s|][..k];
    assert b'[p + k + 1..p + |s|] == b[p..p + |s|][k + 1..];
  }

  /** A write outside a string and its terminator does not touch it. */
  lemma StrAtElsewhere(b: seq<char>, p: nat, s: string, w: nat)
    requires StrAt(b, p, s) && w < |b| && (w < p || p + |s| < w)
    ensures StrAt(b[w := NUL], p, s)
  {
    assert b[w := NUL][p..p + |s|] == b[p..p + |s|];
  }

  /** The string stored in a buffer up to its first NUL. */
  function UpToNul(b: seq<char>): (s: string)
    ensures NUL !in s && |s| <= |b|
    ensures NUL !in b ==> s == b
  {
    if b == [] || b[0] == NUL then "" else [b[0]] + UpToNul(b[1..])
  }

  lemma {:induction false} UpToNulEnds(b: seq<char>)
    ensures |UpToNul(b)| <= |b| && UpToNul(b) == b[..|UpToNul(b)|]
    ensures |UpToNul(b)| < |b| ==> b[|UpToNul(b)|] == NUL
  {
    if b != [] && b[0] != NUL {
      UpToNulEnds(b[1..]);
      var n := |UpToNul(b[1..])|;
      assert [b[0]] + b[1..][..n] == b[..n + 1];
    }
  }

  // ---------------------------------------------------------------- strtok_r

  /** The outcome of strtok_r on the string it starts from: how many delimiters it skips,
      the token, whether a delimiter was found after it and overwritten, and the string
      the save pointer is left at. */
  datatype Token = NoToken | Token(skipped: nat, text: string, cut: bool, rest: string)

  /** Length of the longest prefix of delimiters. */
  function Span(s: string, delims: set<char>): (n: nat)
    ensures n <= |s| && (n < |s| ==> s[n] !in delims)
    ensures forall i :: 0 <= i < n ==> s[i] in delims
  {
    if s == "" || s[0] !in delims then 0 else 1 + Span(s[1..], delims)
  }

  /** Length of the longest prefix without delimiters. */
  function ComplementSpan(s: string, delims: set<char>): (n: nat)
    ensures n <= |s| && (n < |s| ==> s[n] in delims)
    ensures forall i :: 0 <= i < n ==> s[i] !in delims
  {
    if s == "" || s[0] in delims then 0 else 1 + ComplementSpan(s[1..], delims)
  }

  function Strtok(s: string, delims: set<char>): Token {
    var skip := Span(s, delims);
    if skip == |s| then NoToken
    else
      var n := ComplementSpan(s[skip..], delims);
      if skip + n == |s| then Token(skip, s[skip..], false, "")
      else Token(skip, s[skip..skip + n], true, s[skip + n + 1..])
  }

  ghost predicate IsSpan(s: string, delims: set<char>, n: nat) {
    n <= |s| && (n < |s| ==> s[n] !in delims) && forall i :: 0 <= i < n ==> s[i] in delims
  }

  ghost predicate IsComplementSpan(s: string, delims: set<char>, n: nat) {
    n <= |s| && (n < |s| ==> s[n] in delims) && forall i :: 0 <= i < n ==> s[i] !in delims
  }

  lemma SpanIs(s: string, delims: set<char>, n: nat)
    requires n <= |s| && (n < |s| ==> s[n] !in delims)
    requires forall i :: 0 <= i < n ==> s[i] in delims
    ensures Span(s, delims) == n
  {
  }

  lemma ComplementSpanIs(s: string, delims: set<char>, n: nat)
    requires n <= |s| && (n < |s| ==> s[n] in delims)
    requires forall i :: 0 <= i < n ==> s[i] !in delims
    ensures ComplementSpan(s, delims) == n
  {
  }

  ghost predicate Without(s: string, delims: set<char>) {
    forall i :: 0 <= i < |s| ==> s[i] !in delims
  }

  /** A token followed by a delimiter. */
  lemma StrtokCut(lead: string, text: string, d: char, rest: string, delims: set<char>)
    requires forall i :: 0 <= i < |lead| ==> lead[i] in delims
    requires text != "" && Without(text, delims) && d in delims
    ensures Strtok(lead + (text + ([d] + rest)), delims) == Token(|lead|, text, true, rest)
  {
    var s := lead + (text + ([d] + rest));
    assert s[|lead|] == text[0];
    SpanIs(s, delims, |lead|);
    assert s[|lead|..] == text + ([d] + rest);
    ComplementSpanIs(s[|lead|..], delims, |text|);
  }

  /** A token at the very start. */
  lemma StrtokFirst(text: string, d: char, rest: string, delims: set<char>)
    requires text != "" && Without(text, delims) && d in delims
    ensures Strtok(text + ([d] + rest), delims) == Token(0, text, true, rest)
  {
    StrtokCut("", text, d, rest, delims);
    assert "" + (text + ([d] + rest)) == text + ([d] + rest);
  }

  /** A last token. */
  lemma StrtokLast(text: string, delims: set<char>)
    requires text != "" && Without(text, delims)
    ensures Strtok(text, delims) == Token(0, text, false, "")
  {
    SpanIs(text, delims, 0);
    ComplementSpanIs(text[0..], delims, |text|);
  }

  /** A last token behind delimiters. */
  lemma StrtokEnd(lead: string, text: string, delims: set<char>)
    requires forall i :: 0 <= i < |lead| ==> lead[i] in delims
    requires text != "" && Without(text, delims)
    ensures Strtok(lead + text, delims) == Token(|lead|, text, false, "")
  {
    var s := lead + text;
    assert s[|lead|] == text[0];
    SpanIs(s, delims, |lead|);
    assert s[|lead|..] == text;
    ComplementSpanIs(text, delims, |text|);
  }

  /** What a token is: a non-empty piece free of delimiters, from `skipped` on, with the
      remainder behind it. */
  lemma StrtokPieces(s: string, delims: set<char>)
    requires Strtok(s, delims).Token?
    ensures var t := Strtok(s, delims); var e := t.skipped + |t.text|;
      && t.text != "" && Without(t.text, delims)
      && e <= |s| && t.text == s[t.skipped..e]
      && (if t.cut then e < |s| && s[e] in delims && t.rest == s[e + 1..]
          else e == |s| && t.rest == "")
  {
    var skip, n := TokenShape(s, delims);
    TokenPieces(s, skip, s[skip..], n, delims);
  }

  lemma TokenShape(s: string, delims: set<char>) returns (skip: nat, n: nat)
    requires Strtok(s, delims).Token?
    ensures skip < |s| && n > 0 && IsComplementSpan(s[skip..], delims, n)
    ensures var t := Strtok(s, delims);
      && t.skipped == skip && t.text == s[skip..skip + n] && |t.text| == n
      && (t.cut <==> skip + n < |s|) && t.rest == if t.cut then s[skip + n + 1..] else ""
  {
    skip := Span(s, delims);
    n := ComplementSpan(s[skip..], delims);
    FirstInToken(s[skip..], delims);
  }

  lemma TokenPieces(s: string, skip: nat, u: string, n: nat, delims: set<char>)
    requires skip <= |s| && u == s[skip..] && IsComplementSpan(u, delims, n)
    ensures skip + n <= |s| && Without(s[skip..skip + n], delims)
    ensures skip + n == |s| ==> u == s[skip..skip + n]
    ensures skip + n < |s| ==> s[skip + n] in delims
  {
    assert s[skip..skip + n] == u[..n];
  }

  lemma FirstInToken(u: string, delims: set<char>)
    requires u != "" && u[0] !in delims
    ensures ComplementSpan(u, delims) > 0
  {
  }

  /** strspn */
  method SkipDelims(buf: array<char>, start: nat, delims: set<char>, ghost s: string)
    returns (p: nat)
    requires StrAt(buf[..], start, s) && NUL !in delims
    ensures start <= p && IsSpan(s, delims, p - start)
  {
    p := start;
    CharAt(buf[..], start, s, 0);
    while buf[p] in delims
      invariant start <= p <= start + |s| && StrAt(buf[..], start, s)
      invariant forall i :: 0 <= i < p - start ==> s[i] in delims
      invariant p < start + |s| ==> buf[p] == s[p - start]
      invariant p == start + |s| ==> buf[p] == NUL
      decreases start + |s| - p
    {
      p := p + 1;
      CharAt(buf[..], start, s, p - start);
    }
  }

  /** strcspn */
  method TokenEnd(buf: array<char>, start: nat, delims: set<char>, ghost s: string)
    returns (e: nat)
    requires StrAt(buf[..], start, s)
    ensures start <= e && IsComplementSpan(s, delims, e - start)
  {
    e := start;
    CharAt(buf[..], start, s, 0);
    while buf[e] != NUL && buf[e] !in delims
      invariant start <= e <= start + |s| && StrAt(buf[..], start, s)
      invariant forall i :: 0 <= i < e - start ==> s[i] !in delims
      invariant e < start + |s| ==> buf[e] == s[e - start]
      invariant buf[e] == NUL <==> e == start + |s|
      decreases start + |s| - e
    {
      e := e + 1;
      CharAt(buf[..], start, s, e - start);
    }
  }

  /** The effect of a found token on the buffer: a NUL behind it, the token at `p`, and the
      remainder at the saved index. */
  ghost predicate TokenCut(b: seq<char>, b': seq<char>, start: nat, len: nat, t: Token,
                           p: nat, save: nat)
  {
    && t.Token? && t.text != "" && p == start + t.skipped
    && p + |t.text| <= start + len
    && save == p + |t.text| + (if t.cut then 1 else 0)
    && (t.cut ==> save <= start + len) && (!t.cut ==> t.rest == "" && save == start + len)
    && p + |t.text| < |b| && b' == b[p + |t.text| := NUL]
    && StrAt(b', p, t.text) && StrAt(b', save, t.rest)
  }

  /** `n` characters of the string `u` at `p` are ended by a NUL, and `save` is behind it. */
  ghost predicate Ended(b: seq<char>, b': seq<char>, p: nat, u: string, n: nat, save: nat) {
    && n <= |u| && p + n < |b| && b' == b[p + n := NUL]
    && save == p + n + (if n < |u| then 1 else 0)
    && StrAt(b', p, u[..n]) && StrAt(b', save, if n < |u| then u[n + 1..] else u[n..])
  }

  lemma TokenCutIs(b: seq<char>, b': seq<char>, start: nat, s: string, delims: set<char>,
                   p: nat, u: string, n: nat, save: nat) returns (t: Token)
    requires start <= p < start + |s| && IsSpan(s, delims, p - start) && u == s[p - start..]
    requires IsComplementSpan(u, delims, n) && Ended(b, b', p, u, n, save)
    ensures t == Strtok(s, delims) && TokenCut(b, b', start, |s|, t, p, save)
  {
    t := TokenIs(s, delims, p - start, n);
  }

  /** strtok_r in place, started at `start` (its argument, or the saved index). */
  method StrtokR(buf: array<char>, start: nat, delims: set<char>, ghost s: string)
    returns (tok: Option<nat>, save: nat, ghost t: Token)
    requires StrAt(buf[..], start, s) && NUL !in delims
    modifies buf
    ensures t == Strtok(s, delims) && (tok == None <==> t == NoToken)
    ensures tok == None ==> save == start + |s| && buf[..] == old(buf[..])
    ensures tok.Some? ==> TokenCut(old(buf[..]), buf[..], start, |s|, t, tok.value, save)
  {
    ghost var b := buf[..];
    var p := SkipDelims(buf, start, delims, s);
    CharAt(b, start, s, p - start);
    if buf[p] == NUL {
      NoTokenIs(s, delims);
      return None, p, NoToken;
    }
    tok := Some(p);
    save, t := CutFound(buf, start, p, delims, s);
  }

  /** The token that starts at `p`, behind the delimiters that were skipped. */
  method CutFound(buf: array<char>, ghost start: nat, p: nat, delims: set<char>, ghost s: string)
    returns (save: nat, ghost t: Token)
    requires StrAt(buf[..], start, s) && NUL !in delims
    requires start <= p < start + |s| && IsSpan(s, delims, p - start)
    modifies buf
    ensures t == Strtok(s, delims) && TokenCut(old(buf[..]), buf[..], start, |s|, t, p, save)
  {
    ghost var b, u, n := buf[..], s[p - start..], 0;
    StrAtSuffix(b, start, s, p - start);
    save, n := CutToken(buf, p, delims, u);
    ghost var b' := buf[..];
    t := TokenCutIs(b, b', start, s, delims, p, u, n, save);
  }

  /** Ends the token that starts at `p` and steps over its delimiter, if there is one. */
  method CutToken(buf: array<char>, p: nat, delims: set<char>, ghost u: string)
    returns (save: nat, ghost n: nat)
    requires StrAt(buf[..], p, u) && NUL !in delims
    modifies buf
    ensures IsComplementSpan(u, delims, n) && Ended(old(buf[..]), buf[..], p, u, n, save)
  {
    ghost var b := buf[..];
    var e := TokenEnd(buf, p, delims, u);
    n := e - p;
    CharAt(b, p, u, n);
    save := e;
    if buf[e] != NUL {
      StrAtCut(b, p, u, n);
      buf[e] := NUL;
      save := e + 1;
    } else {
      StrAtSuffix(b, p, u, n);
      assert u[..n] == u;
    }
    assert buf[..] == b[e := NUL];
  }

  lemma NoTokenIs(s: string, delims: set<char>)
    requires IsSpan(s, delims, |s|)
    ensures Strtok(s, delims) == NoToken
  {
    SpanIs(s, delims, |s|);
  }

  lemma TokenIs(s: string, delims: set<char>, skip: nat, n: nat) returns (t: Token)
    requires IsSpan(s, delims, skip) && skip < |s| && IsComplementSpan(s[skip..], delims, n)
    ensures t == Strtok(s, delims) && t.Token?
    ensures t.skipped == skip && t.text == s[skip..][..n] != "" && |t.text| == n
    ensures skip + n <= |s| && (t.cut <==> n < |s[skip..]|)
    ensures t.rest == (if t.cut then s[skip..][n + 1..] else s[skip..][n..])
    ensures !t.cut ==> t.rest == "" && skip + n == |s|
  {
    SpanIs(s, delims, skip);
    ComplementSpanIs(s[skip..], delims, n);
    t := Strtok(s, delims);
    assert s[skip..][..n] == s[skip..skip + n];
    if skip + n < |s| {
      assert s[skip..][n + 1..] == s[skip + n + 1..];
    }
  }

  /** Reads the C string at `p`. */
  method ReadString(buf: array<char>, p: nat, ghost s: string) returns (r: string)
    requires StrAt(buf[..], p, s)
    ensures r == s
  {
    r := "";
    CharAt(buf[..], p, s, 0);
    while buf[p + |r|] != NUL
      invariant |r| <= |s| && r == s[..|r|] && StrAt(buf[..], p, s)
      invariant |r| < |s| ==> buf[p + |r|] == s[|r|]
      invariant buf[p + |r|] == NUL <==> |r| == |s|
      decreases |s| - |r|
    {
      assert s[..|r| + 1] == s[..|r|] + [s[|r|]];
      r := r + [buf[p + |r|]];
      CharAt(buf[..], p, s, |r|);
    }
  }

  /** The buffer with `s` written over it from `p` on. */
  function Overwrite(b: seq<char>, p: nat, s: string): (r: seq<char>)
    requires p + |s| <= |b|
    ensures |r| == |b|
  {
    b[..p] + s + b[p + |s|..]
  }

  /** Two adjacent writes are one. */
  lemma OverwriteTwice(b: seq<char>, p: nat, s: string, t: string)
    requires p + |s| + |t| <= |b|
    ensures Overwrite(Overwrite(b, p, s), p + |s|, t) == Overwrite(b, p, s + t)
  {
    var m := Overwrite(b, p, s);
    assert m[..p + |s|] == b[..p] + s;
    assert m[p + |s| + |t|..] == b[p + |s| + |t|..];
  }

  /** memcpy of a string into a buffer. */
  method CopyInto(buf: array<char>, p: nat, s: string)
    requires p + |s| <= buf.Length
    modifies buf
    ensures buf[..] == Overwrite(old(buf[..]), p, s)
  {
    for i := 0 to |s|
      invariant buf[..] == old(buf[..p]) + s[..i] + old(buf[p + i..])
    {
      buf[p + i] := s[i];
      assert s[..i + 1] == s[..i] + [s[i]];
    }
  }

  /** malloc, memcpy and a terminating NUL. */
  method NewString(s: string) returns (buf: array<char>)
    requires NUL !in s
    ensures fresh(buf) && buf.Length == |s| + 1 && StrAt(buf[..], 0, s)
  {
    buf := new char[|s| + 1];
    CopyInto(buf, 0, s);
    buf[|s|] := NUL;
    assert buf[0..|s|] == s;
  }

  // ---------------------------------------------------------------- strstr for CRLF

  predicate CrlfAt(s: string, i: int) {
    0 <= i && i + 1 < |s| && s[i] == '\r' && s[i + 1] == '\n'
  }

  ghost predicate NoCrlf(s: string) {
    forall i :: !CrlfAt(s, i)
  }

  /** Position of the first CRLF. */
  function FindCrlf(s: string): (r: Option<nat>)
    ensures r.Some? ==> CrlfAt(s, r.value) && forall i :: i < r.value ==> !CrlfAt(s, i)
    ensures r == None ==> NoCrlf(s)
  {
    if |s| < 2 then None
    else if CrlfAt(s, 0) then Some(0)
    else
      var r := FindCrlf(s[1..]);
      assert forall i :: i > 0 ==> CrlfAt(s, i) == CrlfAt(s[1..], i - 1);
      if r == None then None else Some(1 + r.value)
  }

  /** strstr(s, "\r\n\r\n") != NULL */
  predicate HasBlankLine(s: string) {
    exists i :: 0 <= i < |s| && CrlfAt(s, i) && CrlfAt(s, i + 2)
  }

  lemma FindCrlfIs(s: string, i: nat)
    requires CrlfAt(s, i) && forall j :: j < i ==> !CrlfAt(s, j)
    ensures FindCrlf(s) == Some(i)
  {
  }

  lemma NoCrlfSlice(s: string, lo: nat, hi: nat)
    requires NoCrlf(s) && lo <= hi <= |s|
    ensures NoCrlf(s[lo..hi])
  {
    forall i ensures !CrlfAt(s[lo..hi], i) {
      assert !CrlfAt(s, lo + i);
    }
  }

  lemma NoCrlfConcat(a: string, b: string)
    requires NoCrlf(a) && NoCrlf(b)
    requires a != "" && b != "" ==> !(a[|a| - 1] == '\r' && b[0] == '\n')
    ensures NoCrlf(a + b)
  {
    forall i ensures !CrlfAt(a + b, i) {
      assert !CrlfAt(a, i) && !CrlfAt(b, i - |a|);
    }
  }

  /** The first CRLF after a text without one is right behind it. */
  lemma FirstCrlf(a: string, b: string)
    requires NoCrlf(a)
    ensures FindCrlf(a + (CRLF + b)) == Some(|a|)
  {
    var s := a + (CRLF + b);
    assert CrlfAt(s, |a|);
    forall j | j < |a| ensures !CrlfAt(s, j) {
      assert !CrlfAt(a, j);
    }
    FindCrlfIs(s, |a|);
  }

  /** Position of the first occurrence of a character. */
  function FindChar(s: string, c: char): (r: Option<nat>)
    ensures r.Some? ==> r.value < |s| && s[r.value] == c
    ensures r.Some? ==> forall j :: 0 <= j < r.value ==> s[j] != c
    ensures r == None ==> c !in s
  {
    if s == "" then None
    else if s[0] == c then Some(0)
    else
      var r := FindChar(s[1..], c);
      assert r.Some? ==> forall j :: 1 <= j < 1 + r.value ==> s[j] == s[1..][j - 1];
      if r == None then None else Some(1 + r.value)
  }

  lemma FindCharWithin(s: string, c: char, e: nat)
    requires e <= |s| && c in s[..e]
    ensures FindChar(s, c).Some? && FindChar(s, c).value < e && c !in s[..FindChar(s, c).value]
  {
    var k :| 0 <= k < e && s[..e][k] == c;
    assert s[k] == c;
  }

  lemma {:induction false} FindCharIs(a: string, c: char, b: string)
    requires c !in a
    ensures FindChar(a + ([c] + b), c) == Some(|a|)
  {
    var s := a + ([c] + b);
    if a != "" {
      FindCharIs(a[1..], c, b);
      assert s[1..] == a[1..] + ([c] + b);
      assert a[0] in a;
    }
  }

  // ---------------------------------------------------------------- searching a buffer

  /** A CRLF in a string is one in the buffer that holds it. */
  lemma CrlfInBuffer(b: seq<char>, p: nat, s: string, i: nat)
    requires StrAt(b, p, s) && i < |s|
    ensures CrlfAt(s, i) <==> b[p + i] == '\r' && b[p + i + 1] == '\n'
  {
    CharAt(b, p, s, i);
    CharAt(b, p, s, i + 1);
  }

  /** index(buf + p, c) */
  method ScanChar(buf: array<char>, p: nat, c: char, ghost s: string) returns (r: Option<nat>)
    requires StrAt(buf[..], p, s) && c != NUL
    ensures r == None ==> FindChar(s, c) == None
    ensures r.Some? ==> r.value >= p && FindChar(s, c) == Some(r.value - p)
  {
    var e := TokenEnd(buf, p, {c}, s);
    CharAt(buf[..], p, s, e - p);
    FindCharAt(s, c, e - p);
    r := if buf[e] == NUL then None else Some(e);
  }

  lemma FindCharAt(s: string, c: char, n: nat)
    requires IsComplementSpan(s, {c}, n)
    ensures FindChar(s, c) == if n < |s| then Some(n) else None
  {
    if FindChar(s, c).Some? {
      assert s[FindChar(s, c).value] == c;
    }
  }

  /** strstr(buf + p, "\r\n") */
  method ScanCrlf(buf: array<char>, p: nat, ghost s: string) returns (r: Option<nat>)
    requires StrAt(buf[..], p, s)
    ensures r == None ==> FindCrlf(s) == None
    ensures r.Some? ==> r.value >= p && FindCrlf(s) == Some(r.value - p)
  {
    var e := p;
    CharAt(buf[..], p, s, 0);
    while buf[e] != NUL
      invariant p <= e <= p + |s| && StrAt(buf[..], p, s)
      invariant forall j :: j < e - p ==> !CrlfAt(s, j)
      invariant buf[e] == NUL <==> e == p + |s|
      decreases p + |s| - e
    {
      CrlfInBuffer(buf[..], p, s, e - p);
      if buf[e] == '\r' && buf[e + 1] == '\n' {
        FindCrlfIs(s, e - p);
        return Some(e);
      }
      e := e + 1;
      CharAt(buf[..], p, s, e - p);
    }
    return None;
  }

  /** strstr(buf, "\r\n\r\n") != NULL */
  method ScanBlankLine(buf: array<char>, ghost s: string) returns (found: bool)
    requires StrAt(buf[..], 0, s)
    ensures found <==> HasBlankLine(s)
  {
    var i := 0;
    CharAt(buf[..], 0, s, 0);
    while buf[i] != NUL
      invariant i <= |s| && StrAt(buf[..], 0, s)
      invariant forall j :: 0 <= j < i ==> !(CrlfAt(s, j) && CrlfAt(s, j + 2))
      invariant buf[i] == NUL <==> i == |s|
      decreases |s| - i
    {
      CrlfInBuffer(buf[..], 0, s, i);
      if buf[i] == '\r' && buf[i + 1] == '\n' {
        CharAt(buf[..], 0, s, i + 2);
        if buf[i + 2] != NUL {
          CrlfInBuffer(buf[..], 0, s, i + 2);
          if buf[i + 2] == '\r' && buf[i + 3] == '\n' {
            return true;
          }
        }
      }
      i := i + 1;
      CharAt(buf[..], 0, s, i);
    }
    return false;
  }
}
