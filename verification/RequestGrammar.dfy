/** What the request parser accepts and what the printer prints, on strings; and that the
    printer is inverted by the parser on well-formed requests. */
module RequestGrammar {
  import opened CStrings
  import opened Headers
  import opened Options

  datatype RequestLine = RequestLine(verb: string, protocol: string, host: string,
                                     port: Option<string>, path: string, version: string)

  datatype Request = Request(line: RequestLine, headers: seq<Header>)

  /** `Undefined` is an input on which the code reads outside its buffers. */
  datatype Outcome<+T> = Parsed(value: T) | Rejected | Undefined

  const MAX_REQ_LEN := 65535
  const MIN_REQ_LEN := 4

  // ---------------------------------------------------------------- parsing

  /** The code compares the host with the string `strlen(protocol) + 3` characters into the
      address, after the first token was cut off: its length. */
  function RemainderLength(addr: string, first: Token, version: string): (n: nat)
    requires first.Token? && first.skipped + |first.text| <= |addr| && |version| >= 5
  {
    var k, e := |first.text| + 3, first.skipped + |first.text|;
    if k <= e then e - k
    else if k <= |addr| then |addr| - k
    else |version| - (k - |addr| - 1)
  }

  function HostAndPort(verb: string, protocol: string, authority: string, path: string,
                       version: string): Outcome<RequestLine> {
    match Strtok(authority, {':'})
    case NoToken => Rejected
    case Token(_, host, _, rest) =>
      var port := match Strtok(rest, {'/'}) case NoToken => None case Token(_, p, _, _) => Some(p);
      Parsed(RequestLine(verb, protocol, host, port, path, version))
  }

  /** The path token may not start with a slash; a missing one stands for "/". */
  function PathThenHost(verb: string, protocol: string, authority: string, rest: string,
                        version: string): Outcome<RequestLine> {
    match Strtok(rest, {' '})
    case NoToken => HostAndPort(verb, protocol, authority, "/", version)
    case Token(_, p, _, _) =>
      if "/" <= p then Rejected
      else HostAndPort(verb, protocol, authority, "/" + p, version)
  }

  function ParseAddress(verb: string, addr: string, version: string): Outcome<RequestLine>
    requires |version| >= 5
  {
    var first := Strtok(addr, {':', '/'});
    if first == NoToken then Rejected
    else
      StrtokPieces(addr, {':', '/'});
      match Strtok(first.rest, {'/'})
      case NoToken => Rejected
      case Token(_, authority, _, rest) =>
        if |authority| == RemainderLength(addr, first, version) then Rejected
        else PathThenHost(verb, first.text, authority, rest, version)
  }

  function ParseLine(l: string): Outcome<RequestLine> {
    match Strtok(l, {' '})
    case NoToken => Rejected
    case Token(_, verb, _, rest) =>
      if verb != "GET" then Rejected
      else
        match Strtok(rest, {' '})
        case NoToken => Rejected
        case Token(_, addr, cut, version) =>
          if !cut then Undefined  // the version pointer is past the buffer
          else if !("HTTP/" <= version) then Rejected
          else ParseAddress(verb, addr, version)
  }

  /** One header, read at the start of the remaining text: the key reaches to the first
      colon, the value from two characters further to the next CRLF. */
  function ParseHeader(t: string): Outcome<Header> {
    match FindChar(t, ':')
    case None => Rejected
    case Some(i) =>
      if i + 2 > |t| then Undefined
      else
        match FindCrlf(t[i + 2..])
        case None => Undefined
        case Some(j) => Parsed(Header(t[..i], t[i + 2..][..j]))
  }

  function ParseHeaders(t: string, h: seq<Header>): Outcome<seq<Header>>
    decreases |t|
  {
    if t == "" || CrlfAt(t, 0) then Parsed(h)
    else
      match ParseHeader(t)
      case Rejected => Rejected
      case Undefined => Undefined
      case Parsed(x) =>
        match FindCrlf(t)
        case None => Parsed(SetHeader(h, x))
        case Some(e) => ParseHeaders(t[e + 2..], SetHeader(h, x))
  }

  /** The request line decides first, then the headers. */
  function Combined(line: Outcome<RequestLine>, headers: Outcome<seq<Header>>): Outcome<Request> {
    match line
    case Rejected => Rejected
    case Undefined => Undefined
    case Parsed(l) =>
      match headers
      case Rejected => Rejected
      case Undefined => Undefined
      case Parsed(h) => Parsed(Request(l, h))
  }

  function ParseText(t: string): Outcome<Request> {
    match FindCrlf(t)
    case None => Rejected
    case Some(e) => Combined(ParseLine(t[..e]), ParseHeaders(t[e + 2..], []))
  }

  /** The whole parse of an input buffer by a fresh request object. */
  function Parse(input: string): Outcome<Request> {
    if |input| < MIN_REQ_LEN || |input| > MAX_REQ_LEN then Rejected
    else
      var t := UpToNul(input);
      if !HasBlankLine(t) then Rejected else ParseText(t)
  }

  /** The input gets as far as its headers. */
  predicate LineAccepted(input: string) {
    MIN_REQ_LEN <= |input| <= MAX_REQ_LEN
    && HasBlankLine(UpToNul(input))
    && FindCrlf(UpToNul(input)).Some?
    && ParseLine(UpToNul(input)[..FindCrlf(UpToNul(input)).value]).Parsed?
  }

  lemma InputMeans(input: string, t: string, e: nat)
    requires MIN_REQ_LEN <= |input| <= MAX_REQ_LEN && t == UpToNul(input) && HasBlankLine(t)
    requires FindCrlf(t) == Some(e)
    ensures Parse(input) == Combined(ParseLine(t[..e]), ParseHeaders(t[e + 2..], []))
    ensures LineAccepted(input) <==> ParseLine(t[..e]).Parsed?
  {
  }

  // ---------------------------------------------------------------- printing

  function Authority(l: RequestLine): string {
    if l.port.Some? then l.host + (":" + l.port.value) else l.host
  }

  /** The address in absolute form, with a path that need not be the one in `l`. */
  function AddressWith(l: RequestLine, path: string): string {
    l.protocol + ([':'] + ("//" + (Authority(l) + path)))
  }

  function Address(l: RequestLine): string {
    AddressWith(l, l.path)
  }

  /** The request line without its CRLF. */
  function LineText(l: RequestLine): string {
    l.verb + ([' '] + (Address(l) + ([' '] + l.version)))
  }

  function Unparse(r: Request): string {
    LineText(r.line) + (CRLF + HeadersText(r.headers))
  }

  // ---------------------------------------------------------------- well-formed requests

  /** Text that can travel inside a request. */
  ghost predicate Clean(s: string) {
    NoCrlf(s) && NUL !in s
  }

  ghost predicate WellFormedLine(l: RequestLine) {
    && l.verb == "GET"
    && l.protocol != "" && Without(l.protocol, {':', '/', ' '}) && Clean(l.protocol)
    && l.host != "" && Without(l.host, {':', '/', ' '}) && Clean(l.host)
    && (l.port.Some? ==> l.port.value != "" && Without(l.port.value, {'/', ' '}) && Clean(l.port.value))
    && "/" <= l.path && !("//" <= l.path) && Without(l.path, {' '}) && Clean(l.path)
    && "HTTP/" <= l.version && Clean(l.version)
  }

  ghost predicate WellFormedHeader(x: Header) {
    ':' !in x.key && Clean(x.key) && Clean(x.value)
  }

  ghost predicate WellFormed(r: Request) {
    && WellFormedLine(r.line)
    && DistinctKeys(r.headers)
    && forall i :: 0 <= i < |r.headers| ==> WellFormedHeader(r.headers[i])
  }

  // ---------------------------------------------------------------- parse undoes print

  lemma WithoutConcat(a: string, b: string, d: set<char>)
    requires Without(a, d) && Without(b, d)
    ensures Without(a + b, d)
  {
  }

  lemma ParsesHostAndPort(l: RequestLine)
    requires WellFormedLine(l)
    ensures HostAndPort(l.verb, l.protocol, Authority(l), l.path, l.version) == Parsed(l)
  {
    if l.port.Some? {
      var p := l.port.value;
      StrtokFirst(l.host, ':', p, {':'});
      assert l.host + ([':'] + p) == Authority(l);
      StrtokLast(p, {'/'});
    } else {
      StrtokLast(l.host, {':'});
    }
  }

  lemma AuthorityClean(l: RequestLine)
    requires WellFormedLine(l)
    ensures Authority(l) != "" && Without(Authority(l), {'/', ' '}) && NoCrlf(Authority(l))
    ensures NUL !in Authority(l)
  {
    if l.port.Some? {
      WithoutConcat(":", l.port.value, {'/', ' '});
      WithoutConcat(l.host, ":" + l.port.value, {'/', ' '});
      NoCrlfConcat(":", l.port.value);
      NoCrlfConcat(l.host, ":" + l.port.value);
    }
  }

  lemma SecondSlash(tail: string)
    ensures "//" <= "/" + tail <==> "/" <= tail
  {
    var p := "/" + tail;
    if "/" <= tail {
      assert tail == "/" + tail[1..];
    }
    if "//" <= p {
      assert p[1] == '/' && p[1] == tail[0];
    }
  }

  /** An address without a path: the remainder behind the protocol is the authority alone. */
  lemma NoPathRejected(protocol: string, a: string, version: string)
    requires protocol != "" && Without(protocol, {':', '/'})
    requires a != "" && Without(a, {'/'}) && |version| >= 5
    ensures ParseAddress("GET", protocol + ([':'] + ("//" + a)), version) == Rejected
  {
    var rest := "//" + a;
    var s := protocol + ([':'] + rest);
    StrtokFirst(protocol, ':', rest, {':', '/'});
    StrtokEnd("//", a, {'/'});
    assert RemainderLength(s, Strtok(s, {':', '/'}), version) == |a|;
  }

  /** An address with a path: what follows its first slash decides. */
  lemma WithPath(protocol: string, a: string, tail: string, version: string)
    requires protocol != "" && Without(protocol, {':', '/'})
    requires a != "" && Without(a, {'/'}) && |version| >= 5
    ensures ParseAddress("GET", protocol + ([':'] + ("//" + (a + ("/" + tail)))), version)
         == PathThenHost("GET", protocol, a, tail, version)
  {
    var rest := "//" + (a + (['/'] + tail));
    var s := protocol + ([':'] + rest);
    StrtokFirst(protocol, ':', rest, {':', '/'});
    StrtokCut("//", a, '/', tail, {'/'});
    assert RemainderLength(s, Strtok(s, {':', '/'}), version) == |a| + 1 + |tail|;
  }

  /** The path plays no part in cutting host and port. */
  lemma TargetHost(l: RequestLine, path: string)
    requires WellFormedLine(l)
    ensures HostAndPort("GET", l.protocol, Authority(l), path, l.version) == Parsed(l.(path := path))
  {
    ParsesHostAndPort(l);
  }

  lemma PathDecides(l: RequestLine, tail: string)
    requires WellFormedLine(l) && Without(tail, {' '})
    ensures PathThenHost("GET", l.protocol, Authority(l), tail, l.version)
         == if "/" <= tail then Rejected else Parsed(l.(path := "/" + tail))
  {
    TargetHost(l, "/" + tail);
    if tail != "" {
      StrtokLast(tail, {' '});
    } else {
      assert "/" + tail == "/";
    }
  }

  /** In absolute form the parser accepts exactly the paths that start with one slash and
      not with two; a missing path is refused. */
  lemma AbsoluteFormIff(l: RequestLine, path: string)
    requires WellFormedLine(l) && Without(path, {' '}) && (path == "" || "/" <= path)
    ensures ParseAddress("GET", AddressWith(l, path), l.version)
         == if path == "" || "//" <= path then Rejected else Parsed(l.(path := path))
  {
    AuthorityClean(l);
    if path == "" {
      assert Authority(l) + path == Authority(l);
      NoPathRejected(l.protocol, Authority(l), l.version);
    } else {
      SlashedPath(l, path, path[1..]);
    }
  }

  lemma SlashedPath(l: RequestLine, path: string, tail: string)
    requires WellFormedLine(l) && path == "/" + tail && Without(tail, {' '})
    ensures ParseAddress("GET", AddressWith(l, path), l.version)
         == if "//" <= path then Rejected else Parsed(l.(path := path))
  {
    AuthorityClean(l);
    WithPath(l.protocol, Authority(l), tail, l.version);
    PathDecides(l, tail);
    SecondSlash(tail);
  }

  lemma ParsesAddress(l: RequestLine)
    requires WellFormedLine(l)
    ensures ParseAddress(l.verb, Address(l), l.version) == Parsed(l)
  {
    AbsoluteFormIff(l, l.path);
  }

  lemma AddressWithoutSpace(l: RequestLine)
    requires WellFormedLine(l)
    ensures Address(l) != "" && Without(Address(l), {' '})
  {
    AuthorityClean(l);
    WithoutConcat(Authority(l), l.path, {' '});
    WithoutConcat("//", Authority(l) + l.path, {' '});
    WithoutConcat(":", "//" + (Authority(l) + l.path), {' '});
    WithoutConcat(l.protocol, [':'] + ("//" + (Authority(l) + l.path)), {' '});
  }

  lemma ParsesLine(l: RequestLine)
    requires WellFormedLine(l)
    ensures ParseLine(LineText(l)) == Parsed(l)
  {
    AddressWithoutSpace(l);
    var rest := Address(l) + ([' '] + l.version);
    StrtokFirst(l.verb, ' ', rest, {' '});
    assert l.verb + ([' '] + rest) == LineText(l);
    StrtokFirst(Address(l), ' ', l.version, {' '});
    ParsesAddress(l);
  }

  lemma LineTextClean(l: RequestLine)
    requires WellFormedLine(l)
    ensures Clean(LineText(l))
  {
    AuthorityClean(l);
    var tail := Authority(l) + l.path;
    NoCrlfConcat(Authority(l), l.path);
    NoCrlfConcat("//", tail);
    NoCrlfConcat(":", "//" + tail);
    NoCrlfConcat(l.protocol, [':'] + ("//" + tail));
    NoCrlfConcat(" ", l.version);
    NoCrlfConcat(Address(l), [' '] + l.version);
    NoCrlfConcat(" ", Address(l) + ([' '] + l.version));
    NoCrlfConcat(l.verb, [' '] + (Address(l) + ([' '] + l.version)));
  }

  lemma ParsesKeyAndValue(x: Header, rest: string)
    requires ':' !in x.key && NoCrlf(x.value)
    ensures ParseHeader(HeaderLine(x) + rest) == Parsed(x)
  {
    var after := " " + (x.value + (CRLF + rest));
    assert HeaderLine(x) + rest == x.key + ([':'] + after);
    FirstCrlf(x.value, rest);
    assert after[1..] == x.value + (CRLF + rest) && after[1..][..|x.value|] == x.value;
    ReadsHeader(x.key, after, x.value);
  }

  /** The header read from a key, a colon, one more character and a value. */
  lemma ReadsHeader(key: string, after: string, value: string)
    requires ':' !in key && after != "" && FindCrlf(after[1..]).Some?
    requires value == after[1..][..FindCrlf(after[1..]).value]
    ensures ParseHeader(key + ([':'] + after)) == Parsed(Header(key, value))
  {
    var u := key + ([':'] + after);
    FindCharIs(key, ':', after);
    assert u[|key| + 2..] == after[1..] && u[..|key|] == key;
  }

  lemma HeaderLineEnds(x: Header, rest: string)
    requires NoCrlf(x.key) && NoCrlf(x.value)
    ensures var t := HeaderLine(x) + rest;
      t != "" && !CrlfAt(t, 0) && FindCrlf(t).Some? && t[FindCrlf(t).value + 2..] == rest
  {
    var t := HeaderLine(x) + rest;
    var text := x.key + (": " + x.value);
    NoCrlfConcat(": ", x.value);
    NoCrlfConcat(x.key, ": " + x.value);
    assert t == text + (CRLF + rest);
    FirstCrlf(text, rest);
    assert !CrlfAt(text, 0);
    assert t[|text| + 2..] == rest;
  }

  /** A header with a new key is appended. */
  lemma SetNewKey(done: seq<Header>, h: seq<Header>)
    requires h != [] && DistinctKeys(done + h)
    ensures SetHeader(done, h[0]) == done + [h[0]] && (done + [h[0]]) + h[1..] == done + h
  {
    var all := done + h;
    forall i | 0 <= i < |done| ensures done[i].key != h[0].key {
      assert all[i] == done[i] && all[|done|] == h[0];
    }
    KeyAtIs(done, h[0].key, |done|);
  }

  /** Reading the first printed header line and setting it. */
  lemma ParsesFirstHeader(done: seq<Header>, x: Header, rest: string)
    requires WellFormedHeader(x)
    ensures ParseHeaders(HeaderLine(x) + rest, done) == ParseHeaders(rest, SetHeader(done, x))
  {
    ParsesKeyAndValue(x, rest);
    HeaderLineEnds(x, rest);
  }

  /** Setting the headers of a printed list one after the other rebuilds it. */
  lemma {:induction false} ParsesHeaders(done: seq<Header>, h: seq<Header>)
    requires DistinctKeys(done + h)
    requires forall i :: 0 <= i < |h| ==> WellFormedHeader(h[i])
    ensures ParseHeaders(HeadersText(h), done) == Parsed(done + h)
    decreases |h|
  {
    if h == [] {
      assert HeadersText(h) == CRLF;
      assert done + h == done;
    } else {
      var x, rest := h[0], h[1..];
      LinesCons(h);
      assert HeadersText(h) == HeaderLine(x) + HeadersText(rest);
      ParsesFirstHeader(done, x, HeadersText(rest));
      SetNewKey(done, h);
      ParsesHeaders(done + [x], rest);
    }
  }

  lemma LinesConsAppend(first: string, front: seq<Header>, x: Header, all: string)
    requires all == first + Lines(front)
    ensures all + HeaderLine(x) == first + Lines(front + [x])
  {
    LinesAppend(front, x);
  }

  lemma {:induction false} LinesCons(h: seq<Header>)
    requires h != []
    ensures Lines(h) == HeaderLine(h[0]) + Lines(h[1..])
  {
    var n := |h| - 1;
    var front, x := h[..n], h[n];
    assert h == front + [x];
    LinesAppend(front, x);
    if n == 0 {
      assert front == [] && h[1..] == [];
    } else {
      LinesCons(front);
      assert h[1..] == front[1..] + [x];
      LinesConsAppend(HeaderLine(h[0]), front[1..], x, Lines(front));
    }
  }

  lemma {:induction false} LinesClean(h: seq<Header>)
    requires forall i :: 0 <= i < |h| ==> NUL !in h[i].key && NUL !in h[i].value
    ensures NUL !in Lines(h) && (h != [] ==> |Lines(h)| >= 2 && CrlfAt(Lines(h), |Lines(h)| - 2))
  {
    if h != [] {
      LinesClean(h[..|h| - 1]);
    }
  }

  lemma UnparseShape(r: Request)
    requires WellFormedLine(r.line)
    requires forall i :: 0 <= i < |r.headers| ==> NUL !in r.headers[i].key && NUL !in r.headers[i].value
    ensures var t := Unparse(r); |t| >= MIN_REQ_LEN && UpToNul(t) == t && HasBlankLine(t)
  {
    LineTextClean(r.line);
    LinesClean(r.headers);
    var t := Unparse(r);
    var n := |t| - 4;
    if r.headers == [] {
      assert t == LineText(r.line) + (CRLF + CRLF);
    } else {
      var l := Lines(r.headers);
      assert CrlfAt(l, |l| - 2);
      assert t == LineText(r.line) + CRLF + l + CRLF;
    }
    assert CrlfAt(t, n) && CrlfAt(t, n + 2);
  }

  lemma ParsesAllHeaders(h: seq<Header>)
    requires DistinctKeys(h) && forall i :: 0 <= i < |h| ==> WellFormedHeader(h[i])
    ensures ParseHeaders(HeadersText(h), []) == Parsed(h)
  {
    assert [] + h == h;
    ParsesHeaders([], h);
  }

  lemma ParsesParts(t: string, l: string, h: string, line: RequestLine, headers: seq<Header>)
    requires FindCrlf(t) == Some(|l|) && t[..|l|] == l && t[|l| + 2..] == h
    requires ParseLine(l) == Parsed(line) && ParseHeaders(h, []) == Parsed(headers)
    ensures ParseText(t) == Parsed(Request(line, headers))
  {
  }

  lemma UnparseParts(r: Request)
    requires WellFormedLine(r.line)
    ensures var t, l := Unparse(r), LineText(r.line);
      FindCrlf(t) == Some(|l|) && t[..|l|] == l && t[|l| + 2..] == HeadersText(r.headers)
  {
    LineTextClean(r.line);
    FirstCrlf(LineText(r.line), HeadersText(r.headers));
  }

  lemma ParsesText(r: Request, h: seq<Header>)
    requires WellFormedLine(r.line) && ParseHeaders(HeadersText(r.headers), []) == Parsed(h)
    ensures ParseText(Unparse(r)) == Parsed(Request(r.line, h))
  {
    UnparseParts(r);
    ParsesLine(r.line);
    ParsesParts(Unparse(r), LineText(r.line), HeadersText(r.headers), r.line, h);
  }

  /** Parse undoes print: every well-formed request within the length limit is read back
      from its printed form, field for field and header for header. */
  lemma ParseUndoesPrint(r: Request)
    requires WellFormed(r) && |Unparse(r)| <= MAX_REQ_LEN
    ensures Parse(Unparse(r)) == Parsed(r)
  {
    UnparseShape(r);
    ParsesAllHeaders(r.headers);
    ParsesText(r, r.headers);
  }

  // ---------------------------------------------------------------- what parsing yields

  /** Every header line of the remaining text has a colon before its CRLF. */
  predicate ColonLines(t: string)
    decreases |t|
  {
    if t == "" || CrlfAt(t, 0) then true
    else
      match FindCrlf(t)
      case None => ':' in t
      case Some(e) => ':' in t[..e] && ColonLines(t[e + 2..])
  }

  predicate HeaderLinesHaveColons(input: string) {
    var t := UpToNul(input);
    match FindCrlf(t)
    case None => true
    case Some(e) => ColonLines(t[e + 2..])
  }

  lemma CleanSlice(s: string, lo: nat, hi: nat)
    requires Clean(s) && lo <= hi <= |s|
    ensures Clean(s[lo..hi])
  {
    NoCrlfSlice(s, lo, hi);
  }

  /** Tokens and what follows them are clean pieces of a clean string. */
  lemma TokenClean(s: string, delims: set<char>, d: set<char>)
    requires Clean(s) && Without(s, d) && Strtok(s, delims).Token?
    ensures var t := Strtok(s, delims);
      && t.text != "" && Without(t.text, delims + d) && Clean(t.text)
      && Without(t.rest, d) && Clean(t.rest)
  {
    StrtokPieces(s, delims);
    var t := Strtok(s, delims);
    var e := t.skipped + |t.text|;
    CleanSlice(s, t.skipped, e);
    var from := if t.cut then e + 1 else e;
    CleanSlice(s, from, |s|);
    assert t.rest == s[from..|s|];
  }

  lemma HostAndPortWellFormed(verb: string, protocol: string, authority: string, path: string,
                              version: string)
    requires HostAndPort(verb, protocol, authority, path, version).Parsed?
    requires Clean(authority) && Without(authority, {'/', ' '})
    ensures var l := HostAndPort(verb, protocol, authority, path, version).value;
      && l == RequestLine(verb, protocol, l.host, l.port, path, version)
      && l.host != "" && Without(l.host, {':', '/', ' '}) && Clean(l.host)
      && (l.port.Some? ==>
            l.port.value != "" && Without(l.port.value, {'/', ' '}) && Clean(l.port.value))
  {
    TokenClean(authority, {':'}, {'/', ' '});
    var rest := Strtok(authority, {':'}).rest;
    if Strtok(rest, {'/'}).Token? {
      TokenClean(rest, {'/'}, {'/', ' '});
    }
  }

  lemma PathWellFormed(rest: string)
    requires Clean(rest) && Without(rest, {' '})
    requires Strtok(rest, {' '}).Token? && !("/" <= Strtok(rest, {' '}).text)
    ensures var path := "/" + Strtok(rest, {' '}).text;
      "/" <= path && !("//" <= path) && Without(path, {' '}) && Clean(path)
  {
    TokenClean(rest, {' '}, {' '});
    SecondSlash(Strtok(rest, {' '}).text);
    NoCrlfConcat("/", Strtok(rest, {' '}).text);
  }

  lemma AddressWellFormed(verb: string, addr: string, version: string)
    requires verb == "GET" && "HTTP/" <= version && Clean(version)
    requires Clean(addr) && Without(addr, {' '}) && ParseAddress(verb, addr, version).Parsed?
    ensures WellFormedLine(ParseAddress(verb, addr, version).value)
  {
    var first := Strtok(addr, {':', '/'});
    TokenClean(addr, {':', '/'}, {' '});
    TokenClean(first.rest, {'/'}, {' '});
    var second := Strtok(first.rest, {'/'});
    var path := Strtok(second.rest, {' '});
    if path.Token? {
      PathWellFormed(second.rest);
      HostAndPortWellFormed(verb, first.text, second.text, "/" + path.text, version);
    } else {
      HostAndPortWellFormed(verb, first.text, second.text, "/", version);
    }
  }

  lemma LineWellFormed(l: string)
    requires Clean(l) && ParseLine(l).Parsed?
    ensures WellFormedLine(ParseLine(l).value)
  {
    TokenClean(l, {' '}, {});
    var rest := Strtok(l, {' '}).rest;
    TokenClean(rest, {' '}, {});
    AddressWellFormed("GET", Strtok(rest, {' '}).text, Strtok(rest, {' '}).rest);
  }

  lemma BeforeFirstCrlf(t: string)
    requires FindCrlf(t).Some?
    ensures NoCrlf(t[..FindCrlf(t).value])
  {
    var e := FindCrlf(t).value;
    forall i ensures !CrlfAt(t[..e], i) {
      assert i < e ==> !CrlfAt(t, i);
    }
  }

  lemma HeaderWellFormed(t: string)
    requires NUL !in t && FindCrlf(t).Some? && ':' in t[..FindCrlf(t).value]
    requires ParseHeader(t).Parsed?
    ensures WellFormedHeader(ParseHeader(t).value)
  {
    var i, e := FindChar(t, ':').value, FindCrlf(t).value;
    FindCharWithin(t, ':', e);
    BeforeFirstCrlf(t);
    assert t[..i] == t[..e][..i];
    NoCrlfSlice(t[..e], 0, i);
    BeforeFirstCrlf(t[i + 2..]);
  }

  lemma SetWellFormed(h: seq<Header>, x: Header)
    requires DistinctKeys(h) && (forall y :: y in h ==> WellFormedHeader(y)) && WellFormedHeader(x)
    ensures DistinctKeys(SetHeader(h, x)) && forall y :: y in SetHeader(h, x) ==> WellFormedHeader(y)
  {
    SetMeans(h, x, x.key);
    DeleteKeyMeans(h, x.key);
  }

  /** Headers read from a C string are C strings. */
  lemma HeaderNulFree(t: string)
    requires NUL !in t && ParseHeader(t).Parsed?
    ensures NUL !in ParseHeader(t).value.key && NUL !in ParseHeader(t).value.value
  {
  }

  lemma {:induction false} HeadersWellFormed(t: string, h: seq<Header>)
    requires NUL !in t && ColonLines(t) && ParseHeaders(t, h).Parsed?
    requires DistinctKeys(h) && forall y :: y in h ==> WellFormedHeader(y)
    ensures var r := ParseHeaders(t, h).value;
      DistinctKeys(r) && forall y :: y in r ==> WellFormedHeader(y)
    decreases |t|
  {
    if t != "" && !CrlfAt(t, 0) {
      ValueCrlf(t);
      var x := ParseHeader(t).value;
      HeaderWellFormed(t);
      SetWellFormed(h, x);
      HeadersWellFormed(t[FindCrlf(t).value + 2..], SetHeader(h, x));
    }
  }

  /** The CRLF that ends the value is in the text. */
  lemma ValueCrlf(t: string)
    requires ParseHeader(t).Parsed?
    ensures FindCrlf(t).Some?
  {
    var i := FindChar(t, ':').value;
    var j := FindCrlf(t[i + 2..]).value;
    assert CrlfAt(t, i + 2 + j);
  }

  /** The loop body on the remaining text. */
  lemma OneTurn(u: string, h: seq<Header>)
    requires u != "" && !CrlfAt(u, 0)
    ensures ParseHeader(u) == Undefined ==> ParseHeaders(u, h) == Undefined
    ensures ParseHeader(u) == Rejected ==> ParseHeaders(u, h) == Rejected
    ensures ParseHeader(u).Parsed? ==> FindCrlf(u).Some? && FindCrlf(u).value + 2 <= |u|
    ensures ParseHeader(u).Parsed? ==>
      ParseHeaders(u, h)
      == ParseHeaders(u[FindCrlf(u).value + 2..], SetHeader(h, ParseHeader(u).value))
  {
    if ParseHeader(u).Parsed? {
      ValueCrlf(u);
    }
  }

  /** The request line of every accepted input is well-formed. */
  lemma AcceptedLineWellFormed(input: string)
    requires Parse(input).Parsed?
    ensures WellFormedLine(Parse(input).value.line)
  {
    var t := UpToNul(input);
    var e := FindCrlf(t).value;
    BeforeFirstCrlf(t);
    LineWellFormed(t[..e]);
  }

  /** What follows the request line of an accepted input. */
  lemma AcceptedParts(input: string) returns (rest: string)
    requires Parse(input).Parsed?
    ensures WellFormedLine(Parse(input).value.line) && NUL !in rest
    ensures ParseHeaders(rest, []) == Parsed(Parse(input).value.headers)
    ensures HeaderLinesHaveColons(input) <==> ColonLines(rest)
  {
    var t := UpToNul(input);
    AcceptedLineWellFormed(input);
    rest := t[FindCrlf(t).value + 2..];
  }

  /** Whatever is accepted, with a colon in every header line, is a well-formed request. */
  lemma ParsedIsWellFormed(input: string)
    requires Parse(input).Parsed? && HeaderLinesHaveColons(input)
    ensures WellFormed(Parse(input).value)
  {
    var rest := AcceptedParts(input);
    HeadersWellFormed(rest, []);
    AllHeadersWellFormed(Parse(input).value.headers);
  }

  lemma AllHeadersWellFormed(h: seq<Header>)
    requires forall y :: y in h ==> WellFormedHeader(y)
    ensures forall i :: 0 <= i < |h| ==> WellFormedHeader(h[i])
  {
    assert forall i :: 0 <= i < |h| ==> h[i] in h;
  }

  ghost predicate HasKey(h: seq<Header>, key: string) {
    exists i :: 0 <= i < |h| && h[i].key == key
  }

  /** A key once stored never leaves the table. */
  lemma SetKeepsKeys(h: seq<Header>, x: Header, key: string)
    requires HasKey(h, key) || key == x.key
    ensures HasKey(SetHeader(h, x), key)
  {
    var s, k := SetHeader(h, x), KeyAt(h, x.key);
    if key == x.key {
      assert s[|s| - 1].key == key;
    } else {
      var i :| 0 <= i < |h| && h[i].key == key;
      assert s[if k < i then i - 1 else i].key == key;
    }
  }

  lemma {:induction false} KeysStay(t: string, h: seq<Header>, key: string)
    requires HasKey(h, key) && ParseHeaders(t, h).Parsed?
    ensures HasKey(ParseHeaders(t, h).value, key)
    decreases |t|
  {
    if t != "" && !CrlfAt(t, 0) {
      OneTurn(t, h);
      var x := ParseHeader(t).value;
      SetKeepsKeys(h, x, key);
      KeysStay(t[FindCrlf(t).value + 2..], SetHeader(h, x), key);
    }
  }

  lemma KeySpansLines(t: string)
    requires ParseHeader(t).Parsed? && FindCrlf(t).Some? && ':' !in t[..FindCrlf(t).value]
    ensures !NoCrlf(ParseHeader(t).value.key)
  {
    ColonBehindCrlf(t, FindChar(t, ':').value, FindCrlf(t).value);
  }

  /** A text up to a colon that lies behind the first CRLF holds that CRLF. */
  lemma ColonBehindCrlf(t: string, i: nat, e: nat)
    requires i < |t| && t[i] == ':' && CrlfAt(t, e) && ':' !in t[..e]
    ensures !NoCrlf(t[..i])
  {
    forall j | 0 <= j < e
      ensures t[j] != ':'
    {
      assert t[j] == t[..e][j];
    }
    assert CrlfAt(t[..i], e);
  }

  lemma ColonlessFirst(t: string, h: seq<Header>, key: string)
    requires t != "" && !CrlfAt(t, 0) && ParseHeaders(t, h).Parsed?
    requires FindCrlf(t).Some? && ':' !in t[..FindCrlf(t).value]
    requires ParseHeader(t).Parsed? && key == ParseHeader(t).value.key
    ensures HasKey(ParseHeaders(t, h).value, key) && !NoCrlf(key)
  {
    OneTurn(t, h);
    var x := ParseHeader(t).value;
    KeySpansLines(t);
    SetKeepsKeys(h, x, key);
    KeysStay(t[FindCrlf(t).value + 2..], SetHeader(h, x), key);
  }

  lemma FirstParses(t: string, h: seq<Header>)
    requires t != "" && !CrlfAt(t, 0) && ParseHeaders(t, h).Parsed?
    ensures ParseHeader(t).Parsed? && FindCrlf(t).Some? && FindCrlf(t).value + 2 <= |t|
    ensures ParseHeaders(t, h)
         == ParseHeaders(t[FindCrlf(t).value + 2..], SetHeader(h, ParseHeader(t).value))
  {
    OneTurn(t, h);
  }

  lemma ColonLinesFirst(t: string)
    ensures t == "" || CrlfAt(t, 0) ==> ColonLines(t)
    ensures t != "" && !CrlfAt(t, 0) && FindCrlf(t).Some? ==>
      (ColonLines(t) <==> ':' in t[..FindCrlf(t).value] && ColonLines(t[FindCrlf(t).value + 2..]))
  {
  }

  ghost predicate LeavesKey(t: string, h: seq<Header>, key: string) {
    ParseHeaders(t, h).Parsed? && HasKey(ParseHeaders(t, h).value, key) && !NoCrlf(key)
  }

  lemma KeyFromRest(t: string, h: seq<Header>, rest: string, h': seq<Header>, key: string)
    requires ParseHeaders(t, h) == ParseHeaders(rest, h') && LeavesKey(rest, h', key)
    ensures LeavesKey(t, h, key)
  {
  }

  ghost predicate Colonless(t: string, h: seq<Header>) {
    ParseHeaders(t, h).Parsed? && !ColonLines(t)
  }

  lemma ColonlessRest(t: string, h: seq<Header>) returns (rest: string, h': seq<Header>)
    requires Colonless(t, h) && t != "" && !CrlfAt(t, 0) && FindCrlf(t).Some?
    requires ':' in t[..FindCrlf(t).value]
    ensures Colonless(rest, h') && |rest| < |t| && ParseHeaders(t, h) == ParseHeaders(rest, h')
  {
    ColonLinesFirst(t);
    FirstParses(t, h);
    rest, h' := t[FindCrlf(t).value + 2..], SetHeader(h, ParseHeader(t).value);
  }

  lemma ColonlessStart(t: string, h: seq<Header>)
    requires Colonless(t, h)
    ensures t != "" && !CrlfAt(t, 0) && FindCrlf(t).Some? && ParseHeader(t).Parsed?
  {
    ColonLinesFirst(t);
    FirstParses(t, h);
  }

  /** A header line without a colon leaves a key with a CRLF in it behind. */
  lemma {:induction false} ColonlessLeavesKey(t: string, h: seq<Header>) returns (key: string)
    requires Colonless(t, h)
    ensures LeavesKey(t, h, key)
    decreases |t|
  {
    ColonlessStart(t, h);
    if ':' in t[..FindCrlf(t).value] {
      var rest, h' := ColonlessRest(t, h);
      key := ColonlessLeavesKey(rest, h');
      KeyFromRest(t, h, rest, h', key);
    } else {
      key := ParseHeader(t).value.key;
      ColonlessFirst(t, h, key);
    }
  }

  /** An accepted input yields a well-formed request exactly when every header line of it
      has a colon. */
  lemma WellFormedIffColons(input: string)
    requires Parse(input).Parsed?
    ensures WellFormed(Parse(input).value) <==> HeaderLinesHaveColons(input)
  {
    if HeaderLinesHaveColons(input) {
      ParsedIsWellFormed(input);
    } else {
      var rest := AcceptedParts(input);
      var key := ColonlessLeavesKey(rest, []);
      IllFormedKey(Parse(input).value.headers, key);
    }
  }

  lemma IllFormedKey(h: seq<Header>, key: string)
    requires HasKey(h, key) && !NoCrlf(key)
    ensures exists i :: 0 <= i < |h| && !WellFormedHeader(h[i])
  {
    var i :| 0 <= i < |h| && h[i].key == key;
    assert !WellFormedHeader(h[i]);
  }

  lemma {:induction false} PrintedColonLines(h: seq<Header>)
    requires forall i :: 0 <= i < |h| ==> WellFormedHeader(h[i])
    ensures ColonLines(HeadersText(h))
  {
    if h == [] {
      assert HeadersText(h) == CRLF;
    } else {
      LinesCons(h);
      var x, rest := h[0], HeadersText(h[1..]);
      var t := HeaderLine(x) + rest;
      assert HeadersText(h) == t;
      HeaderLineEnds(x, rest);
      PrintedColonLines(h[1..]);
      ColonBeforeEnd(x, rest);
    }
  }

  lemma ColonBeforeEnd(x: Header, rest: string)
    requires WellFormedHeader(x)
    ensures var t := HeaderLine(x) + rest; FindCrlf(t).Some? && ':' in t[..FindCrlf(t).value]
  {
    HeaderLineEnds(x, rest);
    var t := HeaderLine(x) + rest;
    var e := FindCrlf(t).value;
    assert |t| - e - 2 == |rest|;
    assert t[..e][|x.key|] == ':';
  }

  lemma PrintedHasColons(r: Request)
    requires WellFormed(r)
    ensures HeaderLinesHaveColons(Unparse(r))
  {
    var n := PrintedParts(r);
    PrintedColonLines(r.headers);
    ColonsBehind(Unparse(r), n, HeadersText(r.headers));
  }

  lemma LineEnd(r: Request) returns (n: nat)
    requires WellFormedLine(r.line)
    ensures var t := Unparse(r);
      FindCrlf(t) == Some(n) && n + 2 <= |t| && t[n + 2..] == HeadersText(r.headers)
  {
    UnparseParts(r);
    n := FindCrlf(Unparse(r)).value;
  }

  lemma PrintedParts(r: Request) returns (n: nat)
    requires WellFormed(r)
    ensures var t := Unparse(r);
      UpToNul(t) == t && FindCrlf(t) == Some(n) && n + 2 <= |t|
      && t[n + 2..] == HeadersText(r.headers)
  {
    UnparseShape(r);
    n := LineEnd(r);
  }

  lemma ColonsBehind(t: string, e: nat, rest: string)
    requires UpToNul(t) == t && FindCrlf(t) == Some(e) && t[e + 2..] == rest && ColonLines(rest)
    ensures HeaderLinesHaveColons(t)
  {
  }

  /** The well-formed requests are exactly those the parser can produce from an input with
      a colon in every header line, among requests whose printed form fits the limit. */
  lemma WellFormedIffProduced(r: Request)
    requires |Unparse(r)| <= MAX_REQ_LEN
    ensures WellFormed(r)
       <==> exists input :: Parse(input) == Parsed(r) && HeaderLinesHaveColons(input)
  {
    if WellFormed(r) {
      ParseUndoesPrint(r);
      PrintedHasColons(r);
    }
    if input :| Parse(input) == Parsed(r) && HeaderLinesHaveColons(input) {
      ParsedIsWellFormed(input);
    }
  }
}
