/** The request object: its fields are positions in a buffer that strtok_r has cut into
    strings in place, except the path, which has its own storage, and the header table. */
module ProxyParse {
  import opened CStrings
  import opened Headers
  import opened Options
  import opened OutOfBounds
  import opened RequestGrammar

  /** What a caller learns: success, the code's -1, or that the code would now read behind the
      end of a string, where the model stops. */
  datatype Verdict = Accepted | Refused | Outside

  function VerdictOf<T>(o: Outcome<T>): Verdict {
    match o
    case Parsed(_) => Accepted
    case Rejected => Refused
    case Undefined => Outside
  }

  lemma CombinedIs(l: Outcome<RequestLine>, h: Outcome<seq<Header>>,
                   line: RequestLine, headers: seq<Header>)
    ensures l == Parsed(line) && h == Parsed(headers) ==>
              Combined(l, h) == Parsed(Request(line, headers))
    ensures VerdictOf(Combined(l, h)) == if VerdictOf(l) == Accepted then VerdictOf(h) else VerdictOf(l)
  {
  }

  /** Only positions `lo` to `hi` differ. */
  ghost predicate ChangedWithin(b: seq<char>, b': seq<char>, lo: nat, hi: nat) {
    |b'| == |b| && forall i :: 0 <= i < |b| && (i < lo || hi < i) ==> b'[i] == b[i]
  }

  lemma StrAtFramed(b: seq<char>, b': seq<char>, p: nat, s: string, lo: nat, hi: nat)
    requires StrAt(b, p, s) && ChangedWithin(b, b', lo, hi) && (p + |s| < lo || hi < p)
    ensures StrAt(b', p, s)
  {
    assert b'[p..p + |s|] == b[p..p + |s|];
  }

  lemma OneWrite(b: seq<char>, w: nat, lo: nat, hi: nat)
    requires w < |b| && lo <= w <= hi
    ensures ChangedWithin(b, b[w := NUL], lo, hi)
  {
  }

  lemma ChangedTwice(b: seq<char>, b': seq<char>, b'': seq<char>, lo: nat, hi: nat)
    requires ChangedWithin(b, b', lo, hi) && ChangedWithin(b', b'', lo, hi)
    ensures ChangedWithin(b, b'', lo, hi)
  {
  }

  lemma ChangedWider(b: seq<char>, b': seq<char>, lo: nat, hi: nat, lo': nat, hi': nat)
    requires ChangedWithin(b, b', lo, hi) && lo' <= lo && hi <= hi'
    ensures ChangedWithin(b, b', lo', hi')
  {
  }

  lemma ChangedFurther(b: seq<char>, b': seq<char>, b'': seq<char>, lo: nat, hi: nat,
                       lo': nat, hi': nat)
    requires ChangedWithin(b, b', lo, hi) && ChangedWithin(b', b'', lo', hi')
    requires lo <= lo' && hi' <= hi
    ensures ChangedWithin(b, b'', lo, hi)
  {
  }

  // ---------------------------------------------------------------- the request line

  /** `l` starts with the method GET, then address `s`, a space, and version `v`. */
  ghost predicate LineSplits(l: string, s: string, v: string) {
    var t1 := Strtok(l, {' '});
    && t1.Token? && t1.text == "GET"
    && Strtok(t1.rest, {' '}).Token?
    && Strtok(t1.rest, {' '}).text == s && Strtok(t1.rest, {' '}).rest == v
    && Strtok(t1.rest, {' '}).cut && "HTTP/" <= v
  }

  lemma LineMeans(l: string)
    ensures AddressEnds(l) && (forall s, v :: !LineSplits(l, s, v)) ==> ParseLine(l) == Rejected
  {
    LineUndefinedIff(l);
    var t1 := Strtok(l, {' '});
    if t1.Token? && t1.text == "GET" && Strtok(t1.rest, {' '}).Token? {
      var t2 := Strtok(t1.rest, {' '});
      assert t2.cut && "HTTP/" <= t2.rest ==> LineSplits(l, t2.text, t2.rest);
    }
  }

  lemma LineSplitsMeans(l: string, s: string, v: string)
    requires LineSplits(l, s, v)
    ensures |v| >= 5 && ParseLine(l) == ParseAddress("GET", s, v)
  {
  }

  /** Method, address and version of a request line, cut out in place. */
  method SplitLine(buf: array<char>, ghost l: string)
    returns (verdict: Verdict, verb: nat, addr: nat, version: nat, ghost s: string, ghost v: string)
    requires StrAt(buf[..], 0, l) && buf.Length == |l| + 1
    modifies buf
    ensures verdict == Outside <==> !AddressEnds(l)
    ensures verdict == Refused ==> forall s, v :: !LineSplits(l, s, v)
    ensures verdict == Accepted ==> LineSplits(l, s, v)
    ensures verdict == Accepted ==> StrAt(buf[..], verb, "GET") && StrAt(buf[..], addr, s)
                                    && StrAt(buf[..], version, v)
    ensures verdict == Accepted ==> verb + 3 < addr && version == addr + |s| + 1
  {
    verdict, verb, addr, version, s, v := Refused, 0, 0, 0, "", "";
    var token, save, t1 := StrtokR(buf, 0, {' '}, l);
    if token == None {
      return;
    }
    RestReaches(l, {' '}, t1);
    verb := token.value;
    var word := ReadString(buf, verb, t1.text);
    if word != "GET" {
      return;
    }
    ghost var t2;
    verdict, addr, version, t2 := CutAddress(buf, verb, "GET", save, t1.rest);
    if verdict == Accepted {
      s, v := t2.text, t2.rest;
    }
  }

  /** What follows a token reaches to the end of the string. */
  lemma RestReaches(s: string, delims: set<char>, t: Token)
    requires t == Strtok(s, delims) && t.Token?
    ensures t.skipped + |t.text| + (if t.cut then 1 else 0) + |t.rest| == |s|
  {
    StrtokPieces(s, delims);
  }

  /** The address behind the first word, and the version behind the address: behind the end
      of the buffer if nothing follows the address. */
  method CutAddress(buf: array<char>, ghost first: nat, ghost word: string, save: nat,
                    ghost rest: string)
    returns (verdict: Verdict, addr: nat, version: nat, ghost t: Token)
    requires StrAt(buf[..], first, word) && StrAt(buf[..], save, rest)
    requires rest != "" ==> first + |word| < save
    requires save + |rest| + 1 == buf.Length
    modifies buf
    ensures t == Strtok(rest, {' '})
    ensures verdict == Outside <==> t.Token? && !t.cut
    ensures verdict == Accepted <==> t.Token? && t.cut && "HTTP/" <= t.rest
    ensures verdict == Accepted ==> StrAt(buf[..], first, word) && StrAt(buf[..], addr, t.text)
                                    && StrAt(buf[..], version, t.rest)
    ensures verdict == Accepted ==> first + |word| < addr && version == addr + |t.text| + 1
  {
    verdict, addr, version := Refused, 0, 0;
    ghost var b := buf[..];
    var token, next;
    token, next, t := StrtokR(buf, save, {' '}, rest);
    if token == None {
      return;
    }
    addr := token.value;
    var address := ReadString(buf, addr, t.text);
    version := addr + |address| + 1;
    if version >= buf.Length {
      verdict := Outside;
      return;
    }
    assert t.cut && version == next;
    StrAtElsewhere(b, first, word, addr + |t.text|);
    var versionText := ReadString(buf, version, t.rest);
    if "HTTP/" <= versionText {
      verdict := Accepted;
    }
  }

  // ---------------------------------------------------------------- the address

  /** The string strlen(protocol) + 3 characters into the address, once the first token has
      been cut off; its length is what the grammar calls the remainder length. */
  lemma RemainderAt(b: seq<char>, a: nat, s: string, t: Token, version: nat, v: string)
    returns (r: string)
    requires StrAt(b, a, s) && StrAt(b, version, v) && version == a + |s| + 1 && |v| >= 5
    requires t.Token? && t.skipped + |t.text| <= |s| && (t.cut <==> t.skipped + |t.text| < |s|)
    ensures StrAt(b[a + t.skipped + |t.text| := NUL], a + |t.text| + 3, r)
    ensures |r| == RemainderLength(s, t, v)
  {
    var e, k := t.skipped + |t.text|, |t.text| + 3;
    if k <= e {
      r := RemainderInToken(b, a, s, e, k);
    } else if k <= |s| {
      r := RemainderInRest(b, a, s, e, k);
    } else {
      r := RemainderInVersion(b, a, |s|, e, k, version, v);
    }
  }

  lemma RemainderInVersion(b: seq<char>, a: nat, len: nat, e: nat, k: nat, version: nat, v: string)
    returns (r: string)
    requires StrAt(b, version, v) && version == a + len + 1 && e <= len < k
    requires k - len - 1 <= |v| && version + |v| < |b|
    ensures StrAt(b[a + e := NUL], a + k, r) && |r| == |v| - (k - len - 1)
  {
    StrAtElsewhere(b, version, v, a + e);
    StrAtSuffix(b[a + e := NUL], version, v, k - len - 1);
    r := v[k - len - 1..];
  }

  lemma RemainderInRest(b: seq<char>, a: nat, s: string, e: nat, k: nat) returns (r: string)
    requires StrAt(b, a, s) && e < k <= |s|
    ensures StrAt(b[a + e := NUL], a + k, r) && |r| == |s| - k
  {
    StrAtCut(b, a, s, e);
    StrAtSuffix(b[a + e := NUL], a + e + 1, s[e + 1..], k - e - 1);
    r := s[e + 1..][k - e - 1..];
  }

  lemma RemainderInToken(b: seq<char>, a: nat, s: string, e: nat, k: nat) returns (r: string)
    requires StrAt(b, a, s) && k <= e <= |s|
    ensures StrAt(b[a + e := NUL], a + k, r) && |r| == e - k
  {
    if e < |s| {
      StrAtCut(b, a, s, e);
    } else {
      assert b[a + e := NUL] == b && s[..e] == s;
    }
    StrAtSuffix(b[a + e := NUL], a, s[..e], k);
    r := s[..e][k..];
  }

  /** The address `s` is a protocol, an authority longer or shorter than the remainder, and
      a path. */
  ghost predicate AddressSplits(s: string, v: string, protocol: string, authority: string,
                                path: string)
    requires |v| >= 5
  {
    var t := Strtok(s, {':', '/'});
    && t.Token? && t.text == protocol && t.skipped + |t.text| <= |s|
    && Strtok(t.rest, {'/'}).Token? && Strtok(t.rest, {'/'}).text == authority
    && |authority| != RemainderLength(s, t, v)
    && PathSplits(Strtok(t.rest, {'/'}).rest, path)
  }

  ghost predicate PathSplits(rest: string, path: string) {
    match Strtok(rest, {' '})
    case NoToken => path == "/"
    case Token(_, p, _, _) => !("/" <= p) && path == "/" + p
  }

  lemma AddressMeans(s: string, v: string)
    requires |v| >= 5
    ensures (forall protocol, authority, path :: !AddressSplits(s, v, protocol, authority, path))
            ==> ParseAddress("GET", s, v) == Rejected
  {
    var t := Strtok(s, {':', '/'});
    if t.Token? {
      StrtokPieces(s, {':', '/'});
      var h := Strtok(t.rest, {'/'});
      if h.Token? && |h.text| != RemainderLength(s, t, v) {
        var p := Strtok(h.rest, {' '});
        if p == NoToken || !("/" <= p.text) {
          var path := if p == NoToken then "/" else "/" + p.text;
          SplitsIff(s, v, t, h, RemainderLength(s, t, v), path);
        }
      }
    }
  }

  lemma AddressSplitsMeans(s: string, v: string, protocol: string, authority: string, path: string)
    requires |v| >= 5 && AddressSplits(s, v, protocol, authority, path)
    ensures ParseAddress("GET", s, v) == HostAndPort("GET", protocol, authority, path, v)
  {
  }

  /** The path, copied out of the rest of the address behind the authority. */
  method SplitPath(buf: array<char>, save: nat, ghost rest: string)
    returns (ok: bool, path: string)
    requires StrAt(buf[..], save, rest)
    modifies buf
    ensures ChangedWithin(old(buf[..]), buf[..], save, save + |rest|)
    ensures rest == "" ==> buf[..] == old(buf[..])
    ensures ok ==> PathSplits(rest, path)
    ensures !ok ==> forall path :: !PathSplits(rest, path)
  {
    ok, path := true, "/";
    ghost var b := buf[..];
    var token, _, p := StrtokR(buf, save, {' '}, rest);
    if token.Some? {
      OneWrite(b, token.value + |p.text|, save, save + |rest|);
      path := ReadString(buf, token.value, p.text);
      ok := !("/" <= path);
      path := "/" + path;
    }
  }

  /** The length the host will be compared with, measured in the buffer `b` after the
      first token was cut off. */
  method MeasureRemainder(buf: array<char>, ghost b: seq<char>, a: nat, ghost s: string,
                          protocol: nat, ghost t: Token, ghost version: nat, ghost v: string)
    returns (length: nat)
    requires StrAt(b, a, s) && StrAt(b, version, v) && version == a + |s| + 1 && |v| >= 5
    requires t.Token? && t.skipped + |t.text| <= |s| && (t.cut <==> t.skipped + |t.text| < |s|)
    requires protocol == a + t.skipped && buf[..] == b[protocol + |t.text| := NUL]
    requires StrAt(buf[..], protocol, t.text)
    ensures length == RemainderLength(s, t, v) && ChangedWithin(b, buf[..], a, a + |s|)
  {
    OneWrite(b, protocol + |t.text|, a, a + |s|);
    ghost var remainder := RemainderAt(b, a, s, t, version, v);
    assert a + t.skipped + |t.text| == protocol + |t.text|;
    length := RemainderSize(buf, a, protocol, t.text, remainder);
  }

  method RemainderSize(buf: array<char>, a: nat, protocol: nat, ghost text: string,
                       ghost remainder: string)
    returns (length: nat)
    requires StrAt(buf[..], protocol, text) && StrAt(buf[..], a + |text| + 3, remainder)
    ensures length == |remainder|
  {
    var t := ReadString(buf, protocol, text);
    var r := ReadString(buf, a + |t| + 3, remainder);
    length := |r|;
  }

  /** The authority behind the protocol, then the path. */
  method CutAuthority(buf: array<char>, protocol: nat, ghost ps: string,
                      save: nat, ghost rest: string, length: nat)
    returns (ok: bool, authority: nat, path: string, ghost h: Token)
    requires StrAt(buf[..], protocol, ps) && StrAt(buf[..], save, rest)
    requires rest != "" ==> protocol + |ps| < save
    modifies buf
    ensures ChangedWithin(old(buf[..]), buf[..], save, save + |rest|)
    ensures h == Strtok(rest, {'/'})
    ensures ok <==> h.Token? && |h.text| != length && exists p :: PathSplits(h.rest, p)
    ensures ok ==> PathSplits(h.rest, path)
    ensures ok ==> StrAt(buf[..], protocol, ps) && StrAt(buf[..], authority, h.text)
    ensures ok ==> protocol + |ps| < authority && authority + |h.text| <= save + |rest|
  {
    ok, authority, path := false, 0, "";
    ghost var b := buf[..];
    var token, next;
    token, next, h := StrtokR(buf, save, {'/'}, rest);
    if token == None {
      return;
    }
    authority := token.value;
    OneWrite(b, authority + |h.text|, save, save + |rest|);
    StrAtElsewhere(b, protocol, ps, authority + |h.text|);
    var text := ReadString(buf, authority, h.text);
    if |text| == length {
      return;
    }
    ok, path := PathBehind(buf, protocol, ps, authority, h, save, rest, next, b);
  }

  /** Cutting out the path leaves protocol and authority alone. */
  method PathBehind(buf: array<char>, ghost protocol: nat, ghost ps: string,
                    ghost authority: nat, ghost h: Token, ghost save: nat, ghost rest: string,
                    next: nat, ghost b: seq<char>)
    returns (ok: bool, path: string)
    requires h.Token? && StrAt(buf[..], protocol, ps) && StrAt(buf[..], authority, h.text)
    requires StrAt(buf[..], next, h.rest) && protocol + |ps| < authority && save <= authority
    requires next == authority + |h.text| + (if h.cut then 1 else 0)
    requires (!h.cut ==> h.rest == "") && next + |h.rest| <= save + |rest|
    requires ChangedWithin(b, buf[..], save, save + |rest|)
    modifies buf
    ensures ChangedWithin(b, buf[..], save, save + |rest|)
    ensures ok <==> exists p :: PathSplits(h.rest, p)
    ensures ok ==> PathSplits(h.rest, path)
    ensures StrAt(buf[..], protocol, ps) && StrAt(buf[..], authority, h.text)
  {
    ghost var b1 := buf[..];
    ok, path := SplitPath(buf, next, h.rest);
    ChangedWider(b1, buf[..], next, next + |h.rest|, save, save + |rest|);
    ChangedTwice(b, b1, buf[..], save, save + |rest|);
    if h.cut {
      StrAtFramed(b1, buf[..], protocol, ps, next, next + |h.rest|);
      StrAtFramed(b1, buf[..], authority, h.text, next, next + |h.rest|);
    }
  }

  // ---------------------------------------------------------------- host and port

  /** Host and port, cut out in place. */
  method SplitHost(buf: array<char>, authority: nat, ghost s: string)
    returns (host: Option<nat>, port: Option<nat>, ghost t: Token, ghost q: Token)
    requires StrAt(buf[..], authority, s)
    modifies buf
    ensures ChangedWithin(old(buf[..]), buf[..], authority, authority + |s|)
    ensures t == Strtok(s, {':'}) && (host == None <==> t == NoToken)
    ensures host.Some? ==>
      && authority <= host.value && StrAt(buf[..], host.value, t.text)
      && q == Strtok(t.rest, {'/'}) && (port == None <==> q == NoToken)
      && (port.Some? ==> StrAt(buf[..], port.value, q.text))
  {
    var save;
    ghost var b := buf[..];
    host, save, t := StrtokR(buf, authority, {':'}, s);
    if host == None {
      StrAtSuffix(b, authority, s, |s|);
      port, save, q := StrtokR(buf, save, {'/'}, "");
    } else {
      port, q := PortBehind(buf, host.value, save, authority, |s|, t, b);
    }
  }

  /** The port behind a host that was cut off at `host`. */
  method PortBehind(buf: array<char>, ghost host: nat, save: nat, ghost authority: nat,
                    ghost len: nat, ghost t: Token, ghost b: seq<char>)
    returns (port: Option<nat>, ghost q: Token)
    requires TokenCut(b, buf[..], authority, len, t, host, save)
    requires save + |t.rest| <= authority + len
    modifies buf
    ensures ChangedWithin(b, buf[..], authority, authority + len)
    ensures StrAt(buf[..], host, t.text)
    ensures q == Strtok(t.rest, {'/'}) && (port == None <==> q == NoToken)
    ensures port.Some? ==> StrAt(buf[..], port.value, q.text)
  {
    ghost var end, cut, text, rest := authority + len, host + |t.text|, t.text, t.rest;
    OneWrite(b, cut, authority, end);
    port, q := CutPort(buf, host, text, save, rest, authority, end, b);
  }

  /** The port token behind the host leaves the host alone. */
  method CutPort(buf: array<char>, ghost host: nat, ghost text: string, save: nat,
                 ghost rest: string, ghost lo: nat, ghost hi: nat, ghost b: seq<char>)
    returns (port: Option<nat>, ghost q: Token)
    requires StrAt(buf[..], host, text) && StrAt(buf[..], save, rest) && lo <= save
    requires (rest != "" ==> host + |text| < save) && save + |rest| <= hi
    requires ChangedWithin(b, buf[..], lo, hi)
    modifies buf
    ensures ChangedWithin(b, buf[..], lo, hi) && StrAt(buf[..], host, text)
    ensures q == Strtok(rest, {'/'}) && (port == None <==> q == NoToken)
    ensures port.Some? ==> StrAt(buf[..], port.value, q.text)
  {
    var next;
    ghost var b1 := buf[..];
    port, next, q := StrtokR(buf, save, {'/'}, rest);
    if port.Some? {
      PortWrite(b1, host, text, port.value + |q.text|, lo, hi);
      ChangedTwice(b, b1, buf[..], lo, hi);
    }
  }

  lemma PortWrite(b: seq<char>, host: nat, text: string, w: nat, lo: nat, hi: nat)
    requires StrAt(b, host, text) && w < |b| && host + |text| < w && lo <= w <= hi
    ensures StrAt(b[w := NUL], host, text) && ChangedWithin(b, b[w := NUL], lo, hi)
  {
    StrAtElsewhere(b, host, text, w);
  }

  // ---------------------------------------------------------------- the request object

  /** Where the strings of a request line are in a buffer. */
  datatype Fields = Fields(verb: nat, protocol: nat, host: nat, port: Option<nat>, version: nat)

  const NO_FIELDS := Fields(0, 0, 0, None, 0)

  /** Every pointer leads to its string. */
  ghost predicate PointsTo(b: seq<char>, f: Fields, l: RequestLine) {
    && StrAt(b, f.verb, l.verb) && StrAt(b, f.protocol, l.protocol) && StrAt(b, f.host, l.host)
    && (f.port == None <==> l.port == None)
    && (f.port.Some? ==> StrAt(b, f.port.value, l.port.value))
    && StrAt(b, f.version, l.version)
  }

  /** Tokenises a NUL-terminated request line in place. */
  method Tokenise(buf: array<char>, ghost l: string)
    returns (verdict: Verdict, f: Fields, path: string, ghost line: RequestLine)
    requires StrAt(buf[..], 0, l) && buf.Length == |l| + 1
    modifies buf
    ensures verdict == VerdictOf(ParseLine(l))
    ensures verdict == Accepted ==>
              ParseLine(l) == Parsed(line) && line.path == path && PointsTo(buf[..], f, line)
  {
    f, path, line := NO_FIELDS, "", RequestLine("", "", "", None, "", "");
    LineUndefinedIff(l);
    LineMeans(l);
    var verb, addr, version;
    ghost var s, v;
    verdict, verb, addr, version, s, v := SplitLine(buf, l);
    if verdict != Accepted {
      return;
    }
    LineSplitsMeans(l, s, v);
    var ok;
    ok, f, path, line := TokeniseAddress(buf, verb, addr, s, version, v);
    verdict := if ok then Accepted else Refused;
  }

  method TokeniseAddress(buf: array<char>, verb: nat, addr: nat, ghost s: string,
                         version: nat, ghost v: string)
    returns (ok: bool, f: Fields, path: string, ghost line: RequestLine)
    requires StrAt(buf[..], verb, "GET") && StrAt(buf[..], addr, s) && StrAt(buf[..], version, v)
    requires verb + 3 < addr && version == addr + |s| + 1 && |v| >= 5
    modifies buf
    ensures ok <==> ParseAddress("GET", s, v).Parsed?
    ensures !ok ==> ParseAddress("GET", s, v) == Rejected
    ensures ok ==> ParseAddress("GET", s, v) == Parsed(line) && line.path == path
                   && PointsTo(buf[..], f, line)
  {
    f, path, line := NO_FIELDS, "", RequestLine("", "", "", None, "", "");
    AddressMeans(s, v);
    ghost var b := buf[..];
    var protocol, authority;
    ghost var ps, hs;
    ok, protocol, authority, path, ps, hs := SplitAddress(buf, addr, s, version, v);
    if !ok {
      return;
    }
    AddressSplitsMeans(s, v, ps, hs, path);
    StrAtFramed(b, buf[..], verb, "GET", addr, addr + |s|);
    StrAtFramed(b, buf[..], version, v, addr, addr + |s|);
    ok, f, line := TokeniseHost(buf, verb, protocol, ps, authority, hs, path, version, v);
  }

  /** Protocol, authority and path together. */
  method SplitAddress(buf: array<char>, a: nat, ghost s: string, version: nat, ghost v: string)
    returns (ok: bool, protocol: nat, authority: nat, path: string,
             ghost ps: string, ghost hs: string)
    requires StrAt(buf[..], a, s) && StrAt(buf[..], version, v) && version == a + |s| + 1
    requires |v| >= 5
    modifies buf
    ensures ChangedWithin(old(buf[..]), buf[..], a, a + |s|)
    ensures !ok ==> forall protocol, authority, path ::
                      !AddressSplits(s, v, protocol, authority, path)
    ensures ok ==> AddressSplits(s, v, ps, hs, path)
    ensures ok ==> StrAt(buf[..], protocol, ps) && StrAt(buf[..], authority, hs)
    ensures ok ==> a <= protocol && protocol + |ps| < authority && authority + |hs| <= a + |s|
  {
    ok, protocol, authority, path, ps, hs := false, 0, 0, "", "", "";
    ghost var b, t, h := buf[..], NoToken, NoToken;
    var first, save;
    first, save, t := StrtokR(buf, a, {':', '/'}, s);
    if first == None {
      return;
    }
    protocol, ps := first.value, t.text;
    var length := MeasureRemainder(buf, b, a, s, protocol, t, version, v);
    ghost var b1, saved, end := buf[..], save, save + |t.rest|;
    ok, authority, path, h := CutAuthority(buf, protocol, ps, save, t.rest, length);
    ChangedFurther(b, b1, buf[..], a, a + |s|, saved, end);
    hs := if h.Token? then h.text else "";
    SplitsIff(s, v, t, h, length, path);
  }

  /** The address splits exactly as its tokens do. */
  lemma SplitsIff(s: string, v: string, t: Token, h: Token, length: nat, path: string)
    requires |v| >= 5 && t == Strtok(s, {':', '/'}) && t.Token? && t.skipped + |t.text| <= |s|
    requires h == Strtok(t.rest, {'/'}) && length == RemainderLength(s, t, v)
    ensures h.Token? && |h.text| != length && PathSplits(h.rest, path) ==>
              AddressSplits(s, v, t.text, h.text, path)
    ensures !(h.Token? && |h.text| != length && exists p :: PathSplits(h.rest, p)) ==>
              forall protocol, authority, p :: !AddressSplits(s, v, protocol, authority, p)
  {
  }

  method TokeniseHost(buf: array<char>, verb: nat, protocol: nat, ghost ps: string,
                      authority: nat, ghost hs: string, ghost path: string,
                      version: nat, ghost v: string)
    returns (ok: bool, f: Fields, ghost line: RequestLine)
    requires StrAt(buf[..], verb, "GET") && StrAt(buf[..], protocol, ps)
    requires StrAt(buf[..], authority, hs) && StrAt(buf[..], version, v)
    requires verb + 3 < protocol && protocol + |ps| < authority && authority + |hs| < version
    modifies buf
    ensures ok <==> HostAndPort("GET", ps, hs, path, v).Parsed?
    ensures ok ==> HostAndPort("GET", ps, hs, path, v) == Parsed(line) && line.path == path
                   && PointsTo(buf[..], f, line)
  {
    ghost var b := buf[..];
    var host, port, t, q := SplitHost(buf, authority, hs);
    StrAtFramed(b, buf[..], verb, "GET", authority, authority + |hs|);
    StrAtFramed(b, buf[..], protocol, ps, authority, authority + |hs|);
    StrAtFramed(b, buf[..], version, v, authority, authority + |hs|);
    ok := host.Some?;
    f := Fields(verb, protocol, if ok then host.value else 0, port, version);
    line := if ok then RequestLine("GET", ps, t.text, if q == NoToken then None else Some(q.text), path, v)
            else RequestLine("", "", "", None, "", "");
  }

  class ParsedRequest {
    var buf: array?<char>
    var fields: Fields
    var path: string
    const table: HeaderTable
    ghost var line: RequestLine  // what the fields stand for

    ghost predicate Valid()
      reads this, buf, table, table.slots
    {
      && table.Valid()
      && (buf != null ==> PointsTo(buf[..], fields, line) && path == line.path)
    }

    ghost function Contents(): Request
      reads this, table, table.slots
      requires table.Valid()
    {
      Request(line, table.Contents())
    }

    constructor ()
      ensures Valid() && buf == null && table.Contents() == [] && fresh(table) && fresh(table.slots)
    {
      buf, fields, path := null, NO_FIELDS, "";
      table := new HeaderTable();
      line := RequestLine("", "", "", None, "", "");
    }

    /** Copies the request line into a buffer of its own and cuts it up there. */
    method ParseRequestLine(l: string) returns (verdict: Verdict)
      requires NUL !in l
      modifies this`buf, this`fields, this`path, this`line
      ensures verdict == VerdictOf(ParseLine(l))
      ensures verdict == Accepted ==>
                buf != null && fresh(buf) && PointsTo(buf[..], fields, line)
                && path == line.path && ParseLine(l) == Parsed(line)
      ensures verdict != Accepted ==> buf == null
    {
      var b := NewString(l);
      var f, p;
      ghost var parsed;
      verdict, f, p, parsed := Tokenise(b, l);
      if verdict == Accepted {
        Adopt(b, f, p, parsed);
      } else {
        buf := null;
      }
    }

    method Adopt(b: array<char>, f: Fields, p: string, ghost l: RequestLine)
      modifies this`buf, this`fields, this`path, this`line
      ensures buf == b && fields == f && path == p && line == l && buf[..] == old(b[..])
    {
      buf, fields, path, line := b, f, p, l;
    }

    /** Reads the header at `current` and finds the next line: the key reaches to the first
        colon, the value from the second character behind it to the next CRLF. A header
        that was read has a CRLF behind it, so the next line is always found. */
    method ReadHeader(tmp: array<char>, current: nat, ghost t: string,
                      ghost result: Outcome<seq<Header>>)
      returns (verdict: Verdict, next: nat)
      requires table.Valid() && StrAt(tmp[..], 0, t) && current < |t| && !CrlfAt(t, current)
      requires Leads(t, current, table.Contents(), result)
      modifies table, table.slots
      ensures table.Valid() && (table.slots == old(table.slots) || fresh(table.slots))
      ensures verdict == Outside <==> UnendedColon(t, current)
      ensures verdict != Accepted ==> result == if verdict == Refused then Rejected else Undefined
      ensures verdict == Accepted ==>
                current < next <= |t| && Leads(t, next, table.Contents(), result)
    {
      next := current;
      ghost var onward := LeadsOn(t, current, t[current..], table.Contents(), result);
      StrAtSuffix(tmp[..], 0, t, current);
      var x;
      verdict, x := ReadKeyAndValue(tmp, current, t[current..]);
      OutsideIff(t, current, verdict);
      if verdict != Accepted {
        return;
      }
      var e := ScanCrlf(tmp, current, t[current..]);
      assert e.Some?;
      next := e.value + 2;
      assert next == onward;
      KeepHeader(x, t, next, result);
    }

    /** Stores a header that was read. */
    method KeepHeader(x: Header, ghost t: string, ghost next: nat, ghost result: Outcome<seq<Header>>)
      requires table.Valid() && NUL !in x.key && NUL !in x.value
      requires Leads(t, next, SetHeader(table.Contents(), Header(x.key, x.value)), result)
      modifies table, table.slots
      ensures table.Valid() && (table.slots == old(table.slots) || fresh(table.slots))
      ensures Leads(t, next, table.Contents(), result)
    {
      table.Set(x.key, x.value);
    }

    /** Reads one header after the other into the table. */
    method ParseHeaderLines(tmp: array<char>, start: nat, ghost t: string)
      returns (verdict: Verdict)
      requires table.Valid() && StrAt(tmp[..], 0, t) && start <= |t|
      modifies table, table.slots
      ensures table.Valid()
      ensures verdict == VerdictOf(old(ParseHeaders(t[start..], table.Contents())))
      ensures verdict == Accepted ==>
                old(ParseHeaders(t[start..], table.Contents())) == Parsed(table.Contents())
      ensures table.slots == old(table.slots) || fresh(table.slots)
    {
      ghost var result := ParseHeaders(t[start..], table.Contents());
      var current := start;
      LineBegins(tmp[..], t, current);
      while tmp[current] != NUL && !(tmp[current] == '\r' && tmp[current + 1] == '\n')
        invariant start <= current <= |t| && table.Valid() && StrAt(tmp[..], 0, t)
        invariant Leads(t, current, table.Contents(), result)
        invariant table.slots == old(table.slots) || fresh(table.slots)
        invariant tmp[current] == NUL <==> current == |t|
        invariant current < |t| ==>
                    (CrlfAt(t, current) <==> tmp[current] == '\r' && tmp[current + 1] == '\n')
        decreases |t| - current
      {
        var next;
        verdict, next := ReadHeader(tmp, current, t, result);
        if verdict != Accepted {
          return;
        }
        current := next;
        LineBegins(tmp[..], t, current);
      }
      LeadsToEnd(t, current, table.Contents(), result);
      verdict := Accepted;
    }

    /** Parses a whole request into a fresh object. An object that got as far as its headers
        keeps its request line even if a header is malformed, and is not fresh any more. */
    method Parse(input: string) returns (verdict: Verdict)
      requires Valid() && (buf == null ==> table.Contents() == [])
      modifies this, table, table.slots
      ensures Valid()
      ensures old(buf) != null ==>
                verdict == Refused && buf == old(buf) && Contents() == old(Contents())
      ensures old(buf) == null ==>
                verdict == VerdictOf(RequestGrammar.Parse(input))
                && (verdict == Outside <==> !StaysInside(input))
                && (buf != null <==> LineAccepted(input))
      ensures verdict == Accepted ==>
                buf != null && RequestGrammar.Parse(input) == Parsed(Contents())
    {
      if buf != null {
        return Refused;
      }
      verdict := ParseFresh(input);
      UndefinedIff(input);
    }

    method ParseFresh(input: string) returns (verdict: Verdict)
      requires Valid() && buf == null && table.Contents() == []
      modifies this, table, table.slots
      ensures Valid() && verdict == VerdictOf(RequestGrammar.Parse(input))
      ensures buf != null <==> LineAccepted(input)
      ensures verdict == Accepted ==>
                buf != null && RequestGrammar.Parse(input) == Parsed(Contents())
    {
      if |input| < MIN_REQ_LEN || |input| > MAX_REQ_LEN {
        return Refused;
      }
      var tmp := TerminatedCopy(input);
      ghost var t := UpToNul(input);
      var blank := ScanBlankLine(tmp, t);
      if !blank {
        return Refused;
      }
      BlankHasCrlf(t);
      var e := ScanCrlf(tmp, 0, t);
      InputMeans(input, t, e.value);
      verdict := ParseParts(tmp, e.value, t);
    }

    /** The request line up to position `e`, then the headers. */
    method ParseParts(tmp: array<char>, e: nat, ghost t: string) returns (verdict: Verdict)
      requires Valid() && buf == null && table.Contents() == []
      requires StrAt(tmp[..], 0, t) && e + 2 <= |t|
      modifies this, table, table.slots
      ensures Valid() && (buf != null <==> ParseLine(t[..e]).Parsed?)
      ensures verdict == VerdictOf(Combined(ParseLine(t[..e]), ParseHeaders(t[e + 2..], [])))
      ensures verdict == Accepted ==>
        Combined(ParseLine(t[..e]), ParseHeaders(t[e + 2..], [])) == Parsed(Contents())
    {
      ghost var l, h := ParseLine(t[..e]), ParseHeaders(t[e + 2..], []);
      verdict := ParseFirstLine(tmp, e, t, l);
      if verdict == Accepted {
        verdict := ParseRest(tmp, e + 2, t);
      }
      CombinedIs(l, h, line, table.Contents());
    }

    method ParseFirstLine(tmp: array<char>, e: nat, ghost t: string, ghost l: Outcome<RequestLine>)
      returns (verdict: Verdict)
      requires Valid() && StrAt(tmp[..], 0, t) && e <= |t| && l == ParseLine(t[..e])
      modifies this`buf, this`fields, this`path, this`line
      ensures Valid() && verdict == VerdictOf(l) && (buf != null <==> verdict == Accepted)
      ensures verdict == Accepted ==> fresh(buf) && l == Parsed(line)
    {
      StrAtSlice(tmp[..], 0, t, 0, e);
      verdict := ParseRequestLine(tmp[..e]);
    }

    /** The headers behind a request line that was accepted. */
    method ParseRest(tmp: array<char>, start: nat, ghost t: string) returns (verdict: Verdict)
      requires Valid() && buf != null && table.Contents() == []
      requires StrAt(tmp[..], 0, t) && start <= |t|
      modifies table, table.slots
      ensures Valid() && verdict == VerdictOf(ParseHeaders(t[start..], []))
      ensures verdict == Accepted ==> ParseHeaders(t[start..], []) == Parsed(table.Contents())
    {
      verdict := ParseHeaderLines(tmp, start, t);
    }

    // ---------------------------------------------------------------- printing

    /** Length of the printed request line with its CRLF. */
    method RequestLineLength() returns (len: nat)
      requires Valid()
      ensures len == if buf == null then 0 else |LineText(line)| + 2
    {
      if buf == null {
        return 0;
      }
      var verb := ReadString(buf, fields.verb, line.verb);
      var protocol := ReadString(buf, fields.protocol, line.protocol);
      var host := ReadString(buf, fields.host, line.host);
      var version := ReadString(buf, fields.version, line.version);
      len := |verb| + 1 + |protocol| + 3 + |host| + 1 + |version| + 2;
      if fields.port.Some? {
        var port := ReadString(buf, fields.port.value, line.port.value);
        len := len + |port| + 1;
      }
      len := len + |path|;
      LineTextParts(line);
    }

    method HeadersLength() returns (len: nat)
      requires Valid()
      ensures len == if buf == null then 0 else |HeadersText(table.Contents())|
    {
      if buf == null {
        return 0;
      }
      len := table.TextLength();
    }

    /** The size of the whole printed request. */
    method TotalLength() returns (len: nat)
      requires Valid()
      ensures len == if buf == null then 0 else |Unparse(Contents())|
    {
      var first := RequestLineLength();
      var second := HeadersLength();
      len := first + second;
    }

    /** Prints the request line and reports how many characters it took. */
    method PrintRequestLine(out: array<char>, len: nat) returns (ok: bool, written: nat)
      requires Valid() && buf != null && len <= out.Length && out != buf
      modifies out
      ensures ok <==> |LineText(line)| + 2 <= len
      ensures !ok ==> out[..] == old(out[..])
      ensures ok ==> written == |LineText(line)| + 2
                     && out[..] == Overwrite(old(out[..]), 0, LineText(line) + CRLF)
    {
      var needed := RequestLineLength();
      if len < needed {
        return false, 0;
      }
      LineTextParts(line);
      var verb := ReadString(buf, fields.verb, line.verb);
      var protocol := ReadString(buf, fields.protocol, line.protocol);
      var host := ReadString(buf, fields.host, line.host);
      var port := None;
      if fields.port.Some? {
        var text := ReadString(buf, fields.port.value, line.port.value);
        port := Some(text);
      }
      var version := ReadString(buf, fields.version, line.version);
      written := PrintLine(out, RequestLine(verb, protocol, host, port, path, version));
      ok := true;
    }

    /** Prints the whole request into `len` characters of a buffer. */
    method UnparseTo(out: array<char>, len: nat) returns (ok: bool)
      requires Valid() && len <= out.Length && out != buf
      modifies out
      ensures Valid() && Contents() == old(Contents())
      ensures ok <==> buf != null && |Unparse(Contents())| <= len
      ensures ok ==> out[..] == Overwrite(old(out[..]), 0, Unparse(Contents()))
    {
      if buf == null {
        return false;
      }
      ghost var b := out[..];
      var written;
      ok, written := PrintRequestLine(out, len);
      if ok {
        UnparseIs(Contents());
        ok := PrintBehind(out, written, len, b, LineText(line) + CRLF);
      }
    }

    /** The headers behind what was printed so far. */
    method PrintBehind(out: array<char>, written: nat, len: nat, ghost b: seq<char>,
                       ghost text: string)
      returns (ok: bool)
      requires Valid() && buf != null && written == |text| <= len <= out.Length == |b| && out != buf
      requires out[..] == Overwrite(b, 0, text)
      modifies out
      ensures Valid() && (ok <==> |text| + |HeadersText(table.Contents())| <= len)
      ensures ok ==> out[..] == Overwrite(b, 0, text + HeadersText(table.Contents()))
    {
      ok := table.Print(out, written, len - written);
      if ok {
        OverwriteTwice(b, 0, text, HeadersText(table.Contents()));
      }
    }

    /** Prints only the headers. */
    method UnparseHeadersTo(out: array<char>, len: nat) returns (ok: bool)
      requires Valid() && len <= out.Length && out != buf
      modifies out
      ensures Valid() && Contents() == old(Contents())
      ensures ok <==> buf != null && |HeadersText(table.Contents())| <= len
      ensures ok ==> out[..] == Overwrite(old(out[..]), 0, HeadersText(table.Contents()))
    {
      if buf == null {
        return false;
      }
      ok := table.Print(out, 0, len);
    }
  }

  /** The request line, piece by piece in printing order. */
  lemma LineTextParts(l: RequestLine)
    ensures LineText(l) == l.verb + " " + l.protocol + "://" + l.host
              + (if l.port.Some? then ":" + l.port.value else "") + l.path + " " + l.version
    ensures |LineText(l)| == |l.verb| + |l.protocol| + |l.host| + |l.path| + |l.version| + 5
              + (if l.port.Some? then |l.port.value| + 1 else 0)
  {
    LineTextLength(l);
    var port := if l.port.Some? then ":" + l.port.value else "";
    assert Authority(l) == l.host + port;
  }

  lemma LineTextLength(l: RequestLine)
    ensures |LineText(l)| == |l.verb| + |l.protocol| + |l.host| + |l.path| + |l.version| + 5
              + (if l.port.Some? then |l.port.value| + 1 else 0)
  {
  }

  lemma UnparseIs(r: Request)
    ensures Unparse(r) == (LineText(r.line) + CRLF) + HeadersText(r.headers)
  {
  }

  /** Writes the next piece behind the text written so far. */
  method Append(out: array<char>, p: nat, s: string, ghost b: seq<char>, ghost text: string)
    returns (next: nat, ghost text': string)
    requires p == |text| && p + |s| <= out.Length == |b| && out[..] == Overwrite(b, 0, text)
    modifies out
    ensures text' == text + s && next == |text'| == p + |s|
    ensures out[..] == Overwrite(b, 0, text')
  {
    OverwriteTwice(b, 0, text, s);
    CopyInto(out, p, s);
    next, text' := p + |s|, text + s;
  }

  /** Method, protocol and host. */
  method PrintOrigin(out: array<char>, l: RequestLine) returns (current: nat, ghost text: string)
    requires |l.verb| + |l.protocol| + |l.host| + 4 <= out.Length
    modifies out
    ensures text == l.verb + " " + l.protocol + "://" + l.host
    ensures current == |text| && out[..] == Overwrite(old(out[..]), 0, text)
  {
    ghost var b := out[..];
    assert Overwrite(b, 0, "") == b;
    current, text := Append(out, 0, l.verb, b, "");
    assert text == l.verb;
    current, text := Append(out, current, " ", b, text);
    current, text := Append(out, current, l.protocol, b, text);
    current, text := Append(out, current, "://", b, text);
    current, text := Append(out, current, l.host, b, text);
  }

  method PrintPort(out: array<char>, p: nat, port: Option<string>, ghost b: seq<char>,
                   ghost text: string)
    returns (next: nat, ghost text': string)
    requires p == |text| && p + (if port.Some? then |port.value| + 1 else 0) <= out.Length == |b|
    requires out[..] == Overwrite(b, 0, text)
    modifies out
    ensures text' == text + (if port.Some? then ":" + port.value else "") && next == |text'|
    ensures next <= out.Length && out[..] == Overwrite(b, 0, text')
  {
    next, text' := p, text;
    if port.Some? {
      next, text' := Append(out, next, ":", b, text');
      next, text' := Append(out, next, port.value, b, text');
      assert text' == text + (":" + port.value);
    }
  }

  method PrintLine(out: array<char>, l: RequestLine) returns (current: nat)
    requires |LineText(l)| + 2 <= out.Length
    modifies out
    ensures current == |LineText(l)| + 2
    ensures out[..] == Overwrite(old(out[..]), 0, LineText(l) + CRLF)
  {
    LineTextParts(l);
    ghost var b, text := out[..], "";
    current, text := PrintOrigin(out, l);
    current, text := PrintPort(out, current, l.port, b, text);
    current, text := Append(out, current, l.path, b, text);
    current, text := Append(out, current, " ", b, text);
    current, text := Append(out, current, l.version, b, text);
    assert text == LineText(l);
    current, text := Append(out, current, CRLF, b, text);
  }

  /** The input with a NUL behind it; what counts as text ends at the first NUL. */
  method TerminatedCopy(input: string) returns (tmp: array<char>)
    ensures fresh(tmp) && tmp.Length == |input| + 1 && StrAt(tmp[..], 0, UpToNul(input))
  {
    tmp := new char[|input| + 1];
    CopyInto(tmp, 0, input);
    tmp[|input|] := NUL;
    UpToNulEnds(input);
    ghost var n := |UpToNul(input)|;
    assert tmp[..|input|] == input;
    assert tmp[0..n] == input[..n];
    assert tmp[n] == NUL;
  }

  /** How far a header was read: no colon, no CRLF behind the colon at `i`, or a value that
      ends `j` characters behind its start. */
  ghost predicate Spans(u: string, verdict: Verdict, i: nat, j: nat) {
    match verdict
    case Refused => FindChar(u, ':') == None
    case Outside => FindChar(u, ':') == Some(i) && (i + 2 <= |u| ==> FindCrlf(u[i + 2..]) == None)
    case Accepted =>
      FindChar(u, ':') == Some(i) && i + 2 <= |u| && FindCrlf(u[i + 2..]) == Some(j)
  }

  lemma SliceOfRest(u: string, p: nat, j: nat)
    requires p + j <= |u|
    ensures u[p..][..j] == u[p..p + j]
  {
  }

  /** Key and value between the first colon and the next CRLF. */
  lemma SpansMean(u: string, verdict: Verdict, i: nat, j: nat)
    requires Spans(u, verdict, i, j)
    ensures verdict == VerdictOf(ParseHeader(u))
    ensures verdict == Accepted ==>
      i + 2 + j <= |u| && ParseHeader(u) == Parsed(Header(u[..i], u[i + 2..i + 2 + j]))
  {
    if verdict == Accepted {
      assert CrlfAt(u[i + 2..], j);
      SliceOfRest(u, i + 2, j);
    }
  }

  /** Where the key ends and where the value does. */
  method SpanHeader(tmp: array<char>, current: nat, ghost u: string)
    returns (verdict: Verdict, colon: nat, end: nat)
    requires StrAt(tmp[..], current, u)
    ensures current <= colon && (verdict == Accepted ==> colon + 2 <= end)
    ensures Spans(u, verdict, colon - current, if verdict == Accepted then end - colon - 2 else 0)
  {
    colon, end := current, current;
    var c := ScanChar(tmp, current, ':', u);
    if c == None {
      return Refused, colon, end;
    }
    colon := c.value;
    var e := SpanValue(tmp, current, colon, u, colon - current);
    if e == None {
      return Outside, colon, end;
    }
    verdict, end := Accepted, e.value;
  }

  /** The CRLF that ends the value, looked for from the second character behind the colon. */
  method SpanValue(tmp: array<char>, ghost current: nat, colon: nat, ghost u: string, ghost i: nat)
    returns (end: Option<nat>)
    requires StrAt(tmp[..], current, u) && i < |u| && colon == current + i
    ensures end == None ==> i + 2 > |u| || FindCrlf(u[i + 2..]) == None
    ensures end.Some? ==> i + 2 <= |u| && colon + 2 <= end.value
                          && FindCrlf(u[i + 2..]) == Some(end.value - colon - 2)
  {
    CharAt(tmp[..], current, u, i + 1);
    if tmp[colon + 1] == NUL {
      return None;
    }
    StrAtSuffix(tmp[..], current, u, i + 2);
    end := ScanCrlf(tmp, colon + 2, u[i + 2..]);
  }

  /** A piece of a buffer is that piece of the string in it. */
  lemma StrAtSlice(b: seq<char>, p: nat, s: string, lo: nat, hi: nat)
    requires StrAt(b, p, s) && lo <= hi <= |s|
    ensures b[p + lo..p + hi] == s[lo..hi]
  {
    forall i | 0 <= i < hi - lo ensures b[p + lo..p + hi][i] == s[lo..hi][i] {
      CharAt(b, p, s, lo + i);
    }
  }

  lemma HeaderText(b: seq<char>, current: nat, u: string, colon: nat, end: nat)
    requires StrAt(b, current, u) && current <= colon && colon + 2 <= end <= current + |u|
    ensures b[current..colon] == u[..colon - current]
    ensures b[colon + 2..end] == u[colon + 2 - current..end - current]
  {
    StrAtSlice(b, current, u, 0, colon - current);
    StrAtSlice(b, current, u, colon + 2 - current, end - current);
  }

  /** Copies key and value of the header at `current` out of the text. */
  method ReadKeyAndValue(tmp: array<char>, current: nat, ghost u: string)
    returns (verdict: Verdict, x: Header)
    requires StrAt(tmp[..], current, u)
    ensures verdict == VerdictOf(ParseHeader(u))
    ensures verdict == Accepted ==> ParseHeader(u) == Parsed(x)
  {
    ghost var i, j;
    verdict, x, i, j := CopyHeader(tmp, current, u);
    SpansMean(u, verdict, i, j);
  }

  method CopyHeader(tmp: array<char>, current: nat, ghost u: string)
    returns (verdict: Verdict, x: Header, ghost i: nat, ghost j: nat)
    requires StrAt(tmp[..], current, u)
    ensures Spans(u, verdict, i, j)
    ensures verdict == Accepted ==> i + 2 + j <= |u| && x == Header(u[..i], u[i + 2..i + 2 + j])
  {
    var colon, end;
    verdict, colon, end := SpanHeader(tmp, current, u);
    x, i, j := Header("", ""), colon - current, if verdict == Accepted then end - colon - 2 else 0;
    if verdict == Accepted {
      assert CrlfAt(u[i + 2..], j);
      HeaderText(tmp[..], current, u, colon, end);
      x := Header(tmp[current..colon], tmp[colon + 2..end]);
    }
  }

  lemma OutsideIff(t: string, current: nat, verdict: Verdict)
    requires current <= |t| && verdict == VerdictOf(ParseHeader(t[current..]))
    ensures verdict == Outside <==> UnendedColon(t, current)
  {
    HeaderUndefinedIff(t[current..]);
    ColonShifts(t, current, 0, current);
  }

  /** What the loop guard sees at `current`. */
  lemma LineBegins(b: seq<char>, t: string, current: nat)
    requires StrAt(b, 0, t) && current <= |t|
    ensures b[current] == NUL <==> current == |t|
    ensures current < |t| ==>
              (CrlfAt(t, current) <==> b[current] == '\r' && b[current + 1] == '\n')
  {
    CharAt(b, 0, t, current);
    if current < |t| {
      CrlfInBuffer(b, 0, t, current);
    }
  }

  /** From position `k`, with `h` read so far, the header loop ends with `result`. */
  ghost predicate Leads(t: string, k: nat, h: seq<Header>, result: Outcome<seq<Header>>) {
    k <= |t| && ParseHeaders(t[k..], h) == result
  }

  lemma LeadsToEnd(t: string, k: nat, h: seq<Header>, result: Outcome<seq<Header>>)
    requires Leads(t, k, h, result) && (k == |t| || CrlfAt(t, k))
    ensures result == Parsed(h)
  {
    if k < |t| {
      CrlfShift(t, k);
    }
  }

  /** One turn of the header loop. */
  lemma LeadsOn(t: string, k: nat, u: string, h: seq<Header>, result: Outcome<seq<Header>>)
    returns (next: nat)
    requires Leads(t, k, h, result) && k < |t| && !CrlfAt(t, k) && NUL !in t && u == t[k..]
    ensures ParseHeader(u) == Undefined ==> result == Undefined
    ensures ParseHeader(u) == Rejected ==> result == Rejected
    ensures ParseHeader(u).Parsed? ==>
      var x := ParseHeader(u).value;
      && NUL !in x.key && NUL !in x.value
      && FindCrlf(u).Some? && next == k + FindCrlf(u).value + 2
      && Leads(t, next, SetHeader(h, Header(x.key, x.value)), result)
  {
    next := k;
    CrlfShift(t, k);
    OneTurn(u, h);
    if ParseHeader(u).Parsed? {
      HeaderNulFree(u);
      var p, x := FindCrlf(u).value + 2, ParseHeader(u).value;
      next := k + p;
      LeadsAt(t, k, u, p, next, SetHeader(h, x), result);
    }
  }

  lemma LeadsAt(t: string, k: nat, u: string, p: nat, q: nat, h: seq<Header>,
                result: Outcome<seq<Header>>)
    requires k <= |t| && u == t[k..] && k + p == q <= |t| && result == ParseHeaders(u[p..], h)
    ensures Leads(t, q, h, result)
  {
    RestOfRest(t, k, p, q);
  }

  lemma RestOfRest(t: string, k: nat, p: nat, q: nat)
    requires k + p == q <= |t|
    ensures t[k..][p..] == t[q..]
  {
  }

  lemma CrlfShift(t: string, k: nat)
    requires k < |t|
    ensures CrlfAt(t, k) == CrlfAt(t[k..], 0) && t[k..] != ""
  {
  }
}
