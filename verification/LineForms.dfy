/** The request lines that are accepted, and those that end with their address, as texts: what
    they are put together from, without searching for tokens. */
module LineForms {
  import opened CStrings
  import opened Options
  import opened RequestGrammar

  predicate Only(s: string, chars: set<char>) {
    forall i :: 0 <= i < |s| ==> s[i] in chars
  }

  // ---------------------------------------------------------------- tokens

  /** There is a token exactly when something is not a delimiter. */
  lemma NoTokenIff(s: string, delims: set<char>)
    ensures Strtok(s, delims) == NoToken <==> Only(s, delims)
  {
    var n := Span(s, delims);
    if n < |s| {
      assert s[n] !in delims;
    }
  }

  /** A text with a token is delimiters, the token, and perhaps a delimiter and more. */
  lemma TokenForm(s: string, delims: set<char>) returns (lead: string, d: char)
    requires Strtok(s, delims).Token?
    ensures var t := Strtok(s, delims);
      && Only(lead, delims) && |lead| == t.skipped && t.text != "" && Without(t.text, delims)
      && (if t.cut then d in delims && s == lead + (t.text + ([d] + t.rest))
          else t.rest == "" && s == lead + t.text)
  {
    StrtokPieces(s, delims);
    var t := Strtok(s, delims);
    var e := t.skipped + |t.text|;
    lead := s[..t.skipped];
    d := if t.cut then s[e] else ' ';
    TokenPut(s, t.skipped, e, lead, t.text, d, t.rest);
  }

  lemma TokenPut(s: string, k: nat, e: nat, lead: string, text: string, d: char, rest: string)
    requires k <= e <= |s| && lead == s[..k] && text == s[k..e]
    requires e < |s| ==> d == s[e] && rest == s[e + 1..]
    ensures e < |s| ==> s == lead + (text + ([d] + rest))
    ensures e == |s| ==> s == lead + text
  {
    TokenSlices(s, k, e);
  }

  lemma TokenSlices(s: string, k: nat, e: nat)
    requires k <= e <= |s|
    ensures e < |s| ==> s == s[..k] + (s[k..e] + ([s[e]] + s[e + 1..]))
    ensures e == |s| ==> s == s[..k] + s[k..e]
  {
  }

  lemma WithoutIn(s: string, c: char)
    ensures Without(s, {c}) <==> c !in s
  {
  }

  // ---------------------------------------------------------------- the address

  /** The length the authority is compared with, from the lengths of what stands before the
      protocol, of the protocol, of the address and of the version. */
  function Remainder(lead: nat, protocol: nat, address: nat, version: nat): int {
    if lead >= 3 then lead - 3
    else if protocol + 3 <= address then address - (protocol + 3)
    else version - (protocol + 2 - address)
  }

  /** Colons and slashes, a protocol, a colon or slash, slashes, an authority that is not
      just colons, and either nothing or a path with a single slash in front. */
  ghost predicate AddressIs(s: string, version: string, lead: string, protocol: string, d: char,
                            gap: string, authority: string, path: string)
  {
    && s == lead + (protocol + ([d] + (gap + (authority + path))))
    && Only(lead, {':', '/'}) && protocol != "" && Without(protocol, {':', '/'})
    && d in {':', '/'} && Only(gap, {'/'})
    && authority != "" && Without(authority, {'/'}) && !Only(authority, {':'})
    && (path == "" || (path[0] == '/' && !("//" <= path)))
    && |authority| != Remainder(|lead|, |protocol|, |s|, |version|)
  }

  ghost predicate AddressForm(s: string, version: string) {
    exists lead, protocol, d, gap, authority, path ::
      AddressIs(s, version, lead, protocol, d, gap, authority, path)
  }

  lemma RemainderIs(s: string, t: Token, version: string)
    requires t.Token? && t.skipped + |t.text| <= |s| && |version| >= 5
    ensures RemainderLength(s, t, version) == Remainder(t.skipped, |t.text|, |s|, |version|)
  {
  }

  /** Behind the authority everything up to the end of the address is the path. */
  lemma PathForm(protocol: string, authority: string, rest: string, version: string)
    requires ' ' !in rest
    ensures PathThenHost("GET", protocol, authority, rest, version).Parsed?
       <==> !("/" <= rest) && !Only(authority, {':'})
  {
    NoTokenIff(authority, {':'});
    if rest != "" {
      WithoutIn(rest, ' ');
      StrtokLast(rest, {' '});
    }
  }

  /** What the second token search finds behind the protocol. */
  lemma AuthorityForm(u: string) returns (gap: string, path: string)
    requires Strtok(u, {'/'}).Token?
    ensures var t := Strtok(u, {'/'});
      && u == gap + (t.text + path) && Only(gap, {'/'}) && t.text != "" && Without(t.text, {'/'})
      && path == if t.cut then ['/'] + t.rest else ""
    ensures Strtok(u, {'/'}).cut || Strtok(u, {'/'}).rest == ""
  {
    var d;
    gap, d := TokenForm(u, {'/'});
    var t := Strtok(u, {'/'});
    path := if t.cut then ['/'] + t.rest else "";
    assert !t.cut ==> t.text + path == t.text;
  }

  lemma SecondSlash(path: string, rest: string)
    requires path == ['/'] + rest
    ensures "//" <= path <==> "/" <= rest
  {
    assert path[1..] == rest;
    if "//" <= path {
      assert path[1] == '/';
    }
  }

  /** The tokens of an accepted address. */
  lemma AcceptedTokens(s: string, version: string) returns (t: Token, a: Token)
    requires |version| >= 5 && ParseAddress("GET", s, version).Parsed?
    ensures t == Strtok(s, {':', '/'}) && t.Token? && t.cut
    ensures a == Strtok(t.rest, {'/'}) && a.Token?
    ensures |a.text| != Remainder(t.skipped, |t.text|, |s|, |version|)
    ensures PathThenHost("GET", t.text, a.text, a.rest, version).Parsed?
  {
    t := Strtok(s, {':', '/'});
    StrtokPieces(s, {':', '/'});
    RemainderIs(s, t, version);
    a := Strtok(t.rest, {'/'});
  }

  lemma AcceptedHasForm(s: string, version: string)
    requires |version| >= 5 && ' ' !in s && ParseAddress("GET", s, version).Parsed?
    ensures AddressForm(s, version)
  {
    var t, a := AcceptedTokens(s, version);
    var lead, d := TokenForm(s, {':', '/'});
    var gap, path := AuthorityForm(t.rest);
    FormOfTokens(s, version, lead, t.text, d, t.rest, gap, a.text, a.rest, path);
  }

  lemma FormOfTokens(s: string, version: string, lead: string, protocol: string, d: char,
                     u: string, gap: string, authority: string, rest: string, path: string)
    requires ' ' !in s && s == lead + (protocol + ([d] + u)) && u == gap + (authority + path)
    requires Only(lead, {':', '/'}) && protocol != "" && Without(protocol, {':', '/'})
    requires d in {':', '/'} && Only(gap, {'/'}) && authority != "" && Without(authority, {'/'})
    requires path == ['/'] + rest || (path == "" && rest == "")
    requires |authority| != Remainder(|lead|, |protocol|, |s|, |version|)
    requires PathThenHost("GET", protocol, authority, rest, version).Parsed?
    ensures AddressForm(s, version)
  {
    SpaceFree(s, lead, protocol, d, gap, authority, path);
    assert path != "" ==> path[1..] == rest;
    PathForm(protocol, authority, rest, version);
    if path != "" {
      SecondSlash(path, rest);
    }
    assert AddressIs(s, version, lead, protocol, d, gap, authority, path);
  }

  lemma SpaceFree(s: string, lead: string, protocol: string, d: char, gap: string,
                  authority: string, path: string)
    requires s == lead + (protocol + ([d] + (gap + (authority + path)))) && ' ' !in s
    ensures ' ' !in path
  {
    forall c | c in path ensures c in s {
      assert c in authority + path;
      assert c in gap + (authority + path);
      assert c in [d] + (gap + (authority + path));
      assert c in protocol + ([d] + (gap + (authority + path)));
    }
  }

  /** The tokens of an address of the given form. */
  lemma FormTokens(s: string, version: string, lead: string, protocol: string, d: char,
                   gap: string, authority: string, path: string) returns (rest: string)
    requires |version| >= 5 && ' ' !in s
    requires AddressIs(s, version, lead, protocol, d, gap, authority, path)
    ensures ' ' !in rest && if path == "" then rest == "" else path == ['/'] + rest
    ensures ParseAddress("GET", s, version) == PathThenHost("GET", protocol, authority, rest, version)
  {
    var u := gap + (authority + path);
    StrtokCut(lead, protocol, d, u, {':', '/'});
    SpaceFree(s, lead, protocol, d, gap, authority, path);
    var a := AuthorityFound(u, gap, authority, path);
    TokensAreAccepted(s, version, Token(|lead|, protocol, true, u), a);
    rest := a.rest;
  }

  lemma FormIsAccepted(s: string, version: string, lead: string, protocol: string, d: char,
                       gap: string, authority: string, path: string)
    requires |version| >= 5 && ' ' !in s
    requires AddressIs(s, version, lead, protocol, d, gap, authority, path)
    ensures ParseAddress("GET", s, version).Parsed?
  {
    var rest := FormTokens(s, version, lead, protocol, d, gap, authority, path);
    PathForm(protocol, authority, rest, version);
    if path != "" {
      SecondSlash(path, rest);
    }
  }

  lemma AuthorityFound(u: string, gap: string, authority: string, path: string)
    returns (a: Token)
    requires u == gap + (authority + path)
    requires Only(gap, {'/'}) && authority != "" && Without(authority, {'/'})
    requires path == "" || path[0] == '/'
    ensures a == Strtok(u, {'/'}) && a.Token? && a.text == authority
    ensures if path == "" then a.rest == "" else path == ['/'] + a.rest
  {
    a := Strtok(u, {'/'});
    if path == "" {
      assert authority + path == authority;
      StrtokEnd(gap, authority, {'/'});
    } else {
      assert path == ['/'] + path[1..];
      StrtokCut(gap, authority, '/', path[1..], {'/'});
    }
  }

  lemma TokensAreAccepted(s: string, version: string, t: Token, a: Token)
    requires |version| >= 5 && t == Strtok(s, {':', '/'}) && t.Token?
    requires t.skipped + |t.text| <= |s| && a == Strtok(t.rest, {'/'}) && a.Token?
    requires |a.text| != Remainder(t.skipped, |t.text|, |s|, |version|)
    ensures ParseAddress("GET", s, version) == PathThenHost("GET", t.text, a.text, a.rest, version)
  {
    RemainderIs(s, t, version);
  }

  /** Exactly the addresses of this form are accepted. */
  lemma AddressFormIff(s: string, version: string)
    requires |version| >= 5 && ' ' !in s
    ensures ParseAddress("GET", s, version).Parsed? <==> AddressForm(s, version)
  {
    if AddressForm(s, version) {
      var lead, protocol, d, gap, authority, path :|
        AddressIs(s, version, lead, protocol, d, gap, authority, path);
      FormIsAccepted(s, version, lead, protocol, d, gap, authority, path);
    } else if ParseAddress("GET", s, version).Parsed? {
      AcceptedHasForm(s, version);
    }
  }

  /** An authority is perhaps some colons, the host, and perhaps a colon and the port. */
  ghost predicate AuthorityIs(authority: string, colons: string, host: string,
                              port: Option<string>) {
    && Only(colons, {':'}) && host != "" && Without(host, {':'})
    && match port
       case None => authority == colons + host || authority == colons + (host + ":")
       case Some(p) => p != "" && authority == colons + (host + ([':'] + p))
  }

  lemma PortFound(rest: string)
    requires Without(rest, {'/'})
    ensures rest == "" ==> Strtok(rest, {'/'}) == NoToken
    ensures rest != "" ==> Strtok(rest, {'/'}) == Token(0, rest, false, "")
  {
    if rest != "" {
      StrtokLast(rest, {'/'});
    }
  }

  lemma AuthorityValue(authority: string, colons: string, host: string, port: Option<string>,
                       protocol: string, path: string, version: string)
    requires AuthorityIs(authority, colons, host, port) && Without(authority, {'/'})
    ensures HostAndPort("GET", protocol, authority, path, version)
         == Parsed(RequestLine("GET", protocol, host, port, path, version))
  {
    if port.Some? {
      StrtokCut(colons, host, ':', port.value, {':'});
      PortBehind(authority, colons + host, port.value);
      PortFound(port.value);
    } else if authority == colons + host {
      StrtokEnd(colons, host, {':'});
      PortFound("");
    } else {
      StrtokCut(colons, host, ':', "", {':'});
      assert host + ":" == host + ([':'] + "");
      PortFound("");
    }
  }

  lemma PortBehind(authority: string, front: string, port: string)
    requires Without(authority, {'/'}) && |authority| == |front| + 1 + |port|
    requires authority[|front| + 1..] == port
    ensures Without(port, {'/'})
  {
    forall i | 0 <= i < |port| ensures port[i] !in {'/'} {
      assert authority[|front| + 1 + i] == port[i];
    }
  }

  /** What an accepted address is read as: its pieces, with "/" for a missing path. */
  lemma AddressValue(s: string, version: string, lead: string, protocol: string, d: char,
                     gap: string, authority: string, path: string, colons: string, host: string,
                     port: Option<string>)
    requires |version| >= 5 && ' ' !in s
    requires AddressIs(s, version, lead, protocol, d, gap, authority, path)
    requires AuthorityIs(authority, colons, host, port)
    ensures ParseAddress("GET", s, version) == Parsed(
      RequestLine("GET", protocol, host, port, if path == "" then "/" else path, version))
  {
    var rest := FormTokens(s, version, lead, protocol, d, gap, authority, path);
    PathValue(protocol, authority, rest, path, version);
    AuthorityValue(authority, colons, host, port, protocol, if path == "" then "/" else path, version);
  }

  lemma PathValue(protocol: string, authority: string, rest: string, path: string, version: string)
    requires ' ' !in rest && !("//" <= path) && path == if rest == "" then path else ['/'] + rest
    requires rest == "" ==> path == "" || path == "/"
    ensures PathThenHost("GET", protocol, authority, rest, version)
         == HostAndPort("GET", protocol, authority, if path == "" then "/" else path, version)
  {
    if rest != "" {
      WithoutIn(rest, ' ');
      StrtokLast(rest, {' '});
      SecondSlash(path, rest);
    }
  }

  // ---------------------------------------------------------------- the line

  /** Spaces, GET, spaces, and `rest`, which does not start with a space. */
  ghost predicate GetThen(l: string, lead: string, gap: string, rest: string) {
    && l == lead + ("GET" + ([' '] + (gap + rest))) && Only(lead, {' '}) && Only(gap, {' '})
    && (rest == "" || rest[0] != ' ')
  }

  /** An address, a space and a version. */
  ghost predicate AddressThenVersion(rest: string, s: string, version: string) {
    && rest == s + ([' '] + version) && s != "" && ' ' !in s && "HTTP/" <= version
    && AddressForm(s, version)
  }

  ghost predicate LineForm(l: string) {
    exists lead, gap, rest, s, version ::
      GetThen(l, lead, gap, rest) && AddressThenVersion(rest, s, version)
  }

  /** The line ends with its address. */
  ghost predicate AddressLast(l: string) {
    exists lead, gap, s :: GetThen(l, lead, gap, s) && s != "" && ' ' !in s
  }

  /** A line with GET and an address on it, as the token search finds them. */
  ghost predicate HasAddress(l: string) {
    var t := Strtok(l, {' '});
    t.Token? && t.text == "GET" && Strtok(t.rest, {' '}).Token?
  }

  function AddressOf(l: string): Token
    requires HasAddress(l)
  {
    Strtok(Strtok(l, {' '}).rest, {' '})
  }

  lemma LineHasForm(l: string) returns (lead: string, gap: string, rest: string)
    requires HasAddress(l)
    ensures GetThen(l, lead, gap, rest) && AddressOf(l).text != "" && ' ' !in AddressOf(l).text
    ensures var a := AddressOf(l); rest == if a.cut then a.text + ([' '] + a.rest) else a.text
  {
    var d, e;
    var u := Strtok(l, {' '}).rest;
    lead, d := TokenForm(l, {' '});
    gap, e := TokenForm(u, {' '});
    var a := AddressOf(l);
    rest := if a.cut then a.text + ([' '] + a.rest) else a.text;
    WithoutIn(a.text, ' ');
    assert rest[0] == a.text[0];
  }

  /** The tokens of a line of the given form. */
  lemma FormHasTokens(l: string, lead: string, gap: string, rest: string, s: string, more: string)
    requires GetThen(l, lead, gap, rest) && s != "" && ' ' !in s
    requires (rest == s && more == "") || rest == s + ([' '] + more)
    ensures HasAddress(l) && AddressOf(l).text == s && AddressOf(l).rest == more
    ensures AddressOf(l).cut <==> rest != s
  {
    StrtokCut(lead, "GET", ' ', gap + rest, {' '});
    WithoutIn(s, ' ');
    if rest == s {
      StrtokEnd(gap, s, {' '});
    } else {
      StrtokCut(gap, s, ' ', more, {' '});
    }
  }

  /** What is accepted and what is undefined, in terms of the address token. */
  lemma LineOutcome(l: string)
    ensures ParseLine(l).Parsed? <==>
      && HasAddress(l) && AddressOf(l).cut && "HTTP/" <= AddressOf(l).rest
      && ParseAddress("GET", AddressOf(l).text, AddressOf(l).rest).Parsed?
    ensures ParseLine(l) == Undefined <==> HasAddress(l) && !AddressOf(l).cut
  {
    if HasAddress(l) && AddressOf(l).cut && "HTTP/" <= AddressOf(l).rest {
      NeverUndefined(AddressOf(l).text, AddressOf(l).rest);
    }
  }

  lemma NeverUndefined(s: string, version: string)
    requires |version| >= 5
    ensures ParseAddress("GET", s, version) != Undefined
  {
  }

  /** Exactly the lines of this form are accepted. */
  lemma LineFormIff(l: string)
    ensures ParseLine(l).Parsed? <==> LineForm(l)
  {
    LineOutcome(l);
    if LineForm(l) {
      var lead, gap, rest, s, version :|
        GetThen(l, lead, gap, rest) && AddressThenVersion(rest, s, version);
      FormHasTokens(l, lead, gap, rest, s, version);
      AddressFormIff(s, version);
    } else if ParseLine(l).Parsed? {
      var lead, gap, rest := LineHasForm(l);
      var a := AddressOf(l);
      AddressFormIff(a.text, a.rest);
      assert AddressThenVersion(rest, a.text, a.rest);
    }
  }

  /** The version is read behind the line exactly when the line ends with its address. */
  lemma AddressLastIff(l: string)
    ensures ParseLine(l) == Undefined <==> AddressLast(l)
  {
    LineOutcome(l);
    if AddressLast(l) {
      var lead, gap, s :| GetThen(l, lead, gap, s) && s != "" && ' ' !in s;
      FormHasTokens(l, lead, gap, s, s, "");
    } else if ParseLine(l) == Undefined {
      var lead, gap, rest := LineHasForm(l);
    }
  }
}
