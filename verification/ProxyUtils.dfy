/** The request as it is forwarded to the origin server. */
module ProxyUtils {
  import opened CStrings
  import opened Headers
  import opened Options
  import opened RequestGrammar
  import opened ProxyParse
  import opened Sequences

  // ---------------------------------------------------------------- specification

  const HOST := "Host"
  const CONNECTION := "Connection"

  /** The headers after the rewriting. */
  function ForwardedHeaders(h: seq<Header>, host: string): seq<Header> {
    SetHeader(SetHeader(h, Header(HOST, host)), Header(CONNECTION, "close"))
  }

  function ForwardedText(r: Request): string {
    r.line.verb + " " + r.line.path + " " + r.line.version + CRLF
    + HeadersText(ForwardedHeaders(r.headers, r.line.host))
  }

  /** All headers but the two that are rewritten, in order. */
  function Others(h: seq<Header>): seq<Header> {
    Dropping(h, {HOST, CONNECTION})
  }

  /** The forwarded headers are all the other live headers in order, then exactly one Host
      naming the target and exactly one Connection: close. */
  lemma ForwardedAre(h: seq<Header>, host: string)
    requires DistinctKeys(h)
    ensures ForwardedHeaders(h, host)
         == Others(h) + [Header("Host", host)] + [Header("Connection", "close")]
    ensures forall x :: x in Others(h) <==> x in h && x.key != "Host" && x.key != "Connection"
    ensures Sub(Others(h), h) && DistinctKeys(ForwardedHeaders(h, host))
  {
    assert HOST != CONNECTION;
    TwoSets(h, Header(HOST, host), Header(CONNECTION, "close"));
    DroppingDistinct(h, {HOST, CONNECTION});
    forall x ensures x in Others(h) <==> x in h && x.key != HOST && x.key != CONNECTION {
      DroppingHas(h, {HOST, CONNECTION}, x);
    }
  }

  function Lower(c: char): char {
    if 'A' <= c <= 'Z' then c - 'A' + 'a' else c
  }

  /** Field names are compared without regard to case (section 3.2 of RFC 7230). */
  predicate SameName(a: string, b: string) {
    |a| == |b| && forall i :: 0 <= i < |a| ==> Lower(a[i]) == Lower(b[i])
  }

  /** No header but one spelled exactly `name` has that field name. */
  ghost predicate OnlySpelling(h: seq<Header>, name: string) {
    forall x :: x in h && SameName(x.key, name) ==> x.key == name
  }

  /** The code matches keys case-sensitively, so the forwarded message has a single Host
      field in the sense of section 5.4 of RFC 7230 exactly when no live header spelled the
      name differently; and likewise for Connection. */
  lemma SingleFieldIff(h: seq<Header>, host: string)
    requires DistinctKeys(h)
    ensures OnlySpelling(ForwardedHeaders(h, host), HOST) <==> OnlySpelling(h, HOST)
    ensures OnlySpelling(ForwardedHeaders(h, host), CONNECTION) <==> OnlySpelling(h, CONNECTION)
  {
    ForwardedAre(h, host);
    var f := ForwardedHeaders(h, host);
    assert forall x :: x in f <==>
      x in Others(h) || x == Header(HOST, host) || x == Header(CONNECTION, "close");
    assert !SameName(CONNECTION, HOST) && !SameName(HOST, CONNECTION);
  }

  /** A lower-case host header survives beside the new one. */
  lemma LowerCaseHostSurvives(value: string, host: string)
    ensures var h := [Header("host", value)];
      Header("host", value) in ForwardedHeaders(h, host)
      && Header(HOST, host) in ForwardedHeaders(h, host)
      && !OnlySpelling(ForwardedHeaders(h, host), HOST)
  {
    var x := Header("host", value);
    ForwardedAre([x], host);
    assert x in Others([x]);
    assert SameName(x.key, HOST) && x.key != HOST;
  }

  /** The forwarded Host names the whole authority exactly when there is no port. */
  lemma HostIsAuthorityIff(r: Request)
    requires DistinctKeys(r.headers)
    ensures Get(ForwardedHeaders(r.headers, r.line.host), HOST) == Some(r.line.host)
    ensures Get(ForwardedHeaders(r.headers, r.line.host), HOST) == Some(Authority(r.line))
       <==> r.line.port == None
  {
    var first := Header(HOST, r.line.host);
    SetMeans(r.headers, first, HOST);
    SetMeans(SetHeader(r.headers, first), Header(CONNECTION, "close"), HOST);
    assert HOST != CONNECTION;
  }

  // ---------------------------------------------------------------- the code

  /** snprintf into a buffer of `size` characters: the text, cut to leave room for the NUL. */
  function Snprintf(size: nat, text: string): string
    requires size > 0
  {
    if |text| < size then text else text[..size - 1]
  }

  /** Rewrites the headers and prints the forwarded request into a buffer of exactly the
      computed size: nothing is cut off. */
  method ConvertRequestToString(req: ParsedRequest) returns (serverReq: string)
    requires req.Valid() && req.buf != null
    modifies req.table, req.table.slots
    ensures req.Valid() && req.buf == old(req.buf) && req.line == old(req.line)
    ensures req.table.Contents() == ForwardedHeaders(old(req.table.Contents()), req.line.host)
    ensures serverReq == ForwardedText(old(req.Contents()))
  {
    var host := ReadString(req.buf, req.fields.host, req.line.host);
    SetForwarded(req, host);
    var headers := PrintHeaders(req);
    var verb := ReadString(req.buf, req.fields.verb, req.line.verb);
    var version := ReadString(req.buf, req.fields.version, req.line.version);
    var requestSize := |verb| + |req.path| + |version| + |headers| + 4;
    serverReq := FormatRequest(requestSize + 1, verb, req.path, version, headers);
  }

  method SetForwarded(req: ParsedRequest, host: string)
    requires req.Valid() && NUL !in host
    modifies req.table, req.table.slots
    ensures req.Valid() && req.buf == old(req.buf) && req.line == old(req.line)
    ensures req.table.Contents() == ForwardedHeaders(old(req.table.Contents()), host)
  {
    req.table.Set(HOST, host);
    req.table.Set(CONNECTION, "close");
  }

  /** The format "%s %s %s\r\n%s" through snprintf. */
  function FormatRequest(size: nat, verb: string, path: string, version: string,
                         headers: string): (r: string)
    requires size > 0
    ensures |verb| + |path| + |version| + |headers| + 4 < size ==>
              r == verb + " " + path + " " + version + CRLF + headers
  {
    Snprintf(size, verb + " " + path + " " + version + CRLF + headers)
  }

  /** The headers in a buffer of exactly the computed length, read back as a C string. */
  method PrintHeaders(req: ParsedRequest) returns (headers: string)
    requires req.Valid() && req.buf != null
    ensures req.Valid() && headers == HeadersText(req.table.Contents())
  {
    var headersLen := req.HeadersLength();
    var headersBuf := new char[headersLen + 1];
    ghost var text := HeadersText(req.table.Contents());
    var printed := req.UnparseHeadersTo(headersBuf, headersLen);
    headersBuf[headersLen] := NUL;
    NulFreeText(req.table.Contents());
    assert headersBuf[0..headersLen] == text;
    headers := ReadString(headersBuf, 0, text);
  }

  lemma {:induction false} NulFreeText(h: seq<Header>)
    requires NulFree(h)
    ensures NUL !in HeadersText(h)
  {
    if h != [] {
      var n := |h| - 1;
      NulFreeText(h[..n]);
      assert h[n] in h;
      assert NUL !in Lines(h[..n]) by {
        assert HeadersText(h[..n]) == Lines(h[..n]) + CRLF;
      }
    }
  }
}
