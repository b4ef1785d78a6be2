/** The request head the proxy sends upstream: the client's headers without those
    that concern the connection, then the proxy's own. */
module RequestRewrite {
  import opened Words
  import opened HttpSyntax
  import opened HttpHead

  datatype ProxyError = MissingHost | InvalidClientBody

  datatype ForwardedProto = Http | Https {
    function Text(): Bytes {
      match this
      case Http => [104, 116, 116, 112]
      case Https => [104, 116, 116, 112, 115]
    }
  }

  // ----- header names -----

  const HOST: Bytes := [72, 111, 115, 116]
  const LENGTH_NAME: Bytes := [67, 111, 110, 116, 101, 110, 116, 45, 76, 101, 110, 103, 116, 104]
  const CODING_NAME: Bytes := [84, 114, 97, 110, 115, 102, 101, 114, 45, 69, 110, 99, 111, 100, 105, 110, 103]
  const TRAILER: Bytes := [84, 114, 97, 105, 108, 101, 114]
  const TE: Bytes := [84, 69]
  const UPGRADE: Bytes := [85, 112, 103, 114, 97, 100, 101]
  const CONNECTION_NAME: Bytes := [67, 111, 110, 110, 101, 99, 116, 105, 111, 110]
  const PROXY_CONNECTION: Bytes := [112, 114, 111, 120, 121, 45, 99, 111, 110, 110, 101, 99, 116, 105, 111, 110]
  const KEEP_ALIVE: Bytes := [107, 101, 101, 112, 45, 97, 108, 105, 118, 101]
  const FORWARDED_FOR: Bytes := [88, 45, 70, 111, 114, 119, 97, 114, 100, 101, 100, 45, 70, 111, 114]
  const FORWARDED_HOST: Bytes := [88, 45, 70, 111, 114, 119, 97, 114, 100, 101, 100, 45, 72, 111, 115, 116]
  const FORWARDED_PROTO: Bytes := [88, 45, 70, 111, 114, 119, 97, 114, 100, 101, 100, 45, 80, 114, 111, 116, 111]
  const TRAILERS: Bytes := [116, 114, 97, 105, 108, 101, 114, 115]
  const TE_UPGRADE: Bytes := [84, 69, 44, 32, 85, 112, 103, 114, 97, 100, 101]

  const REPLACED: seq<Bytes> := [
    HOST, CONTENT_LENGTH, CONNECTION, PROXY_CONNECTION, KEEP_ALIVE, TRANSFER_ENCODING, TE, TRAILER, UPGRADE,
    FORWARDED_FOR, FORWARDED_HOST, FORWARDED_PROTO
  ]

  // ----- the host -----

  predicate IsPort(s: Bytes) {
    s != [] && (forall i :: 0 <= i < |s| ==> IsDigit(s[i])) && DecimalValue(s) < 0x10000
  }

  predicate IsHostLabel(s: Bytes) {
    && 1 <= |s| <= 63
    && (IsDigit(s[0]) || IsLetter(s[0])) && (IsDigit(s[|s| - 1]) || IsLetter(s[|s| - 1]))
    && forall i :: 0 <= i < |s| ==> IsDigit(s[i]) || IsLetter(s[i]) || s[i] == 45
  }

  predicate IsHostname(s: Bytes) {
    var name := if s != [] && s[|s| - 1] == 46 then s[..|s| - 1] else s;
    && 1 <= |name| <= 253
    && forall i :: 0 <= i < |Parts(name, 46)| ==> IsHostLabel(Parts(name, 46)[i])
  }

  // A host name or a bracketed IPv6 address, and perhaps a port.
  predicate IsAuthority(s: Bytes, ipv6: Bytes -> bool) {
    if s == [] || (exists i :: 0 <= i < |s| && s[i] >= 128) then false
    else if s[0] == 91 then
      var k := IndexFrom(s, 93, 1);
      k < |s| && ipv6(s[1..k]) && (k + 1 == |s| || (s[k + 1] == COLON && IsPort(s[k + 2..])))
    else
      var k := IndexFrom(s, COLON, 0);
      && (forall i :: 0 <= i < |s| ==> s[i] !in {91, 93, 64, 47, 63, 35})
      && IsHostname(s[..k])
      && (k < |s| ==> COLON !in s[k + 1..] && IsPort(s[k + 1..]))
  }

  // The headers with the name, in order.
  function Named(headers: seq<Header>, name: Bytes): seq<Header>
    decreases |headers|
  {
    if headers == [] then []
    else (if SameIgnoringCase(headers[0].name, name) then [headers[0]] else []) + Named(headers[1..], name)
  }

  function HostOf(headers: seq<Header>, ipv6: Bytes -> bool): Option<Bytes> {
    var hosts := Named(headers, HOST);
    if |hosts| == 1 && IsUtf8(hosts[0].value) && IsAuthority(hosts[0].value, ipv6) then Some(hosts[0].value) else None
  }

  // ----- what is kept -----

  predicate NamedByConnection(headers: seq<Header>, name: Bytes) {
    HeaderContainsToken(headers, CONNECTION, name)
  }

  predicate ShouldReplace(headers: seq<Header>, name: Bytes) {
    (exists i :: 0 <= i < |REPLACED| && SameIgnoringCase(name, REPLACED[i])) || NamedByConnection(headers, name)
  }

  // Those of some headers that need not be replaced in a request that has all of them.
  function Kept(some: seq<Header>, all: seq<Header>): seq<Header>
    decreases |some|
  {
    if some == [] then []
    else (if ShouldReplace(all, some[0].name) then [] else [some[0]]) + Kept(some[1..], all)
  }

  // ----- what the proxy adds -----

  predicate IsProtocol(p: Bytes) {
    var k := IndexFrom(p, 47, 0);
    IsToken(p[..k]) && (k < |p| ==> IsToken(p[k + 1..]))
  }

  function Trimmed(parts: seq<Bytes>): (r: seq<Bytes>)
    ensures |r| == |parts|
    decreases |parts|
  {
    if parts == [] then [] else [TrimOptionalWhitespace(parts[0])] + Trimmed(parts[1..])
  }

  // The protocols of the Upgrade headers; None when one of them is not a protocol.
  function ListedProtocols(headers: seq<Header>): (r: Option<seq<Bytes>>)
    ensures r.Some? ==> forall i :: 0 <= i < |r.value| ==> IsProtocol(r.value[i])
    decreases |headers|
  {
    if headers == [] then Some([])
    else if !SameIgnoringCase(headers[0].name, UPGRADE) then ListedProtocols(headers[1..])
    else
      var protocols := Trimmed(Parts(headers[0].value, COMMA));
      if exists i :: 0 <= i < |protocols| && !IsProtocol(protocols[i]) then None
      else
        var rest := ListedProtocols(headers[1..]);
        if rest.None? then None else Some(protocols + rest.value)
  }

  // The protocols to offer upstream, if any.
  function UpgradeProtocols(headers: seq<Header>): (r: Result<Option<seq<Bytes>>, ProxyError>)
    ensures r.Ok? && r.value.Some? ==> r.value.value != [] && forall i :: 0 <= i < |r.value.value| ==> IsProtocol(r.value.value[i])
  {
    var protocols := ListedProtocols(headers);
    if protocols.None? || (protocols.value == []) == NamedByConnection(headers, UPGRADE) then Err(InvalidClientBody)
    else Ok(if protocols.value == [] then None else Some(protocols.value))
  }

  predicate AcceptsTrailers(headers: seq<Header>) {
    NamedByConnection(headers, TE) && HeaderContainsToken(headers, TE, TRAILERS)
  }

  predicate ValidTrailerList(value: Bytes) {
    var names := Trimmed(Parts(value, COMMA));
    forall i :: 0 <= i < |names| ==> IsToken(names[i]) && !IsForbiddenTrailerName(names[i])
  }

  function TrailerHeaders(headers: seq<Header>): Result<seq<Header>, ProxyError>
    decreases |headers|
  {
    if headers == [] then Ok([])
    else if !SameIgnoringCase(headers[0].name, TRAILER) then TrailerHeaders(headers[1..])
    else if !ValidTrailerList(headers[0].value) then Err(InvalidClientBody)
    else
      var rest := TrailerHeaders(headers[1..]);
      if rest.Err? then rest else Ok([Header(TRAILER, headers[0].value)] + rest.value)
  }

  // The shortest decimal text.
  function Decimal(n: nat): (r: Bytes)
    ensures r != [] && forall i :: 0 <= i < |r| ==> IsDigit(r[i])
  {
    (if n < 10 then [] else Decimal(n / 10)) + [DigitByte(n % 10)]
  }

  function DigitByte(d: nat): (b: byte)
    requires d < 10
    ensures IsDigit(b) && Digit(b) == d
  {
    d + 48
  }

  function Listing(items: seq<Bytes>): Bytes
    requires items != []
    decreases |items|
  {
    if |items| == 1 then items[0] else items[0] + [COMMA, SPACE] + Listing(items[1..])
  }

  function LengthHeaders(contentLength: Option<u64>): seq<Header> {
    if contentLength.None? then [] else [Header(LENGTH_NAME, Decimal(contentLength.value))]
  }

  function CodingHeaders(hasTransferEncoding: bool): seq<Header> {
    if hasTransferEncoding then [Header(CODING_NAME, CHUNKED)] else []
  }

  function AnnouncedTrailers(request: Request): Result<seq<Header>, ProxyError> {
    if request.hasTransferEncoding && !NamedByConnection(request.headers, TRAILER) then TrailerHeaders(request.headers)
    else Ok([])
  }

  function ConnectionHeaders(acceptsTrailers: bool, upgrade: Option<seq<Bytes>>): seq<Header>
    requires upgrade.Some? ==> upgrade.value != []
  {
    (if acceptsTrailers then [Header(TE, TRAILERS)] else [])
    + (if upgrade.Some? then [Header(UPGRADE, Listing(upgrade.value))] else [])
    + (if acceptsTrailers && upgrade.Some? then [Header(CONNECTION_NAME, TE_UPGRADE)]
       else if acceptsTrailers then [Header(CONNECTION_NAME, TE)]
       else if upgrade.Some? then [Header(CONNECTION_NAME, UPGRADE)]
       else [])
  }

  function ForwardedHeaders(host: Bytes, clientIp: Bytes, proto: ForwardedProto): seq<Header> {
    [Header(FORWARDED_FOR, clientIp), Header(FORWARDED_HOST, host), Header(FORWARDED_PROTO, proto.Text())]
  }

  // All headers sent upstream.
  function SentHeaders(request: Request, ipv6: Bytes -> bool, clientIp: Bytes, proto: ForwardedProto): Result<seq<Header>, ProxyError> {
    var host := HostOf(request.headers, ipv6);
    if host.None? then Err(MissingHost)
    else
      var upgrade := UpgradeProtocols(request.headers);
      if upgrade.Err? then Err(upgrade.error)
      else
        var trailers := AnnouncedTrailers(request);
        if trailers.Err? then trailers
        else
          Ok(Kept(request.headers, request.headers) + [Header(HOST, host.value)] + LengthHeaders(request.contentLength)
             + CodingHeaders(request.hasTransferEncoding) + trailers.value
             + ConnectionHeaders(AcceptsTrailers(request.headers), upgrade.value)
             + ForwardedHeaders(host.value, clientIp, proto))
  }

  // ----- the bytes -----

  function HeaderLine(h: Header): Bytes {
    h.name + [COLON, SPACE] + h.value
  }

  function HeaderBytes(headers: seq<Header>): Bytes
    decreases |headers|
  {
    if headers == [] then [] else HeaderLine(headers[0]) + CRLF + HeaderBytes(headers[1..])
  }

  function HeadBytes(method': Bytes, target: Bytes, headers: seq<Header>): Bytes {
    RequestLine(method', target) + CRLF + HeaderBytes(headers) + CRLF
  }

  function Serialized(request: Request, ipv6: Bytes -> bool, clientIp: Bytes, proto: ForwardedProto): Result<Bytes, ProxyError> {
    var headers := SentHeaders(request, ipv6, clientIp, proto);
    if headers.Err? then Err(headers.error) else Ok(HeadBytes(request.method', request.target, headers.value))
  }

  // ----- appending them -----

  lemma {:induction false} BytesJoin(a: seq<Header>, b: seq<Header>)
    ensures HeaderBytes(a + b) == HeaderBytes(a) + HeaderBytes(b)
    decreases |a|
  {
    hide HeaderLine;
    if a == [] {
      assert a + b == b;
    } else {
      assert (a + b)[1..] == a[1..] + b;
      BytesJoin(a[1..], b);
      var line := HeaderLine(a[0]) + CRLF;
      assert line + (HeaderBytes(a[1..]) + HeaderBytes(b)) == line + HeaderBytes(a[1..]) + HeaderBytes(b);
    }
  }

  lemma Extend(start: Bytes, sent: seq<Header>, more: seq<Header>)
    ensures start + HeaderBytes(sent) + HeaderBytes(more) == start + HeaderBytes(sent + more)
  {
    BytesJoin(sent, more);
    assert start + HeaderBytes(sent) + HeaderBytes(more) == start + (HeaderBytes(sent) + HeaderBytes(more));
  }

  lemma OneHeader(h: Header)
    ensures HeaderBytes([h]) == HeaderLine(h) + CRLF && HeaderBytes([]) == []
  {
    hide HeaderLine;
    var line := HeaderLine(h) + CRLF;
    assert [h][1..] == [] && line + [] == line;
  }

  method AppendHeader(output: Bytes, name: Bytes, value: Bytes) returns (r: Bytes)
    ensures r == output + HeaderBytes([Header(name, value)])
  {
    OneHeader(Header(name, value));
    r := output + name;
    r := r + [COLON, SPACE];
    r := r + value;
    r := r + CRLF;
  }

  method AppendKept(output: Bytes, headers: seq<Header>) returns (r: Bytes)
    ensures r == output + HeaderBytes(Kept(headers, headers))
  {
    hide ShouldReplace, HeaderBytes;
    r := output;
    for i := 0 to |headers|
      invariant output + HeaderBytes(Kept(headers, headers)) == r + HeaderBytes(Kept(headers[i..], headers))
    {
      var rest := headers[i..];
      assert rest[0] == headers[i] && rest[1..] == headers[i + 1..];
      if ShouldReplace(headers, headers[i].name) {
        assert [] + Kept(rest[1..], headers) == Kept(rest[1..], headers);
      } else {
        BytesJoin([headers[i]], Kept(rest[1..], headers));
        ghost var more := HeaderBytes(Kept(rest[1..], headers));
        assert r + (HeaderBytes([headers[i]]) + more) == r + HeaderBytes([headers[i]]) + more;
        r := AppendHeader(r, headers[i].name, headers[i].value);
      }
    }
    OneHeader(Header([], []));
  }

  // What the trailer headers add to some bytes.
  function WithTrailers(output: Bytes, headers: seq<Header>): Result<Bytes, ProxyError> {
    var trailers := TrailerHeaders(headers);
    if trailers.Err? then Err(trailers.error) else Ok(output + HeaderBytes(trailers.value))
  }

  lemma WithTrailersStep(output: Bytes, headers: seq<Header>)
    requires headers != []
    ensures !SameIgnoringCase(headers[0].name, TRAILER) ==> WithTrailers(output, headers) == WithTrailers(output, headers[1..])
    ensures SameIgnoringCase(headers[0].name, TRAILER) && !ValidTrailerList(headers[0].value) ==>
              WithTrailers(output, headers) == Err(InvalidClientBody)
    ensures SameIgnoringCase(headers[0].name, TRAILER) && ValidTrailerList(headers[0].value) ==>
              WithTrailers(output, headers)
              == WithTrailers(output + HeaderBytes([Header(TRAILER, headers[0].value)]), headers[1..])
  {
    hide SameIgnoringCase, ValidTrailerList, HeaderBytes;
    var rest := TrailerHeaders(headers[1..]);
    if rest.Ok? {
      var h := Header(TRAILER, headers[0].value);
      BytesJoin([h], rest.value);
      assert output + (HeaderBytes([h]) + HeaderBytes(rest.value)) == output + HeaderBytes([h]) + HeaderBytes(rest.value);
    }
  }

  method AppendTrailers(output: Bytes, headers: seq<Header>) returns (r: Result<Bytes, ProxyError>)
    ensures r == WithTrailers(output, headers)
  {
    hide SameIgnoringCase, ValidTrailerList, HeaderBytes, WithTrailers;
    var bytes := output;
    for i := 0 to |headers|
      invariant WithTrailers(output, headers) == WithTrailers(bytes, headers[i..])
    {
      ghost var rest := headers[i..];
      assert rest[0] == headers[i] && rest[1..] == headers[i + 1..];
      WithTrailersStep(bytes, rest);
      if SameIgnoringCase(headers[i].name, TRAILER) {
        if !ValidTrailerList(headers[i].value) {
          return Err(InvalidClientBody);
        }
        bytes := AppendHeader(bytes, TRAILER, headers[i].value);
      }
    }
    NoTrailers(bytes);
    r := Ok(bytes);
  }

  lemma NoTrailers(output: Bytes)
    ensures WithTrailers(output, []) == Ok(output)
  {
    assert output + [] == output;
  }

  method AppendListing(output: Bytes, items: seq<Bytes>) returns (r: Bytes)
    requires items != []
    ensures r == output + Listing(items)
  {
    r := output;
    for i := 0 to |items|
      invariant i < |items| ==> output + Listing(items) == (if i > 0 then r + [COMMA, SPACE] else r) + Listing(items[i..])
      invariant i == |items| ==> r == output + Listing(items)
    {
      if i > 0 {
        r := r + [COMMA, SPACE];
      }
      ghost var rest := items[i..];
      assert rest[0] == items[i] && rest[1..] == items[i + 1..];
      ListingStep(r, rest);
      r := r + items[i];
    }
  }

  lemma ListingStep(output: Bytes, items: seq<Bytes>)
    requires items != []
    ensures |items| == 1 ==> output + Listing(items) == output + items[0]
    ensures |items| > 1 ==> output + Listing(items) == output + items[0] + [COMMA, SPACE] + Listing(items[1..])
  {
    if |items| > 1 {
      Reassociate(output, items[0], [COMMA, SPACE], Listing(items[1..]));
    }
  }

  lemma Reassociate(a: Bytes, b: Bytes, c: Bytes, d: Bytes)
    ensures a + (b + c + d) == a + b + c + d
  {
  }

  method AppendConnection(output: Bytes, acceptsTrailers: bool, upgrade: Option<seq<Bytes>>) returns (r: Bytes)
    requires upgrade.Some? ==> upgrade.value != []
    ensures r == output + HeaderBytes(ConnectionHeaders(acceptsTrailers, upgrade))
  {
    hide HeaderBytes, Listing;
    ghost var sent: seq<Header> := [];
    OneHeader(Header([], []));
    r := output;
    assert r == output + HeaderBytes(sent);
    if acceptsTrailers {
      Extend(output, sent, [Header(TE, TRAILERS)]);
      r := AppendHeader(r, TE, TRAILERS);
      sent := sent + [Header(TE, TRAILERS)];
    }
    if upgrade.Some? {
      ghost var h := Header(UPGRADE, Listing(upgrade.value));
      Extend(output, sent, [h]);
      OneHeader(h);
      var line := UPGRADE + [COLON, SPACE];
      line := AppendListing(line, upgrade.value);
      r := r + (line + CRLF);
      sent := sent + [h];
    }
    ghost var before := sent;
    var value := if acceptsTrailers && upgrade.Some? then TE_UPGRADE
                 else if acceptsTrailers then TE
                 else if upgrade.Some? then UPGRADE
                 else [];
    if value != [] {
      Extend(output, sent, [Header(CONNECTION_NAME, value)]);
      r := AppendHeader(r, CONNECTION_NAME, value);
      sent := sent + [Header(CONNECTION_NAME, value)];
    }
    assert sent == ConnectionHeaders(acceptsTrailers, upgrade);
  }

  method AppendForwarded(output: Bytes, host: Bytes, clientIp: Bytes, proto: ForwardedProto) returns (r: Bytes)
    ensures r == output + HeaderBytes(ForwardedHeaders(host, clientIp, proto))
  {
    hide HeaderBytes;
    var a, b, c := Header(FORWARDED_FOR, clientIp), Header(FORWARDED_HOST, host), Header(FORWARDED_PROTO, proto.Text());
    r := AppendHeader(output, a.name, a.value);
    Extend(output, [a], [b]);
    r := AppendHeader(r, b.name, b.value);
    Extend(output, [a] + [b], [c]);
    r := AppendHeader(r, c.name, c.value);
    assert [a] + [b] + [c] == ForwardedHeaders(host, clientIp, proto);
  }

  /** Writes the head piece by piece. */
  method SerializeRequestHead(request: Request, ipv6: Bytes -> bool, clientIp: Bytes, proto: ForwardedProto)
    returns (r: Result<Bytes, ProxyError>)
    ensures r == Serialized(request, ipv6, clientIp, proto)
  {
    hide HostOf, UpgradeProtocols, AcceptsTrailers, NamedByConnection, TrailerHeaders, Decimal, HeaderBytes, RequestLine, Kept,
      ConnectionHeaders, ForwardedHeaders;
    var headers := request.headers;
    var host := HostOf(headers, ipv6);
    if host.None? {
      return Err(MissingHost);
    }
    var upgrade := UpgradeProtocols(headers);
    if upgrade.Err? {
      return Err(upgrade.error);
    }
    var acceptsTrailers := AcceptsTrailers(headers);
    var start := RequestLine(request.method', request.target) + CRLF;
    var output := AppendKept(start, headers);
    ghost var sent := Kept(headers, headers);
    Extend(start, sent, [Header(HOST, host.value)]);
    output := AppendHeader(output, HOST, host.value);
    sent := sent + [Header(HOST, host.value)];
    NoHeaders(output);
    Extend(start, sent, LengthHeaders(request.contentLength));
    if request.contentLength.Some? {
      output := AppendHeader(output, LENGTH_NAME, Decimal(request.contentLength.value));
    }
    sent := sent + LengthHeaders(request.contentLength);
    NoHeaders(output);
    Extend(start, sent, CodingHeaders(request.hasTransferEncoding));
    ghost var trailers := AnnouncedTrailers(request);
    if request.hasTransferEncoding {
      output := AppendHeader(output, CODING_NAME, CHUNKED);
      if !NamedByConnection(headers, TRAILER) {
        var appended := AppendTrailers(output, headers);
        if appended.Err? {
          return Err(appended.error);
        }
        Extend(start, sent + CodingHeaders(true), trailers.value);
        output := appended.value;
      }
    }
    if trailers.value == [] {
      assert sent + CodingHeaders(request.hasTransferEncoding) + trailers.value == sent + CodingHeaders(request.hasTransferEncoding);
      NoHeaders(output);
      assert output + [] == output;
    }
    sent := sent + CodingHeaders(request.hasTransferEncoding) + trailers.value;
    assert output == start + HeaderBytes(sent);
    output := AppendConnection(output, acceptsTrailers, upgrade.value);
    Extend(start, sent, ConnectionHeaders(acceptsTrailers, upgrade.value));
    sent := sent + ConnectionHeaders(acceptsTrailers, upgrade.value);
    output := AppendForwarded(output, host.value, clientIp, proto);
    Extend(start, sent, ForwardedHeaders(host.value, clientIp, proto));
    r := Ok(output + CRLF);
  }

  lemma NoHeaders(output: Bytes)
    ensures output + HeaderBytes([]) == output
  {
  }

  // ----- what parsing says of a request -----

  predicate IsTrimmed(s: Bytes) {
    s == [] || (!IsBlank(s[0]) && !IsBlank(s[|s| - 1]))
  }

  // A header the parser returns from its line.
  predicate Clean(h: Header) {
    IsToken(h.name) && IsFieldValue(h.value) && IsTrimmed(h.value)
  }

  predicate AllClean(headers: seq<Header>) {
    forall i :: 0 <= i < |headers| ==> Clean(headers[i])
  }

  predicate WellParsed(request: Request) {
    && ParseRequestLine(RequestLine(request.method', request.target)) == Ok((request.method', request.target))
    && RequestLineLength(request) <= MAX_REQUEST_LINE_SIZE
    && AllClean(request.headers)
    && !(request.contentLength.Some? && request.hasTransferEncoding)
  }

  lemma TrimIsTrimmed(s: Bytes)
    ensures IsTrimmed(TrimOptionalWhitespace(s))
  {
    var t := TrimStart(s);
    var r := TrimEnd(t);
    TrimEndIsPrefix(t);
    if r != [] {
      assert r[0] == t[..|r|][0];
    }
  }

  lemma ParsedHeaderIsClean(line: Bytes)
    requires ParseHeader(line).Ok?
    ensures Clean(ParseHeader(line).value)
  {
    TrimIsTrimmed(line[IndexFrom(line, COLON, 0) + 1..]);
  }

  lemma {:induction false} ParsedHeadersAreClean(s: Bytes, i: nat, count: nat)
    requires i <= |s| && HeadersFrom(s, i, count).Ok?
    ensures AllClean(HeadersFrom(s, i, count).value)
    decreases |s| - i
  {
    hide ParseHeader, LineEnd, Clean;
    var k := LineEnd(s, i);
    ParsedHeaderIsClean(s[i..k]);
    if k != |s| {
      ParsedHeadersAreClean(s, k + 2, count + 1);
    }
  }

  lemma ParsedIsWell(input: Bytes)
    requires Parse(input).Ok?
    ensures WellParsed(Parse(input).value.request)
  {
    hide Find, ParseRequestLine, HeadersFrom, ContentLengthFrom, TransferEncodingFrom, HeaderContainsToken, AllClean;
    var line, end := HeadParts(input);
    RequestLineIs(input[..line]);
    var block := HeaderBlock(input, line, end);
    if block != [] {
      ParsedHeadersAreClean(block, 0, 0);
    }
    NoneClean();
  }

  lemma NoneClean()
    ensures AllClean([])
  {
  }

  // ----- the proxy's own headers are clean -----

  lemma {:induction false} KeptClean(some: seq<Header>, all: seq<Header>)
    requires AllClean(some)
    ensures AllClean(Kept(some, all))
    decreases |some|
  {
    hide ShouldReplace, Clean;
    if some != [] {
      assert Clean(some[0]);
      KeptClean(some[1..], all);
    }
  }

  lemma {:induction false} NamedClean(headers: seq<Header>, name: Bytes)
    requires AllClean(headers)
    ensures AllClean(Named(headers, name))
    decreases |headers|
  {
    hide Clean;
    if headers != [] {
      assert Clean(headers[0]);
      NamedClean(headers[1..], name);
    }
  }

  lemma {:induction false} TrailersClean(headers: seq<Header>)
    requires AllClean(headers) && TrailerHeaders(headers).Ok?
    ensures AllClean(TrailerHeaders(headers).value)
    ensures forall i :: 0 <= i < |TrailerHeaders(headers).value| ==> TrailerHeaders(headers).value[i].name == TRAILER
    decreases |headers|
  {
    hide ValidTrailerList;
    if headers != [] {
      assert Clean(headers[0]);
      TrailersClean(headers[1..]);
    }
  }

  // Bytes that stand in a token or a protocol.
  predicate AllVisible(s: Bytes) {
    s != [] && forall i :: 0 <= i < |s| ==> 32 < s[i] < 127
  }

  lemma ProtocolVisible(p: Bytes)
    requires IsProtocol(p)
    ensures AllVisible(p)
  {
    var k := IndexFrom(p, 47, 0);
    forall i | 0 <= i < |p| ensures 32 < p[i] < 127 {
      if i < k {
        assert IsTokenByte(p[..k][i]);
      } else if i > k {
        assert IsTokenByte(p[k + 1..][i - k - 1]);
      }
    }
  }

  lemma {:induction false} ListingClean(items: seq<Bytes>)
    requires items != [] && forall i :: 0 <= i < |items| ==> IsProtocol(items[i])
    ensures Listing(items) != [] && IsFieldValue(Listing(items)) && IsTrimmed(Listing(items))
    decreases |items|
  {
    hide IsProtocol;
    ProtocolVisible(items[0]);
    if |items| > 1 {
      ListingClean(items[1..]);
      var first, rest := items[0] + [COMMA, SPACE], Listing(items[1..]);
      assert (first + rest)[|first + rest| - 1] == rest[|rest| - 1];
    }
  }

  lemma {:induction false} DecimalParses(n: nat)
    ensures DecimalValue(Decimal(n)) == n
  {
    var text := Decimal(n);
    assert text[|text| - 1] == DigitByte(n % 10);
    if n < 10 {
      assert text[..|text| - 1] == [];
    } else {
      DecimalParses(n / 10);
      assert text[..|text| - 1] == Decimal(n / 10);
    }
  }

  // The text of an address: hexadecimal digits, dots and colons.
  predicate IsAddress(s: Bytes) {
    forall i :: 0 <= i < |s| ==> IsHexDigit(s[i]) || s[i] == 46 || s[i] == COLON
  }

  lemma CleanJoin(a: seq<Header>, b: seq<Header>)
    requires AllClean(a) && AllClean(b)
    ensures AllClean(a + b)
  {
  }

  lemma NamesAreTokens()
    ensures IsToken(HOST) && IsToken(LENGTH_NAME) && IsToken(CODING_NAME) && IsToken(TE) && IsToken(UPGRADE)
    ensures IsToken(CONNECTION_NAME) && IsToken(FORWARDED_FOR) && IsToken(FORWARDED_HOST) && IsToken(FORWARDED_PROTO)
  {
  }

  lemma ValuesAreClean()
    ensures IsClean(CHUNKED) && IsClean(TRAILERS) && IsClean(TE) && IsClean(UPGRADE) && IsClean(TE_UPGRADE)
    ensures forall proto: ForwardedProto :: IsClean(proto.Text())
  {
  }

  predicate IsClean(value: Bytes) {
    IsFieldValue(value) && IsTrimmed(value)
  }

  lemma CleanOne(name: Bytes, value: Bytes)
    requires IsToken(name) && IsClean(value)
    ensures AllClean([Header(name, value)])
  {
  }

  lemma DecimalIsClean(n: nat)
    ensures IsClean(Decimal(n))
  {
    hide Decimal;
  }

  lemma AddressIsClean(s: Bytes)
    requires IsAddress(s)
    ensures IsClean(s)
  {
  }

  lemma ListingIsClean(items: seq<Bytes>)
    requires items != [] && forall i :: 0 <= i < |items| ==> IsProtocol(items[i])
    ensures IsClean(Listing(items))
  {
    ListingClean(items);
  }

  lemma ConnectionClean(upgrade: Option<seq<Bytes>>, acceptsTrailers: bool)
    requires upgrade.Some? ==> upgrade.value != [] && forall i :: 0 <= i < |upgrade.value| ==> IsProtocol(upgrade.value[i])
    ensures AllClean(ConnectionHeaders(acceptsTrailers, upgrade))
  {
    hide IsProtocol, Listing, IsToken, IsClean, AllClean;
    NamesAreTokens();
    ValuesAreClean();
    NoneClean();
    CleanOne(TE, TRAILERS);
    CleanOne(CONNECTION_NAME, TE_UPGRADE);
    CleanOne(CONNECTION_NAME, TE);
    CleanOne(CONNECTION_NAME, UPGRADE);
    var a: seq<Header> := if acceptsTrailers then [Header(TE, TRAILERS)] else [];
    var b: seq<Header> := [];
    if upgrade.Some? {
      ListingIsClean(upgrade.value);
      b := [Header(UPGRADE, Listing(upgrade.value))];
      CleanOne(UPGRADE, Listing(upgrade.value));
    }
    var c: seq<Header> := if acceptsTrailers && upgrade.Some? then [Header(CONNECTION_NAME, TE_UPGRADE)]
      else if acceptsTrailers then [Header(CONNECTION_NAME, TE)]
      else if upgrade.Some? then [Header(CONNECTION_NAME, UPGRADE)]
      else [];
    CleanJoin(a, b);
    CleanJoin(a + b, c);
  }

  lemma OwnClean(request: Request, host: Bytes, clientIp: Bytes, proto: ForwardedProto)
    requires IsClean(host) && IsAddress(clientIp)
    ensures AllClean([Header(HOST, host)]) && AllClean(LengthHeaders(request.contentLength))
    ensures AllClean(CodingHeaders(request.hasTransferEncoding)) && AllClean(ForwardedHeaders(host, clientIp, proto))
  {
    hide IsToken, IsClean, AllClean, Decimal, IsAddress;
    NamesAreTokens();
    ValuesAreClean();
    NoneClean();
    AddressIsClean(clientIp);
    CleanOne(HOST, host);
    CleanOne(CODING_NAME, CHUNKED);
    if request.contentLength.Some? {
      DecimalIsClean(request.contentLength.value);
      CleanOne(LENGTH_NAME, Decimal(request.contentLength.value));
    }
    var a, b, c := Header(FORWARDED_FOR, clientIp), Header(FORWARDED_HOST, host), Header(FORWARDED_PROTO, proto.Text());
    CleanOne(FORWARDED_FOR, clientIp);
    CleanOne(FORWARDED_HOST, host);
    CleanOne(FORWARDED_PROTO, proto.Text());
    CleanJoin([a], [b]);
    CleanJoin([a] + [b], [c]);
    assert [a] + [b] + [c] == [a, b, c];
  }

  lemma SentClean(request: Request, ipv6: Bytes -> bool, clientIp: Bytes, proto: ForwardedProto)
    requires AllClean(request.headers) && IsAddress(clientIp)
    requires SentHeaders(request, ipv6, clientIp, proto).Ok?
    ensures AllClean(SentHeaders(request, ipv6, clientIp, proto).value)
  {
    hide Kept, AllClean, UpgradeProtocols, AcceptsTrailers, TrailerHeaders, NamedByConnection, LengthHeaders, CodingHeaders,
      ConnectionHeaders, ForwardedHeaders, IsAuthority, IsUtf8, IsAddress, Named, IsProtocol;
    var headers := request.headers;
    var host := HostOf(headers, ipv6).value;
    NamedClean(headers, HOST);
    FirstClean(Named(headers, HOST));
    var upgrade, trailers := UpgradeProtocols(headers).value, AnnouncedTrailers(request).value;
    KeptClean(headers, headers);
    OwnClean(request, host, clientIp, proto);
    ConnectionClean(upgrade, AcceptsTrailers(headers));
    NoneClean();
    if request.hasTransferEncoding && !NamedByConnection(headers, TRAILER) {
      TrailersClean(headers);
    }
    var s1 := Kept(headers, headers) + [Header(HOST, host)];
    CleanJoin(Kept(headers, headers), [Header(HOST, host)]);
    var s2 := s1 + LengthHeaders(request.contentLength);
    CleanJoin(s1, LengthHeaders(request.contentLength));
    var s3 := s2 + CodingHeaders(request.hasTransferEncoding);
    CleanJoin(s2, CodingHeaders(request.hasTransferEncoding));
    CleanJoin(s3, trailers);
    CleanJoin(s3 + trailers, ConnectionHeaders(AcceptsTrailers(headers), upgrade));
    CleanJoin(s3 + trailers + ConnectionHeaders(AcceptsTrailers(headers), upgrade), ForwardedHeaders(host, clientIp, proto));
  }

  lemma FirstClean(headers: seq<Header>)
    requires AllClean(headers)
    ensures headers != [] ==> IsFieldValue(headers[0].value) && IsTrimmed(headers[0].value)
  {
    if headers != [] {
      assert Clean(headers[0]);
    }
  }

  // ----- reading the lines back -----

  // No CR and no LF.
  predicate IsLine(s: Bytes) {
    s != [] && forall i :: 0 <= i < |s| ==> s[i] != CR && s[i] != LF
  }

  lemma SpacedValue(v: Bytes)
    requires IsTrimmed(v)
    ensures TrimOptionalWhitespace([SPACE] + v) == v
  {
    assert ([SPACE] + v)[1..] == v;
    assert TrimStart([SPACE] + v) == TrimStart(v);
  }

  lemma HeaderReparses(h: Header)
    requires Clean(h)
    ensures ParseHeader(HeaderLine(h)) == Ok(h) && IsLine(HeaderLine(h))
  {
    hide TrimOptionalWhitespace;
    var line, k := HeaderLine(h), |h.name|;
    forall j | 0 <= j < k ensures line[j] != COLON {
      assert line[j] == h.name[j] && IsTokenByte(h.name[j]);
    }
    IndexFromIs(line, COLON, 0, k);
    assert line[..k] == h.name && line[k + 1..] == [SPACE] + h.value;
    SpacedValue(h.value);
  }

  // The header lines without the last CRLF.
  function Block(headers: seq<Header>): Bytes
    requires headers != []
    decreases |headers|
  {
    if |headers| == 1 then HeaderLine(headers[0]) else HeaderLine(headers[0]) + CRLF + Block(headers[1..])
  }

  lemma {:induction false} BlockIs(headers: seq<Header>)
    requires headers != []
    ensures HeaderBytes(headers) == Block(headers) + CRLF
    decreases |headers|
  {
    hide HeaderLine;
    if |headers| == 1 {
      assert HeaderBytes(headers[1..]) == [];
      assert HeaderLine(headers[0]) + CRLF + [] == HeaderLine(headers[0]) + CRLF;
    } else {
      BlockIs(headers[1..]);
      var a, b := HeaderLine(headers[0]) + CRLF, Block(headers[1..]);
      assert a + (b + CRLF) == a + b + CRLF;
    }
  }

  // A search that starts inside a line looks no sooner than at its end.
  lemma {:induction false} FindSkips(s: Bytes, needle: Bytes, i: nat, k: nat)
    requires i <= k <= |s| && forall j :: i <= j < k ==> !At(s, j, needle)
    ensures Find(s, needle, i) == Find(s, needle, k)
    decreases k - i
  {
    if i < k {
      FindSkips(s, needle, i + 1, k);
    }
  }

  lemma FindPastLine(s: Bytes, i: nat, line: Bytes, needle: Bytes)
    requires IsLine(line) && At(s, i, line) && CRLF <= needle
    ensures Find(s, needle, i) == Find(s, needle, i + |line|)
  {
    forall j | i <= j < i + |line| ensures !At(s, j, needle) {
      assert s[j] == s[i..i + |line|][j - i];
      NotAt(s, j, needle, 0);
    }
    FindSkips(s, needle, i, i + |line|);
  }

  predicate WithinCounts(headers: seq<Header>, count: nat) {
    count + |headers| <= MAX_HEADER_COUNT && forall i :: 0 <= i < |headers| ==> |HeaderLine(headers[i])| <= MAX_HEADER_SIZE
  }

  lemma BlockParts(headers: seq<Header>)
    requires headers != []
    ensures |headers| == 1 ==> Block(headers) == HeaderLine(headers[0])
    ensures |headers| > 1 ==> Block(headers) == HeaderLine(headers[0]) + (CRLF + Block(headers[1..]))
  {
    hide HeaderLine;
  }

  // A block of clean header lines is read as those headers, when their number and sizes allow.
  lemma {:induction false} BlockReparses(s: Bytes, i: nat, headers: seq<Header>, count: nat)
    requires headers != [] && AllClean(headers) && i <= |s| && s[i..] == Block(headers)
    ensures HeadersFrom(s, i, count).Ok? <==> WithinCounts(headers, count)
    ensures HeadersFrom(s, i, count).Ok? ==> HeadersFrom(s, i, count).value == headers
    decreases |headers|
  {
    hide ParseHeader, Find, IsLine, HeaderLine, Clean, WithinCounts, Block;
    var h := headers[0];
    assert Clean(h);
    HeaderReparses(h);
    BlockParts(headers);
    var line := HeaderLine(h);
    var k := i + |line|;
    if |headers| == 1 {
      assert s[i..k] == line && k == |s|;
      FindPastLine(s, i, line, CRLF);
      FindAtEnd(s, CRLF);
      assert headers == [h];
      CountsOne(h, count);
    } else {
      var rest := headers[1..];
      SuffixParts(s, i, line, CRLF + Block(rest));
      SuffixParts(s, k, CRLF, Block(rest));
      FindPastLine(s, i, line, CRLF);
      FindIs(s, CRLF, k, k);
      CountsMore(headers, count);
      BlockReparses(s, k + 2, rest, count + 1);
    }
  }

  lemma FindAtEnd(s: Bytes, needle: Bytes)
    requires needle != []
    ensures Find(s, needle, |s|) == None
  {
  }

  lemma CountsOne(h: Header, count: nat)
    ensures WithinCounts([h], count) <==> count < MAX_HEADER_COUNT && |HeaderLine(h)| <= MAX_HEADER_SIZE
  {
    if WithinCounts([h], count) {
      assert |HeaderLine([h][0])| <= MAX_HEADER_SIZE;
    }
  }

  lemma CountsMore(headers: seq<Header>, count: nat)
    requires |headers| > 1
    ensures WithinCounts(headers, count) <==>
            count < MAX_HEADER_COUNT && |HeaderLine(headers[0])| <= MAX_HEADER_SIZE && WithinCounts(headers[1..], count + 1)
  {
    if WithinCounts(headers[1..], count + 1) && |HeaderLine(headers[0])| <= MAX_HEADER_SIZE {
      forall i | 0 <= i < |headers| ensures |HeaderLine(headers[i])| <= MAX_HEADER_SIZE {
        if i > 0 {
          assert headers[i] == headers[1..][i - 1];
        }
      }
    }
    if WithinCounts(headers, count) {
      forall i | 0 <= i < |headers[1..]| ensures |HeaderLine(headers[1..][i])| <= MAX_HEADER_SIZE {
        assert headers[1..][i] == headers[i + 1];
      }
    }
  }

  // Over a line and its break, when another line follows.
  lemma BlankLineStep(s: Bytes, i: nat, line: Bytes, tail: Bytes)
    requires i <= |s| && s[i..] == line + (CRLF + tail) && IsLine(line) && tail != [] && tail[0] != CR
    ensures i + |line| + 2 <= |s| && s[i + |line| + 2..] == tail
    ensures Find(s, BLANK_LINE, i) == Find(s, BLANK_LINE, i + |line| + 2)
  {
    hide Find, IsLine;
    var k := i + |line|;
    SuffixParts(s, i, line, CRLF + tail);
    SuffixParts(s, k, CRLF, tail);
    assert s[k + 2] == tail[0];
    FindPastLine(s, i, line, BLANK_LINE);
    FindPastBreak(s, k);
  }

  // The blank line after clean header lines is found at their end.
  lemma {:induction false} BlankLineAfter(s: Bytes, i: nat, headers: seq<Header>)
    requires headers != [] && AllClean(headers) && i <= |s| && s[i..] == Block(headers) + BLANK_LINE
    ensures Find(s, BLANK_LINE, i).Some? && Find(s, BLANK_LINE, i).value == i + |Block(headers)|
    decreases |headers|
  {
    hide *;
    var h := headers[0];
    CleanSplit(headers);
    HeaderReparses(h);
    BlockStep(headers);
    var line := HeaderLine(h);
    if |headers| == 1 {
      BlankLineHere(s, i, line);
    } else {
      var rest := headers[1..];
      FirstByte(rest);
      BlankLineAssoc(line, Block(rest));
      BlankLineStep(s, i, line, Block(rest) + BLANK_LINE);
      BlankLineAfter(s, i + |line| + 2, rest);
    }
  }

  lemma CleanSplit(headers: seq<Header>)
    requires headers != [] && AllClean(headers)
    ensures Clean(headers[0]) && AllClean(headers[1..])
  {
  }

  lemma BlockStep(headers: seq<Header>)
    requires headers != []
    ensures |headers| == 1 ==> Block(headers) == HeaderLine(headers[0])
    ensures |headers| > 1 ==> Block(headers) == HeaderLine(headers[0]) + CRLF + Block(headers[1..])
  {
  }

  lemma BlankLineAssoc(line: Bytes, rest: Bytes)
    ensures line + CRLF + rest + BLANK_LINE == line + (CRLF + (rest + BLANK_LINE))
  {
  }

  lemma BlankLineHere(s: Bytes, i: nat, line: Bytes)
    requires i <= |s| && s[i..] == line + BLANK_LINE && IsLine(line)
    ensures Find(s, BLANK_LINE, i) == Some(i + |line|)
  {
    hide Find, IsLine;
    SuffixParts(s, i, line, BLANK_LINE);
    var k := i + |line|;
    assert s[k..k + 4] == s[k..] == BLANK_LINE;
    FindPastLine(s, i, line, BLANK_LINE);
    FindIs(s, BLANK_LINE, k, k);
  }

  lemma FirstByte(headers: seq<Header>)
    requires headers != [] && AllClean(headers)
    ensures |Block(headers)| > 0 && Block(headers)[0] != CR
  {
    assert Clean(headers[0]) && IsTokenByte(headers[0].name[0]);
  }

  // A line break that no line break follows is no blank line.
  lemma FindPastBreak(s: Bytes, k: nat)
    requires k + 2 < |s| && s[k..k + 2] == CRLF && s[k + 2] != CR
    ensures Find(s, BLANK_LINE, k) == Find(s, BLANK_LINE, k + 2)
  {
    assert s[k] == s[k..k + 2][0] && s[k + 1] == s[k..k + 2][1];
    NotAt(s, k, BLANK_LINE, 2);
    NotAt(s, k + 1, BLANK_LINE, 0);
    FindSkips(s, BLANK_LINE, k, k + 2);
  }

  lemma RequestLineIsLine(method': Bytes, target: Bytes)
    requires ParseRequestLine(RequestLine(method', target)) == Ok((method', target))
    ensures IsLine(RequestLine(method', target))
  {
    assert forall i :: 0 <= i < |method'| ==> IsTokenByte(method'[i]);
    assert forall i :: 0 <= i < |target| ==> IsTargetByte(target[i]);
  }

  /** The bytes of a head with clean headers parse, all of them, as a request with just these headers,
      when the sizes allow and the headers agree on a body. */
  lemma HeadReparses(method': Bytes, target: Bytes, headers: seq<Header>)
    requires ParseRequestLine(RequestLine(method', target)) == Ok((method', target))
    requires |RequestLine(method', target)| <= MAX_REQUEST_LINE_SIZE
    requires headers != [] && AllClean(headers)
    ensures var out := HeadBytes(method', target, headers);
            && Parse(out) == (if |Block(headers)| > MAX_HEADER_BLOCK_SIZE then Err(HeadersTooLarge)
                              else AllConsumed(Interpret(RequestLine(method', target), Block(headers)), |out|))
    ensures Headers(Block(headers)).Ok? <==> WithinCounts(headers, 0)
    ensures Headers(Block(headers)).Ok? ==> Headers(Block(headers)).value == headers
  {
    hide Find, ParseRequestLine, RequestLine, Block, HeadersFrom, Headers, Parse, HeadBytes, Interpret, AllClean, WithinCounts, IsLine,
      AllConsumed;
    var out, line, block := HeadBytes(method', target, headers), RequestLine(method', target), Block(headers);
    RequestLineIsLine(method', target);
    HeadIs(method', target, headers);
    FirstByte(headers);
    var k := |line|;
    var tail := block + BLANK_LINE;
    SuffixParts(out, 0, line, CRLF + tail);
    SuffixParts(out, k, CRLF, tail);
    SuffixParts(out, k + 2, block, BLANK_LINE);
    assert out[k + 2] == tail[0] == block[0];
    FindPastLine(out, 0, line, CRLF);
    FindHere(out, k, CRLF);
    FindPastLine(out, 0, line, BLANK_LINE);
    FindPastBreak(out, k);
    BlankLineAfter(out, k + 2, headers);
    assert out[..k] == out[0..k];
    ParseAt(out, k, k + 2 + |block|);
    assert block[0..] == block;
    BlockReparses(block, 0, headers, 0);
    HeadersOfBlock(block);
  }

  lemma HeadIs(method': Bytes, target: Bytes, headers: seq<Header>)
    requires headers != []
    ensures var out := HeadBytes(method', target, headers);
            out[0..] == out == RequestLine(method', target) + (CRLF + (Block(headers) + BLANK_LINE))
  {
    hide RequestLine, Block, HeaderBytes;
    BlockIs(headers);
    assert CRLF + CRLF == BLANK_LINE;
  }

  lemma FindHere(s: Bytes, i: nat, needle: Bytes)
    requires i + |needle| <= |s| && s[i..i + |needle|] == needle
    ensures Find(s, needle, i) == Some(i)
  {
  }

  lemma HeadersOfBlock(block: Bytes)
    requires block != []
    ensures Headers(block) == HeadersFrom(block, 0, 0)
  {
  }

  lemma ParseAt(s: Bytes, line: nat, end: nat)
    requires Find(s, CRLF, 0) == Some(line) && Find(s, BLANK_LINE, 0) == Some(end)
    requires line + 2 <= end && end + 4 == |s| && line <= MAX_REQUEST_LINE_SIZE
    ensures Parse(s) == if end - line - 2 > MAX_HEADER_BLOCK_SIZE then Err(HeadersTooLarge)
                        else AllConsumed(Interpret(s[..line], s[line + 2..end]), |s|)
  {
    hide Find, Interpret;
  }

  function AllConsumed(request: Result<Request, ParseError>, length: nat): Result<Head, ParseError> {
    if request.Err? then Err(request.error) else Ok(Head(request.value, length))
  }

  // ----- body framing and host of the headers sent -----

  predicate NoneNamed(headers: seq<Header>, name: Bytes) {
    forall i :: 0 <= i < |headers| ==> !SameIgnoringCase(headers[i].name, name)
  }

  lemma NoneNamedJoin(a: seq<Header>, b: seq<Header>, name: Bytes)
    requires NoneNamed(a, name) && NoneNamed(b, name)
    ensures NoneNamed(a + b, name)
  {
  }

  lemma {:induction false} SkipLength(a: seq<Header>, b: seq<Header>, current: Option<u64>)
    requires NoneNamed(a, CONTENT_LENGTH)
    ensures ContentLengthFrom(a + b, current) == ContentLengthFrom(b, current)
    decreases |a|
  {
    hide SameIgnoringCase, LengthOfParts, IsUtf8;
    if a == [] {
      assert a + b == b;
    } else {
      assert (a + b)[1..] == a[1..] + b;
      SkipLength(a[1..], b, current);
    }
  }

  lemma {:induction false} SkipCoding(a: seq<Header>, b: seq<Header>, saw: bool)
    requires NoneNamed(a, TRANSFER_ENCODING)
    ensures TransferEncodingFrom(a + b, saw) == TransferEncodingFrom(b, saw)
    decreases |a|
  {
    hide SameIgnoringCase, CodingOfParts;
    if a == [] {
      assert a + b == b;
    } else {
      assert (a + b)[1..] == a[1..] + b;
      SkipCoding(a[1..], b, saw);
    }
  }

  lemma {:induction false} SkipNamed(a: seq<Header>, b: seq<Header>, name: Bytes)
    requires NoneNamed(a, name)
    ensures Named(a + b, name) == Named(b, name)
    decreases |a|
  {
    hide SameIgnoringCase;
    if a == [] {
      assert a + b == b;
    } else {
      assert (a + b)[1..] == a[1..] + b;
      SkipNamed(a[1..], b, name);
    }
  }

  lemma {:induction false} KeptNoneNamed(some: seq<Header>, all: seq<Header>, k: nat)
    requires k < |REPLACED|
    ensures NoneNamed(Kept(some, all), REPLACED[k])
    decreases |some|
  {
    hide SameIgnoringCase, NamedByConnection;
    if some != [] {
      KeptNoneNamed(some[1..], all, k);
    }
  }

  // The three names that decide the body and the host.
  predicate Plain(headers: seq<Header>) {
    NoneNamed(headers, CONTENT_LENGTH) && NoneNamed(headers, TRANSFER_ENCODING) && NoneNamed(headers, HOST)
  }

  lemma PlainJoin(a: seq<Header>, b: seq<Header>)
    requires Plain(a) && Plain(b)
    ensures Plain(a + b)
  {
    NoneNamedJoin(a, b, CONTENT_LENGTH);
    NoneNamedJoin(a, b, TRANSFER_ENCODING);
    NoneNamedJoin(a, b, HOST);
  }

  lemma KeptPlain(headers: seq<Header>)
    ensures Plain(Kept(headers, headers))
  {
    hide Kept, NoneNamed;
    KeptNoneNamed(headers, headers, 0);
    KeptNoneNamed(headers, headers, 1);
    KeptNoneNamed(headers, headers, 5);
  }

  predicate IsOtherName(name: Bytes) {
    name in {TRAILER, TE, UPGRADE, CONNECTION_NAME, FORWARDED_FOR, FORWARDED_HOST, FORWARDED_PROTO}
  }

  lemma OtherName(name: Bytes)
    requires IsOtherName(name)
    ensures !SameIgnoringCase(name, CONTENT_LENGTH) && !SameIgnoringCase(name, TRANSFER_ENCODING) && !SameIgnoringCase(name, HOST)
  {
    assert |name| != 17 || Lower(name[0]) == 120;
  }

  lemma OthersPlain(headers: seq<Header>)
    requires forall i :: 0 <= i < |headers| ==> IsOtherName(headers[i].name)
    ensures Plain(headers)
  {
    hide SameIgnoringCase, IsOtherName;
    forall i | 0 <= i < |headers|
      ensures !SameIgnoringCase(headers[i].name, CONTENT_LENGTH)
      ensures !SameIgnoringCase(headers[i].name, TRANSFER_ENCODING)
      ensures !SameIgnoringCase(headers[i].name, HOST)
    {
      OtherName(headers[i].name);
    }
  }

  lemma NoPart(s: Bytes)
    requires COMMA !in s
    ensures Parts(s, COMMA) == [s]
  {
  }

  lemma SameName(s: Bytes, t: Bytes)
    requires |s| == |t| && forall i :: 0 <= i < |s| ==> Lower(s[i]) == Lower(t[i])
    ensures SameIgnoringCase(s, t)
  {
  }

  lemma LengthText(n: u64)
    ensures IsUtf8(Decimal(n)) && LengthOfParts(Parts(Decimal(n), COMMA), None) == Ok(Some(n))
  {
    hide Decimal, IsUtf8, TrimOptionalWhitespace, Parts, DecimalValue;
    var text := Decimal(n);
    AsciiIsUtf8(text);
    NoPart(text);
    var parts := [text];
    var none: seq<Bytes> := [];
    assert parts[1..] == none;
    TrimmedStays(text);
    DecimalParses(n);
  }

  lemma LengthSegment(contentLength: Option<u64>, rest: seq<Header>)
    requires NoneNamed(rest, CONTENT_LENGTH)
    ensures ContentLengthFrom(LengthHeaders(contentLength) + rest, None) == Ok(contentLength)
  {
    hide SameIgnoringCase, Decimal, IsUtf8, LengthOfParts, Parts, NoneNamed, ContentLengthFrom;
    var none: seq<Header> := [];
    assert rest + none == rest;
    SkipLength(rest, none, contentLength);
    if contentLength.None? {
      assert LengthHeaders(contentLength) + rest == rest;
    } else {
      var all := LengthHeaders(contentLength) + rest;
      assert all[0] == Header(LENGTH_NAME, Decimal(contentLength.value)) && all[1..] == rest;
      SameName(LENGTH_NAME, CONTENT_LENGTH);
      LengthText(contentLength.value);
      LengthFirst(all);
    }
    NoLength(contentLength);
  }

  lemma LengthFirst(headers: seq<Header>)
    requires headers != [] && SameIgnoringCase(headers[0].name, CONTENT_LENGTH) && IsUtf8(headers[0].value)
    requires LengthOfParts(Parts(headers[0].value, COMMA), None).Ok?
    ensures ContentLengthFrom(headers, None)
         == ContentLengthFrom(headers[1..], LengthOfParts(Parts(headers[0].value, COMMA), None).value)
  {
  }

  lemma NoLength(contentLength: Option<u64>)
    ensures ContentLengthFrom([], contentLength) == Ok(contentLength)
  {
  }

  lemma TrimmedStays(s: Bytes)
    requires s != [] && !IsBlank(s[0]) && !IsBlank(s[|s| - 1])
    ensures TrimOptionalWhitespace(s) == s
  {
  }

  lemma CodingText()
    ensures CodingOfParts(Parts(CHUNKED, COMMA), false) == Ok(true)
  {
    hide TrimOptionalWhitespace, Parts;
    NoPart(CHUNKED);
    var parts := [CHUNKED];
    var none: seq<Bytes> := [];
    assert parts[1..] == none;
    TrimmedStays(CHUNKED);
    SameName(CHUNKED, CHUNKED);
  }

  lemma CodingSegment(hasTransferEncoding: bool, rest: seq<Header>)
    requires NoneNamed(rest, TRANSFER_ENCODING)
    ensures TransferEncodingFrom(CodingHeaders(hasTransferEncoding) + rest, false) == Ok(hasTransferEncoding)
  {
    hide SameIgnoringCase, CodingOfParts, Parts, NoneNamed;
    var none: seq<Header> := [];
    assert rest + none == rest;
    SkipCoding(rest, none, hasTransferEncoding);
    if !hasTransferEncoding {
      assert CodingHeaders(hasTransferEncoding) + rest == rest;
    } else {
      var all := CodingHeaders(hasTransferEncoding) + rest;
      assert all[0] == Header(CODING_NAME, CHUNKED) && all[1..] == rest;
      SameName(CODING_NAME, TRANSFER_ENCODING);
      CodingText();
    }
  }

  lemma OwnSegments(contentLength: Option<u64>, hasTransferEncoding: bool, host: Bytes)
    ensures NoneNamed([Header(HOST, host)], CONTENT_LENGTH) && NoneNamed([Header(HOST, host)], TRANSFER_ENCODING)
    ensures NoneNamed(LengthHeaders(contentLength), TRANSFER_ENCODING) && NoneNamed(LengthHeaders(contentLength), HOST)
    ensures NoneNamed(CodingHeaders(hasTransferEncoding), CONTENT_LENGTH) && NoneNamed(CodingHeaders(hasTransferEncoding), HOST)
    ensures Named([Header(HOST, host)], HOST) == [Header(HOST, host)]
  {
    SameName(HOST, HOST);
  }

  lemma FramingKept(kept: seq<Header>, host: Bytes, contentLength: Option<u64>, hasTransferEncoding: bool, others: seq<Header>)
    requires Plain(kept) && Plain(others)
    ensures var sent := kept + [Header(HOST, host)] + LengthHeaders(contentLength) + CodingHeaders(hasTransferEncoding) + others;
            && ContentLengthFrom(sent, None) == Ok(contentLength)
            && TransferEncodingFrom(sent, false) == Ok(hasTransferEncoding)
            && Named(sent, HOST) == [Header(HOST, host)]
  {
    hide NoneNamed, ContentLengthFrom, TransferEncodingFrom, Named, LengthHeaders, CodingHeaders;
    var h, l, c := [Header(HOST, host)], LengthHeaders(contentLength), CodingHeaders(hasTransferEncoding);
    var sent := kept + h + l + c + others;
    OwnSegments(contentLength, hasTransferEncoding, host);
    NoneNamedJoin(c, others, CONTENT_LENGTH);
    NoneNamedJoin(kept, h, CONTENT_LENGTH);
    assert sent == (kept + h) + (l + (c + others));
    SkipLength(kept + h, l + (c + others), None);
    LengthSegment(contentLength, c + others);
    NoneNamedJoin(kept, h, TRANSFER_ENCODING);
    NoneNamedJoin(kept + h, l, TRANSFER_ENCODING);
    assert sent == (kept + h + l) + (c + others);
    SkipCoding(kept + h + l, c + others, false);
    CodingSegment(hasTransferEncoding, others);
    NoneNamedJoin(l, c, HOST);
    NoneNamedJoin(l + c, others, HOST);
    assert sent == kept + (h + (l + c + others));
    SkipNamed(kept, h + (l + c + others), HOST);
    NamedFirst(h[0], l + c + others);
  }

  lemma NamedFirst(h: Header, rest: seq<Header>)
    requires NoneNamed(rest, HOST)
    ensures Named([h] + rest, HOST) == Named([h], HOST)
  {
    assert rest + [] == rest && ([h] + rest)[1..] == rest && [h][1..] == [];
    SkipNamed(rest, [], HOST);
  }

  // ----- the rewritten head -----

  predicate WithinLimits(headers: seq<Header>)
    requires headers != []
  {
    WithinCounts(headers, 0) && |Block(headers)| <= MAX_HEADER_BLOCK_SIZE
  }

  // The headers sent are those kept, the host, the framing and others that concern neither.
  lemma SentParts(request: Request, ipv6: Bytes -> bool, clientIp: Bytes, proto: ForwardedProto) returns (host: Bytes, others: seq<Header>)
    requires AllClean(request.headers) && SentHeaders(request, ipv6, clientIp, proto).Ok?
    ensures HostOf(request.headers, ipv6) == Some(host) && Plain(others) && others != []
    ensures SentHeaders(request, ipv6, clientIp, proto).value
         == Kept(request.headers, request.headers) + [Header(HOST, host)] + LengthHeaders(request.contentLength)
            + CodingHeaders(request.hasTransferEncoding) + others
  {
    hide Kept, AllClean, HostOf, UpgradeProtocols, AcceptsTrailers, TrailerHeaders, NamedByConnection, LengthHeaders, CodingHeaders, Plain;
    host := HostOf(request.headers, ipv6).value;
    var trailers := AnnouncedTrailers(request).value;
    var connection := ConnectionHeaders(AcceptsTrailers(request.headers), UpgradeProtocols(request.headers).value);
    var forwarded := ForwardedHeaders(host, clientIp, proto);
    if request.hasTransferEncoding && !NamedByConnection(request.headers, TRAILER) {
      TrailersClean(request.headers);
    }
    OthersPlain(trailers);
    OthersPlain(connection);
    OthersPlain(forwarded);
    PlainJoin(trailers, connection);
    PlainJoin(trailers + connection, forwarded);
    others := trailers + connection + forwarded;
    var front := Kept(request.headers, request.headers) + [Header(HOST, host)] + LengthHeaders(request.contentLength)
                 + CodingHeaders(request.hasTransferEncoding);
    assert front + trailers + connection + forwarded == front + others;
  }

  /** What the proxy sends for a parsed request parses, all of it and within the limits on sizes exactly, as
      a request with the same method, target, host and body framing, whose headers are those sent. */
  lemma RewrittenHead(input: Bytes, ipv6: Bytes -> bool, clientIp: Bytes, proto: ForwardedProto)
    requires Parse(input).Ok? && IsAddress(clientIp)
    requires SentHeaders(Parse(input).value.request, ipv6, clientIp, proto).Ok?
    ensures var request := Parse(input).value.request;
            var sent := SentHeaders(request, ipv6, clientIp, proto).value;
            var out := Serialized(request, ipv6, clientIp, proto).value;
            && sent != []
            && (Parse(out).Ok? <==> WithinLimits(sent))
            && (Parse(out).Ok? ==>
                  var Head(again, consumed) := Parse(out).value;
                  && consumed == |out|
                  && again.method' == request.method' && again.target == request.target && again.headers == sent
                  && again.contentLength == request.contentLength
                  && again.hasTransferEncoding == request.hasTransferEncoding
                  && HostOf(again.headers, ipv6) == HostOf(request.headers, ipv6))
  {
    hide Parse, SentHeaders, AllClean, ParseRequestLine, WithinCounts, Block, HeadBytes, Headers, ContentLengthFrom, TransferEncodingFrom,
      HeaderContainsToken, Plain, Kept, LengthHeaders, CodingHeaders, Named;
    var request := Parse(input).value.request;
    ParsedIsWell(input);
    SentClean(request, ipv6, clientIp, proto);
    var host, others := SentParts(request, ipv6, clientIp, proto);
    KeptPlain(request.headers);
    FramingKept(Kept(request.headers, request.headers), host, request.contentLength, request.hasTransferEncoding, others);
    HeadReparses(request.method', request.target, SentHeaders(request, ipv6, clientIp, proto).value);
  }

  /** A header sent upstream is the proxy's own, or one of the client's that neither concerns the connection
      nor is named by a Connection header. */
  lemma NothingNamedSurvives(request: Request, ipv6: Bytes -> bool, clientIp: Bytes, proto: ForwardedProto, i: nat)
    requires SentHeaders(request, ipv6, clientIp, proto).Ok?
    requires i < |SentHeaders(request, ipv6, clientIp, proto).value|
    ensures var h := SentHeaders(request, ipv6, clientIp, proto).value[i];
            if i < |Kept(request.headers, request.headers)|
            then h in request.headers && !NamedByConnection(request.headers, h.name)
            else IsOwnName(h.name)
  {
    hide Kept, HostOf, UpgradeProtocols, AcceptsTrailers, ShouldReplace, NamedByConnection, TrailerHeaders, LengthHeaders, CodingHeaders,
      ConnectionHeaders, ForwardedHeaders, AllOwn;
    var kept := Kept(request.headers, request.headers);
    if i < |kept| {
      KeptAreClients(request.headers, request.headers, i);
    } else {
      var host := HostOf(request.headers, ipv6).value;
      var l, c, t := LengthHeaders(request.contentLength), CodingHeaders(request.hasTransferEncoding), AnnouncedTrailers(request).value;
      var x := ConnectionHeaders(AcceptsTrailers(request.headers), UpgradeProtocols(request.headers).value);
      var f := ForwardedHeaders(host, clientIp, proto);
      if request.hasTransferEncoding && !NamedByConnection(request.headers, TRAILER) {
        TrailersNamed(request.headers);
      }
      SegmentsAreOwn(request, host, clientIp, proto, t, AcceptsTrailers(request.headers), UpgradeProtocols(request.headers).value);
      var own := [Header(HOST, host)] + l + c + t + x + f;
      OwnJoin([Header(HOST, host)], l);
      OwnJoin([Header(HOST, host)] + l, c);
      OwnJoin([Header(HOST, host)] + l + c, t);
      OwnJoin([Header(HOST, host)] + l + c + t, x);
      OwnJoin([Header(HOST, host)] + l + c + t + x, f);
      assert SentHeaders(request, ipv6, clientIp, proto).value == kept + own;
      OwnAt(own, i - |kept|);
    }
  }

  predicate IsOwnName(name: Bytes) {
    name in {HOST, LENGTH_NAME, CODING_NAME} || IsOtherName(name)
  }

  predicate AllOwn(headers: seq<Header>) {
    forall i :: 0 <= i < |headers| ==> IsOwnName(headers[i].name)
  }

  lemma OwnJoin(a: seq<Header>, b: seq<Header>)
    requires AllOwn(a) && AllOwn(b)
    ensures AllOwn(a + b)
  {
  }

  lemma OwnAt(headers: seq<Header>, i: nat)
    requires AllOwn(headers) && i < |headers|
    ensures IsOwnName(headers[i].name)
  {
  }

  lemma SegmentsAreOwn(request: Request, host: Bytes, clientIp: Bytes, proto: ForwardedProto, trailers: seq<Header>,
                       acceptsTrailers: bool, upgrade: Option<seq<Bytes>>)
    requires forall i :: 0 <= i < |trailers| ==> trailers[i].name == TRAILER
    requires upgrade.Some? ==> upgrade.value != []
    ensures AllOwn([Header(HOST, host)]) && AllOwn(LengthHeaders(request.contentLength))
    ensures AllOwn(CodingHeaders(request.hasTransferEncoding)) && AllOwn(trailers)
    ensures AllOwn(ConnectionHeaders(acceptsTrailers, upgrade)) && AllOwn(ForwardedHeaders(host, clientIp, proto))
  {
    hide Decimal, Listing;
  }

  lemma {:induction false} TrailersNamed(headers: seq<Header>)
    requires TrailerHeaders(headers).Ok?
    ensures forall i :: 0 <= i < |TrailerHeaders(headers).value| ==> TrailerHeaders(headers).value[i].name == TRAILER
    decreases |headers|
  {
    hide ValidTrailerList;
    if headers != [] {
      TrailersNamed(headers[1..]);
    }
  }

  lemma {:induction false} KeptAreClients(some: seq<Header>, all: seq<Header>, i: nat)
    requires i < |Kept(some, all)|
    ensures Kept(some, all)[i] in some && !NamedByConnection(all, Kept(some, all)[i].name)
    decreases |some|
  {
    hide SameIgnoringCase, NamedByConnection;
    var first := if ShouldReplace(all, some[0].name) then [] else [some[0]];
    if i >= |first| {
      KeptAreClients(some[1..], all, i - |first|);
    }
  }
}
