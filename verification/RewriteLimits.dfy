/** When the head the proxy sends is within the parser's limits, told from the
    request before it is sent, and requests at the edges. */
module RewriteLimits {
  import opened Words
  import opened HttpSyntax
  import opened HttpHead
  import opened RequestRewrite

  // ----- sizes -----

  /** How many header lines there are, their bytes with the line breaks, and the longest line. */
  datatype Size = Size(count: nat, bytes: nat, longest: nat)

  const NONE: Size := Size(0, 0, 0)

  function One(length: nat): Size {
    Size(1, length + 2, length)
  }

  function Both(a: Size, b: Size): Size {
    Size(a.count + b.count, a.bytes + b.bytes, if a.longest < b.longest then b.longest else a.longest)
  }

  lemma BothAssociates(a: Size, b: Size, c: Size)
    ensures Both(a, Both(b, c)) == Both(Both(a, b), c) && Both(NONE, a) == a && Both(a, NONE) == a
  {
  }

  function SizeOf(headers: seq<Header>): Size
    decreases |headers|
  {
    if headers == [] then NONE else Both(One(|HeaderLine(headers[0])|), SizeOf(headers[1..]))
  }

  predicate Fits(size: Size) {
    size.count <= MAX_HEADER_COUNT && size.longest <= MAX_HEADER_SIZE && size.bytes <= MAX_HEADER_BLOCK_SIZE + 2
  }

  lemma {:induction false} SizeJoin(a: seq<Header>, b: seq<Header>)
    ensures SizeOf(a + b) == Both(SizeOf(a), SizeOf(b))
    decreases |a|
  {
    hide HeaderLine, Both, One;
    BothAssociates(SizeOf(b), NONE, NONE);
    if a == [] {
      assert a + b == b;
    } else {
      assert (a + b)[1..] == a[1..] + b;
      SizeJoin(a[1..], b);
      BothAssociates(One(|HeaderLine(a[0])|), SizeOf(a[1..]), SizeOf(b));
    }
  }

  lemma SizeOne(h: Header)
    ensures SizeOf([h]) == One(|h.name| + 2 + |h.value|) && SizeOf([]) == NONE
  {
    assert [h][1..] == [];
  }

  lemma {:induction false} SizeMeasures(headers: seq<Header>)
    ensures SizeOf(headers).count == |headers| && SizeOf(headers).bytes == |HeaderBytes(headers)|
    ensures forall limit: nat :: SizeOf(headers).longest <= limit <==> LinesWithin(headers, limit)
    decreases |headers|
  {
    hide HeaderLine;
    if headers != [] {
      SizeMeasures(headers[1..]);
      forall limit: nat ensures SizeOf(headers).longest <= limit <==> LinesWithin(headers, limit) {
        LinesStep(headers, limit);
      }
    }
  }

  predicate LinesWithin(headers: seq<Header>, limit: nat) {
    forall i :: 0 <= i < |headers| ==> |HeaderLine(headers[i])| <= limit
  }

  lemma LinesStep(headers: seq<Header>, limit: nat)
    requires headers != []
    ensures LinesWithin(headers, limit) <==> |HeaderLine(headers[0])| <= limit && LinesWithin(headers[1..], limit)
  {
    hide HeaderLine;
    if |HeaderLine(headers[0])| <= limit && LinesWithin(headers[1..], limit) {
      forall i | 0 <= i < |headers| ensures |HeaderLine(headers[i])| <= limit {
        if i > 0 {
          assert headers[i] == headers[1..][i - 1];
        }
      }
    }
    if LinesWithin(headers, limit) {
      forall i | 0 <= i < |headers[1..]| ensures |HeaderLine(headers[1..][i])| <= limit {
        assert headers[1..][i] == headers[i + 1];
      }
    }
  }

  lemma LimitsAreSizes(headers: seq<Header>)
    requires headers != []
    ensures WithinLimits(headers) <==> Fits(SizeOf(headers))
  {
    hide HeaderLine, SizeOf;
    SizeMeasures(headers);
    BlockIs(headers);
    assert LinesWithin(headers, MAX_HEADER_SIZE) <==> SizeOf(headers).longest <= MAX_HEADER_SIZE;
  }

  // ----- the sizes of what is sent, by the request -----

  // What announcing the trailers takes.
  function TrailerSize(headers: seq<Header>): Size
    decreases |headers|
  {
    if headers == [] then NONE
    else Both(if SameIgnoringCase(headers[0].name, TRAILER) then One(9 + |headers[0].value|) else NONE, TrailerSize(headers[1..]))
  }

  lemma {:induction false} TrailersSized(headers: seq<Header>)
    requires TrailerHeaders(headers).Ok?
    ensures SizeOf(TrailerHeaders(headers).value) == TrailerSize(headers)
    decreases |headers|
  {
    hide ValidTrailerList, SameIgnoringCase, Both, One, SizeOf;
    SizeOne(Header([], []));
    if headers != [] {
      BothAssociates(TrailerSize(headers[1..]), NONE, NONE);
      TrailersSized(headers[1..]);
      if SameIgnoringCase(headers[0].name, TRAILER) {
        var h := Header(TRAILER, headers[0].value);
        SizeOne(h);
        SizeJoin([h], TrailerHeaders(headers[1..]).value);
      }
    }
  }

  // What the connection headers take, given the length of the protocol list if there is one.
  function ConnectionSize(acceptsTrailers: bool, upgrade: Option<nat>): Size {
    Both(Both(if acceptsTrailers then One(12) else NONE, if upgrade.Some? then One(9 + upgrade.value) else NONE),
         if acceptsTrailers && upgrade.Some? then One(23)
         else if acceptsTrailers then One(14)
         else if upgrade.Some? then One(19)
         else NONE)
  }

  // What the kept headers take with the proxy's own: the host, the framing, the trailers, the connection, and
  // the three headers about the forwarding.
  function SentSize(request: Request, host: nat, upgrade: Option<nat>, clientIp: nat, proto: ForwardedProto): Size {
    var kept := SizeOf(Kept(request.headers, request.headers));
    var length := if request.contentLength.Some? then One(16 + |Decimal(request.contentLength.value)|) else NONE;
    var coding := if request.hasTransferEncoding then One(26) else NONE;
    var trailers := if request.hasTransferEncoding && !NamedByConnection(request.headers, TRAILER) then TrailerSize(request.headers)
                    else NONE;
    var forwarding := Both(Both(One(17 + clientIp), One(18 + host)), One(19 + |proto.Text()|));
    Both(Both(Both(Both(Both(Both(kept, One(6 + host)), length), coding), trailers),
              ConnectionSize(AcceptsTrailers(request.headers), upgrade)), forwarding)
  }

  function UpgradeLength(upgrade: Option<seq<Bytes>>): Option<nat>
    requires upgrade.Some? ==> upgrade.value != []
  {
    if upgrade.None? then None else Some(|Listing(upgrade.value)|)
  }

  /** The kept headers and the proxy's own are together within the limits. */
  predicate RequestFits(request: Request, host: Bytes, upgrade: Option<seq<Bytes>>, clientIp: Bytes, proto: ForwardedProto)
    requires upgrade.Some? ==> upgrade.value != []
  {
    Fits(SentSize(request, |host|, UpgradeLength(upgrade), |clientIp|, proto))
  }

  lemma ConnectionSized(acceptsTrailers: bool, upgrade: Option<seq<Bytes>>)
    requires upgrade.Some? ==> upgrade.value != []
    ensures SizeOf(ConnectionHeaders(acceptsTrailers, upgrade)) == ConnectionSize(acceptsTrailers, UpgradeLength(upgrade))
  {
    hide SizeOf, Listing, Both;
    var a: seq<Header> := if acceptsTrailers then [Header(TE, TRAILERS)] else [];
    var b: seq<Header> := if upgrade.Some? then [Header(UPGRADE, Listing(upgrade.value))] else [];
    var c: seq<Header> := if acceptsTrailers && upgrade.Some? then [Header(CONNECTION_NAME, TE_UPGRADE)]
      else if acceptsTrailers then [Header(CONNECTION_NAME, TE)]
      else if upgrade.Some? then [Header(CONNECTION_NAME, UPGRADE)]
      else [];
    SizeJoin(a, b);
    SizeJoin(a + b, c);
    SizeOne(Header(TE, TRAILERS));
    if upgrade.Some? {
      SizeOne(b[0]);
    }
    SizeOne(Header(CONNECTION_NAME, TE_UPGRADE));
    SizeOne(Header(CONNECTION_NAME, TE));
    SizeOne(Header(CONNECTION_NAME, UPGRADE));
  }

  lemma OwnSized(request: Request, host: Bytes, clientIp: Bytes, proto: ForwardedProto)
    ensures SizeOf([Header(HOST, host)]) == One(6 + |host|)
    ensures SizeOf(LengthHeaders(request.contentLength))
         == if request.contentLength.Some? then One(16 + |Decimal(request.contentLength.value)|) else NONE
    ensures SizeOf(CodingHeaders(request.hasTransferEncoding)) == if request.hasTransferEncoding then One(26) else NONE
    ensures SizeOf(ForwardedHeaders(host, clientIp, proto))
         == Both(Both(One(17 + |clientIp|), One(18 + |host|)), One(19 + |proto.Text()|))
  {
    hide SizeOf, Decimal, Both;
    SizeOne(Header(HOST, host));
    if request.contentLength.Some? {
      SizeOne(Header(LENGTH_NAME, Decimal(request.contentLength.value)));
    }
    SizeOne(Header(CODING_NAME, CHUNKED));
    var a, b, c := Header(FORWARDED_FOR, clientIp), Header(FORWARDED_HOST, host), Header(FORWARDED_PROTO, proto.Text());
    SizeOne(a);
    SizeOne(b);
    SizeOne(c);
    SizeJoin([a], [b]);
    SizeJoin([a] + [b], [c]);
    assert [a] + [b] + [c] == ForwardedHeaders(host, clientIp, proto);
  }

  lemma SentSized(request: Request, ipv6: Bytes -> bool, clientIp: Bytes, proto: ForwardedProto)
    requires SentHeaders(request, ipv6, clientIp, proto).Ok?
    ensures var host, upgrade := HostOf(request.headers, ipv6).value, UpgradeProtocols(request.headers).value;
            SizeOf(SentHeaders(request, ipv6, clientIp, proto).value)
            == SentSize(request, |host|, UpgradeLength(upgrade), |clientIp|, proto)
  {
    hide Kept, HostOf, UpgradeProtocols, AcceptsTrailers, TrailerHeaders, NamedByConnection, LengthHeaders, CodingHeaders,
      ConnectionHeaders, ForwardedHeaders, SizeOf, TrailerSize, ConnectionSize, Decimal, Both, One, UpgradeLength;
    var host, upgrade := HostOf(request.headers, ipv6).value, UpgradeProtocols(request.headers).value;
    var k, h, l, c := Kept(request.headers, request.headers), [Header(HOST, host)], LengthHeaders(request.contentLength),
      CodingHeaders(request.hasTransferEncoding);
    var t, x, f := AnnouncedTrailers(request).value, ConnectionHeaders(AcceptsTrailers(request.headers), upgrade),
      ForwardedHeaders(host, clientIp, proto);
    OwnSized(request, host, clientIp, proto);
    ConnectionSized(AcceptsTrailers(request.headers), upgrade);
    if request.hasTransferEncoding && !NamedByConnection(request.headers, TRAILER) {
      TrailersSized(request.headers);
    } else {
      SizeOne(h[0]);
    }
    SizeJoin(k, h);
    SizeJoin(k + h, l);
    SizeJoin(k + h + l, c);
    SizeJoin(k + h + l + c, t);
    SizeJoin(k + h + l + c + t, x);
    SizeJoin(k + h + l + c + t + x, f);
  }

  /** The head sent for a parsed request parses exactly when the kept headers and the proxy's own, counted
      and measured on the request and the client's address, are within the limits. */
  lemma SentHeadParsesIff(input: Bytes, ipv6: Bytes -> bool, clientIp: Bytes, proto: ForwardedProto)
    requires Parse(input).Ok? && IsAddress(clientIp)
    requires SentHeaders(Parse(input).value.request, ipv6, clientIp, proto).Ok?
    ensures var request := Parse(input).value.request;
            Parse(Serialized(request, ipv6, clientIp, proto).value).Ok?
            <==> RequestFits(request, HostOf(request.headers, ipv6).value, UpgradeProtocols(request.headers).value, clientIp, proto)
  {
    hide Parse, SentHeaders, Serialized, HostOf, UpgradeProtocols, Kept, SentSize, UpgradeLength, SizeOf, WithinLimits;
    var request := Parse(input).value.request;
    RewrittenHead(input, ipv6, clientIp, proto);
    SentSized(request, ipv6, clientIp, proto);
    LimitsAreSizes(SentHeaders(request, ipv6, clientIp, proto).value);
  }

  // ----- requests at the edges -----

  // The only spaces of a request line are the two that delimit the target.
  lemma RequestLineBytes(method': Bytes, target: Bytes)
    requires IsToken(method') && IsTarget(target) && forall i :: 0 <= i < |target| ==> target[i] <= 0x7f
    ensures var line, a, b := RequestLine(method', target), |method'|, |method'| + 1 + |target|;
            |line| == b + 9 && forall j :: 0 <= j < |line| ==> line[j] <= 0x7f && (line[j] == SPACE <==> j == a || j == b)
  {
    var line, a := RequestLine(method', target), |method'|;
    var b := a + 1 + |target|;
    forall j | 0 <= j < |line|
      ensures line[j] <= 0x7f && (line[j] == SPACE <==> j == a || j == b)
    {
      if j < a {
        assert line[j] == method'[j] && IsTokenByte(method'[j]);
      } else if a < j < b {
        assert line[j] == target[j - a - 1] && IsTargetByte(target[j - a - 1]);
      } else if b < j {
        assert line[j] == HTTP_1_1[j - b - 1];
      }
    }
  }

  // The request line of a method and a target of ASCII bytes is read as these.
  lemma RequestLineParses(method': Bytes, target: Bytes)
    requires IsToken(method') && IsTarget(target) && forall i :: 0 <= i < |target| ==> target[i] <= 0x7f
    ensures ParseRequestLine(RequestLine(method', target)) == Ok((method', target))
  {
    hide IsUtf8, IsToken, IsTarget, IndexFrom;
    var line, a := RequestLine(method', target), |method'|;
    var b := a + 1 + |target|;
    RequestLineBytes(method', target);
    AsciiIsUtf8(line);
    IndexFromIs(line, SPACE, 0, a);
    IndexFromIs(line, SPACE, a + 1, b);
    assert line[..a] == method' && line[a + 1..b] == target && line[b + 1..] == HTTP_1_1;
  }

  // A host and n more headers without a value.
  function ManyHeaders(n: nat): seq<Header> {
    [Header(HOST, [97])] + More(n)
  }

  function More(n: nat): seq<Header> {
    if n == 0 then [] else [Header([97], [])] + More(n - 1)
  }

  lemma {:induction false} MoreSized(n: nat)
    ensures SizeOf(More(n)) == Size(n, 5 * n, if n == 0 then 0 else 3) && |More(n)| == n
    ensures forall i :: 0 <= i < n ==> More(n)[i] == Header([97], [])
  {
    hide SizeOf;
    SizeOne(Header([97], []));
    if n > 0 {
      MoreSized(n - 1);
      SizeJoin([Header([97], [])], More(n - 1));
    }
  }

  lemma ManySized(n: nat)
    ensures SizeOf(ManyHeaders(n)) == Size(n + 1, 5 * n + 9, 7) && |ManyHeaders(n)| == n + 1
    ensures ManyHeaders(n)[0] == Header(HOST, [97]) && ManyHeaders(n)[1..] == More(n)
    ensures forall i :: 0 < i <= n ==> ManyHeaders(n)[i] == Header([97], [])
  {
    hide SizeOf;
    MoreSized(n);
    SizeOne(Header(HOST, [97]));
    SizeJoin([Header(HOST, [97])], More(n));
  }

  lemma ManyClean(n: nat)
    ensures AllClean(ManyHeaders(n))
  {
    ManySized(n);
    NamesAreTokens();
  }

  // None of the headers has a name that matters to the framing or the connection.
  lemma ManyPlain(n: nat)
    ensures NoneNamed(ManyHeaders(n), CONTENT_LENGTH) && NoneNamed(ManyHeaders(n), TRANSFER_ENCODING)
    ensures NoneNamed(ManyHeaders(n), UPGRADE) && NoneNamed(ManyHeaders(n), CONNECTION) && NoneNamed(More(n), HOST)
  {
    ManySized(n);
    MoreSized(n);
  }

  lemma NothingNamed(headers: seq<Header>, token: Bytes)
    requires NoneNamed(headers, CONNECTION)
    ensures !NamedByConnection(headers, token)
  {
  }

  lemma {:induction false} NoProtocols(headers: seq<Header>)
    requires NoneNamed(headers, UPGRADE)
    ensures ListedProtocols(headers) == Some([])
    decreases |headers|
  {
    hide SameIgnoringCase;
    if headers != [] {
      NoProtocols(headers[1..]);
    }
  }

  lemma {:induction false} MoreKept(n: nat, all: seq<Header>)
    requires NoneNamed(all, CONNECTION)
    ensures Kept(More(n), all) == More(n)
  {
    if n > 0 {
      NothingNamed(all, [97]);
      MoreKept(n - 1, all);
      assert More(n)[1..] == More(n - 1);
      NotReplaced();
    }
  }

  lemma NotReplaced()
    ensures forall i :: 0 <= i < |REPLACED| ==> !SameIgnoringCase([97], REPLACED[i])
  {
  }

  lemma HostReplaced(all: seq<Header>)
    ensures ShouldReplace(all, HOST)
  {
    assert REPLACED[0] == HOST;
    SameName(HOST, HOST);
  }

  lemma ShortHost(ipv6: Bytes -> bool)
    ensures IsUtf8([97]) && IsAuthority([97], ipv6)
  {
    var s: Bytes := [97];
    AsciiIsUtf8(s);
    assert IndexFrom(s, COLON, 0) == 1 && s[..1] == s;
    assert IndexFrom(s, 46, 0) == 1;
    var parts := Parts(s, 46);
    assert parts == [s];
    assert IsHostLabel(parts[0]);
    assert IsHostname(s);
  }

  function ManyRequest(n: nat): Request {
    Request([71], [47], ManyHeaders(n), None, false, true)
  }

  // The head of the request is accepted as long as its headers are few enough.
  lemma ManyAccepted(n: nat)
    requires n < MAX_HEADER_COUNT
    ensures var input := HeadBytes([71], [47], ManyHeaders(n)); Parse(input) == Ok(Head(ManyRequest(n), |input|))
  {
    hide Parse, HeadBytes, ParseRequestLine, Headers, ContentLengthFrom, TransferEncodingFrom, SizeOf, ManyHeaders, NoneNamed, AllClean, Block,
      WithinCounts;
    var headers, none: seq<Header> := ManyHeaders(n), [];
    RequestLineParses([71], [47]);
    ManySized(n);
    ManyClean(n);
    ManyPlain(n);
    LimitsAreSizes(headers);
    HeadReparses([71], [47], headers);
    assert headers + none == headers;
    SkipLength(headers, none, None);
    SkipCoding(headers, none, false);
    Unframed();
    NothingNamed(headers, CLOSE);
  }

  lemma Unframed()
    ensures ContentLengthFrom([], None) == Ok(None) && TransferEncodingFrom([], false) == Ok(false)
  {
  }

  lemma ManySent(n: nat, ipv6: Bytes -> bool, clientIp: Bytes, proto: ForwardedProto)
    ensures HostOf(ManyHeaders(n), ipv6) == Some([97]) && UpgradeProtocols(ManyHeaders(n)) == Ok(None)
    ensures Kept(ManyHeaders(n), ManyHeaders(n)) == More(n) && !AcceptsTrailers(ManyHeaders(n))
    ensures SentHeaders(ManyRequest(n), ipv6, clientIp, proto).Ok?
  {
    hide IsAuthority, IsUtf8, NoneNamed, ListedProtocols, Kept, NamedByConnection, ShouldReplace;
    var headers := ManyHeaders(n);
    ManySized(n);
    ManyPlain(n);
    NamedFirst(Header(HOST, [97]), More(n));
    HostAlone();
    ShortHost(ipv6);
    NoProtocols(headers);
    NothingNamed(headers, UPGRADE);
    NothingNamed(headers, TE);
    HostReplaced(headers);
    MoreKept(n, headers);
    KeptStep(headers, headers);
  }

  lemma KeptStep(some: seq<Header>, all: seq<Header>)
    requires some != [] && ShouldReplace(all, some[0].name)
    ensures Kept(some, all) == Kept(some[1..], all)
  {
    assert [] + Kept(some[1..], all) == Kept(some[1..], all);
  }

  lemma HostAlone()
    ensures Named([Header(HOST, [97])], HOST) == [Header(HOST, [97])]
  {
    SameName(HOST, HOST);
  }

  /** A request with a host and 97 other headers is accepted, and the proxy's head for it, with 101 headers, is
      not. */
  lemma RewriteCanOverflow(ipv6: Bytes -> bool, clientIp: Bytes, proto: ForwardedProto)
    requires IsAddress(clientIp)
    ensures var input := HeadBytes([71], [47], ManyHeaders(97));
            && Parse(input) == Ok(Head(ManyRequest(97), |input|))
            && SentHeaders(ManyRequest(97), ipv6, clientIp, proto).Ok?
            && Parse(Serialized(ManyRequest(97), ipv6, clientIp, proto).value).Err?
  {
    hide Parse, SentHeaders, Serialized, HeadBytes, HostOf, UpgradeProtocols, Kept, SizeOf, ManyHeaders, More, AcceptsTrailers;
    var input := HeadBytes([71], [47], ManyHeaders(97));
    ManyAccepted(97);
    ManySent(97, ipv6, clientIp, proto);
    MoreSized(97);
    SentHeadParsesIff(input, ipv6, clientIp, proto);
  }

  function Repeated(n: nat): (s: Bytes)
    ensures |s| == n && forall i :: 0 <= i < n ==> s[i] == 97
  {
    if n == 0 then [] else [97] + Repeated(n - 1)
  }

  /** A head with a request line of 8192 bytes is accepted, and cut between the CR and LF of that line it is
      refused as too long. */
  lemma LongestLineCut()
    ensures var input := HeadBytes([71], Repeated(8181), ManyHeaders(0));
            && Parse(input).Ok? && RequestLineLength(Parse(input).value.request) == MAX_REQUEST_LINE_SIZE
            && Parse(input[..MAX_REQUEST_LINE_SIZE + 1]) == Err(RequestLineTooLong)
  {
    hide Parse, HeadBytes, ParseRequestLine, Headers, ContentLengthFrom, TransferEncodingFrom, SizeOf, ManyHeaders, NoneNamed, AllClean, Block,
      WithinCounts, Repeated, NamedByConnection, HeaderContainsToken;
    var headers, none: seq<Header> := ManyHeaders(0), [];
    var target := Repeated(8181);
    var input := HeadBytes([71], target, headers);
    RequestLineParses([71], target);
    ManySized(0);
    ManyClean(0);
    ManyPlain(0);
    LimitsAreSizes(headers);
    HeadReparses([71], target, headers);
    assert headers + none == headers;
    SkipLength(headers, none, None);
    SkipCoding(headers, none, false);
    Unframed();
    var line, end := HeadParts(input);
    ProperPrefix(input, MAX_REQUEST_LINE_SIZE + 1);
  }
}
