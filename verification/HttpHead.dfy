/** Parsing an HTTP/1.1 request head from the bytes received so far, and the
    loop that reads until a head is there. */
module HttpHead {
  import opened Words
  import opened HttpSyntax
  import opened Streams

  const MAX_REQUEST_LINE_SIZE := 8192
  const MAX_HEADER_SIZE := 8192
  const MAX_HEADER_BLOCK_SIZE := 32768
  const MAX_HEADER_COUNT := 100
  const MAX_REQUEST_HEAD_SIZE := MAX_REQUEST_LINE_SIZE + 2 + MAX_HEADER_BLOCK_SIZE + 4
  const READ_CHUNK_SIZE := 4096

  datatype ParseError =
    | IncompleteHeaders | InvalidRequestLine | InvalidHeader | InvalidContentLength | ConflictingContentLength
    | InvalidTransferEncoding | AmbiguousBodyFraming | RequestLineTooLong | HeaderTooLong | HeadersTooLarge
    | TooManyHeaders | UnsupportedVersion(version: Bytes)

  datatype Header = Header(name: Bytes, value: Bytes)

  datatype Request = Request(method': Bytes, target: Bytes, headers: seq<Header>, contentLength: Option<u64>,
                             hasTransferEncoding: bool, keepAlive: bool)

  datatype Head = Head(request: Request, consumed: nat)

  // ----- names and values the parser looks for -----

  const BLANK_LINE: Bytes := [13, 10, 13, 10]
  const HTTP_1_1: Bytes := [72, 84, 84, 80, 47, 49, 46, 49]
  const HTTP_SLASH: Bytes := [72, 84, 84, 80, 47]
  const CONTENT_LENGTH: Bytes := [99, 111, 110, 116, 101, 110, 116, 45, 108, 101, 110, 103, 116, 104]
  const TRANSFER_ENCODING: Bytes := [116, 114, 97, 110, 115, 102, 101, 114, 45, 101, 110, 99, 111, 100, 105, 110, 103]
  const CONNECTION: Bytes := [99, 111, 110, 110, 101, 99, 116, 105, 111, 110]
  const CHUNKED: Bytes := [99, 104, 117, 110, 107, 101, 100]
  const CLOSE: Bytes := [99, 108, 111, 115, 101]

  // ----- the request line -----

  predicate IsTargetByte(b: byte) {
    32 < b && b != 127
  }

  predicate IsTarget(s: Bytes) {
    s != [] && forall i :: 0 <= i < |s| ==> IsTargetByte(s[i])
  }

  function RequestLine(method': Bytes, target: Bytes): Bytes {
    method' + [SPACE] + target + [SPACE] + HTTP_1_1
  }

  function ParseRequestLine(line: Bytes): Result<(Bytes, Bytes), ParseError> {
    if !IsUtf8(line) then Err(InvalidRequestLine)
    else
      var a := IndexFrom(line, SPACE, 0);
      if a == |line| then Err(InvalidRequestLine)
      else
        var b := IndexFrom(line, SPACE, a + 1);
        if b == |line| || IndexFrom(line, SPACE, b + 1) != |line| then Err(InvalidRequestLine)
        else
          var version := line[b + 1..];
          if !IsToken(line[..a]) || !IsTarget(line[a + 1..b]) then Err(InvalidRequestLine)
          else if version == HTTP_1_1 then Ok((line[..a], line[a + 1..b]))
          else if HTTP_SLASH <= version then Err(UnsupportedVersion(version))
          else Err(InvalidRequestLine)
  }

  // ----- the header block -----

  function ParseHeader(line: Bytes): Result<Header, ParseError> {
    var k := IndexFrom(line, COLON, 0);
    if k == |line| then Err(InvalidHeader)
    else
      var value := TrimOptionalWhitespace(line[k + 1..]);
      if !IsToken(line[..k]) || !IsFieldValue(value) then Err(InvalidHeader)
      else Ok(Header(line[..k], value))
  }

  // Where the line that starts at i ends.
  function LineEnd(s: Bytes, i: nat): (k: nat)
    requires i <= |s|
    ensures i <= k <= |s| && (k == |s| || k + 2 <= |s|)
  {
    var r := Find(s, CRLF, i);
    if r.None? then |s| else r.value
  }

  function Prepend(headers: seq<Header>, rest: Result<seq<Header>, ParseError>): (r: Result<seq<Header>, ParseError>)
    ensures r.Err? <==> rest.Err?
    ensures r.Err? ==> r == rest
  {
    if rest.Err? then rest else Ok(headers + rest.value)
  }

  // The headers from i on, after count others.
  function HeadersFrom(s: Bytes, i: nat, count: nat): (r: Result<seq<Header>, ParseError>)
    requires i <= |s|
    ensures r.Err? ==> r.error != IncompleteHeaders
    decreases |s| - i
  {
    var k := LineEnd(s, i);
    if k - i > MAX_HEADER_SIZE then Err(HeaderTooLong)
    else if count >= MAX_HEADER_COUNT then Err(TooManyHeaders)
    else
      var header := ParseHeader(s[i..k]);
      if header.Err? then Err(header.error)
      else if k == |s| then Ok([header.value])
      else Prepend([header.value], HeadersFrom(s, k + 2, count + 1))
  }

  function Headers(block: Bytes): Result<seq<Header>, ParseError> {
    if block == [] then Ok([]) else HeadersFrom(block, 0, 0)
  }

  // ----- body framing -----

  function Digit(b: byte): (v: nat)
    requires IsDigit(b)
    ensures v < 10
  {
    b - 48
  }

  function DecimalValue(s: Bytes): nat
    requires forall i :: 0 <= i < |s| ==> IsDigit(s[i])
    decreases |s|
  {
    if s == [] then 0 else 10 * DecimalValue(s[..|s| - 1]) + Digit(s[|s| - 1])
  }

  function ParseLength(text: Bytes): Option<u64> {
    if text == [] || exists i :: 0 <= i < |text| && !IsDigit(text[i]) then None
    else if DecimalValue(text) >= 0x1_0000_0000_0000_0000 then None
    else Some(DecimalValue(text))
  }

  // The agreed length so far, extended by more values of the list.
  function LengthOfParts(parts: seq<Bytes>, current: Option<u64>): (r: Result<Option<u64>, ParseError>)
    ensures r.Err? ==> r.error != IncompleteHeaders
    decreases |parts|
  {
    if parts == [] then Ok(current)
    else
      var parsed := ParseLength(TrimOptionalWhitespace(parts[0]));
      if parsed.None? then Err(InvalidContentLength)
      else if current.Some? && current != parsed then Err(ConflictingContentLength)
      else LengthOfParts(parts[1..], parsed)
  }

  function ContentLengthFrom(headers: seq<Header>, current: Option<u64>): (r: Result<Option<u64>, ParseError>)
    ensures r.Err? ==> r.error != IncompleteHeaders
    decreases |headers|
  {
    if headers == [] then Ok(current)
    else if !SameIgnoringCase(headers[0].name, CONTENT_LENGTH) then ContentLengthFrom(headers[1..], current)
    else if !IsUtf8(headers[0].value) then Err(InvalidContentLength)
    else
      var length := LengthOfParts(Parts(headers[0].value, COMMA), current);
      if length.Err? then length else ContentLengthFrom(headers[1..], length.value)
  }

  function CodingOfParts(parts: seq<Bytes>, sawChunked: bool): (r: Result<bool, ParseError>)
    ensures r.Err? ==> r.error != IncompleteHeaders
    decreases |parts|
  {
    if parts == [] then Ok(sawChunked)
    else
      var coding := TrimOptionalWhitespace(parts[0]);
      if coding == [] || !SameIgnoringCase(coding, CHUNKED) || sawChunked then Err(InvalidTransferEncoding)
      else CodingOfParts(parts[1..], true)
  }

  function TransferEncodingFrom(headers: seq<Header>, sawChunked: bool): (r: Result<bool, ParseError>)
    ensures r.Err? ==> r.error != IncompleteHeaders
    decreases |headers|
  {
    if headers == [] then Ok(sawChunked)
    else if !SameIgnoringCase(headers[0].name, TRANSFER_ENCODING) then TransferEncodingFrom(headers[1..], sawChunked)
    else
      var coding := CodingOfParts(Parts(headers[0].value, COMMA), sawChunked);
      if coding.Err? then coding else TransferEncodingFrom(headers[1..], coding.value)
  }

  predicate ListHolds(value: Bytes, token: Bytes) {
    exists i :: 0 <= i < |Parts(value, COMMA)| && SameIgnoringCase(TrimOptionalWhitespace(Parts(value, COMMA)[i]), token)
  }

  predicate HeaderContainsToken(headers: seq<Header>, name: Bytes, token: Bytes) {
    exists i :: 0 <= i < |headers| && SameIgnoringCase(headers[i].name, name) && ListHolds(headers[i].value, token)
  }

  // ----- the head -----

  function HeaderBlock(input: Bytes, lineEnd: nat, headerEnd: nat): Bytes
    requires At(input, lineEnd, CRLF) && At(input, headerEnd, BLANK_LINE) && lineEnd <= headerEnd
  {
    assert input[lineEnd..lineEnd + 2][1] == LF && input[headerEnd..headerEnd + 4][0] == CR;
    if lineEnd == headerEnd then [] else input[lineEnd + 2..headerEnd]
  }

  // The request a request line and a header block stand for.
  function Interpret(line: Bytes, block: Bytes): (r: Result<Request, ParseError>)
    ensures r.Err? ==> r.error != IncompleteHeaders
  {
    var parts := ParseRequestLine(line);
    if parts.Err? then Err(parts.error)
    else
      var headers := Headers(block);
      if headers.Err? then Err(headers.error)
      else
        var contentLength := ContentLengthFrom(headers.value, None);
        if contentLength.Err? then Err(contentLength.error)
        else
          var coding := TransferEncodingFrom(headers.value, false);
          if coding.Err? then Err(coding.error)
          else if contentLength.value.Some? && coding.value then Err(AmbiguousBodyFraming)
          else Ok(Request(parts.value.0, parts.value.1, headers.value, contentLength.value, coding.value,
                          !HeaderContainsToken(headers.value, CONNECTION, CLOSE)))
  }

  function Parse(input: Bytes): (r: Result<Head, ParseError>)
    ensures r.Ok? ==> 4 <= r.value.consumed <= |input|
  {
    var line := Find(input, CRLF, 0);
    if line.None? then Err(if |input| > MAX_REQUEST_LINE_SIZE then RequestLineTooLong else IncompleteHeaders)
    else if line.value > MAX_REQUEST_LINE_SIZE then Err(RequestLineTooLong)
    else
      var end := Find(input, BLANK_LINE, 0);
      if end.None? then Err(if |input| >= MAX_REQUEST_HEAD_SIZE then HeadersTooLarge else IncompleteHeaders)
      else if line.value > end.value then Err(InvalidRequestLine)
      else
        var block := HeaderBlock(input, line.value, end.value);
        if |block| > MAX_HEADER_BLOCK_SIZE then Err(HeadersTooLarge)
        else
          var request := Interpret(input[..line.value], block);
          if request.Err? then Err(request.error) else Ok(Head(request.value, end.value + 4))
  }

  // ----- the loops of the parser -----

  lemma PrependTwice(headers: seq<Header>, h: Header, rest: Result<seq<Header>, ParseError>)
    ensures Prepend(headers, Prepend([h], rest)) == Prepend(headers + [h], rest)
  {
    if rest.Ok? {
      assert headers + ([h] + rest.value) == headers + [h] + rest.value;
    }
  }

  lemma PrependNone(rest: Result<seq<Header>, ParseError>)
    ensures Prepend([], rest) == rest
  {
    if rest.Ok? {
      assert [] + rest.value == rest.value;
    }
  }

  lemma PrependOk(headers: seq<Header>, h: Header)
    ensures Prepend(headers, Ok([h])) == Ok(headers + [h])
  {
  }

  lemma HeadersStep(s: Bytes, i: nat, count: nat)
    requires i <= |s|
    ensures var k, r := LineEnd(s, i), HeadersFrom(s, i, count);
            && (k - i > MAX_HEADER_SIZE ==> r == Err(HeaderTooLong))
            && (k - i <= MAX_HEADER_SIZE && count >= MAX_HEADER_COUNT ==> r == Err(TooManyHeaders))
            && (k - i <= MAX_HEADER_SIZE && count < MAX_HEADER_COUNT ==>
                  var header := ParseHeader(s[i..k]);
                  && (header.Err? ==> r == Err(header.error))
                  && (header.Ok? && k == |s| ==> r == Ok([header.value]))
                  && (header.Ok? && k < |s| ==> r == Prepend([header.value], HeadersFrom(s, k + 2, count + 1))))
  {
    hide ParseHeader, LineEnd, Prepend;
  }

  method ParseHeaders(block: Bytes) returns (r: Result<seq<Header>, ParseError>)
    ensures r == Headers(block)
  {
    hide ParseHeader, LineEnd, Prepend, HeadersFrom;
    if block == [] {
      return Ok([]);
    }
    var headers: seq<Header> := [];
    var i: nat := 0;
    PrependNone(HeadersFrom(block, 0, 0));
    while true
      invariant i <= |block|
      invariant Headers(block) == Prepend(headers, HeadersFrom(block, i, |headers|))
      decreases |block| - i
    {
      HeadersStep(block, i, |headers|);
      var k := LineEnd(block, i);
      if k - i > MAX_HEADER_SIZE {
        return Err(HeaderTooLong);
      }
      if |headers| >= MAX_HEADER_COUNT {
        return Err(TooManyHeaders);
      }
      var header := ParseHeader(block[i..k]);
      if header.Err? {
        return Err(header.error);
      }
      if k == |block| {
        PrependOk(headers, header.value);
        return Ok(headers + [header.value]);
      }
      PrependTwice(headers, header.value, HeadersFrom(block, k + 2, |headers| + 1));
      headers := headers + [header.value];
      i := k + 2;
    }
  }

  method ParseContentLength(headers: seq<Header>) returns (r: Result<Option<u64>, ParseError>)
    ensures r == ContentLengthFrom(headers, None)
  {
    var contentLength: Option<u64> := None;
    for i := 0 to |headers|
      invariant ContentLengthFrom(headers, None) == ContentLengthFrom(headers[i..], contentLength)
    {
      if SameIgnoringCase(headers[i].name, CONTENT_LENGTH) {
        if !IsUtf8(headers[i].value) {
          return Err(InvalidContentLength);
        }
        var parts := Parts(headers[i].value, COMMA);
        ghost var before := contentLength;
        for j := 0 to |parts|
          invariant LengthOfParts(parts, before) == LengthOfParts(parts[j..], contentLength)
        {
          var value := Trim(parts[j]);
          var parsed := ParseLength(value);
          if parsed.None? {
            return Err(InvalidContentLength);
          }
          if contentLength.Some? && contentLength != parsed {
            return Err(ConflictingContentLength);
          }
          contentLength := parsed;
        }
      }
    }
    r := Ok(contentLength);
  }

  method ParseTransferEncoding(headers: seq<Header>) returns (r: Result<bool, ParseError>)
    ensures r == TransferEncodingFrom(headers, false)
  {
    var sawChunked := false;
    for i := 0 to |headers|
      invariant TransferEncodingFrom(headers, false) == TransferEncodingFrom(headers[i..], sawChunked)
    {
      if SameIgnoringCase(headers[i].name, TRANSFER_ENCODING) {
        var parts := Parts(headers[i].value, COMMA);
        ghost var before := sawChunked;
        for j := 0 to |parts|
          invariant CodingOfParts(parts, before) == CodingOfParts(parts[j..], sawChunked)
        {
          var coding := Trim(parts[j]);
          if coding == [] || !SameIgnoringCase(coding, CHUNKED) || sawChunked {
            return Err(InvalidTransferEncoding);
          }
          sawChunked := true;
        }
      }
    }
    r := Ok(sawChunked);
  }

  method ParseRequestWithConsumed(input: Bytes) returns (r: Result<Head, ParseError>)
    ensures r == Parse(input)
  {
    hide ParseRequestLine, Headers, ContentLengthFrom, TransferEncodingFrom, HeaderContainsToken;
    var line := Find(input, CRLF, 0);
    if line.None? {
      return Err(if |input| > MAX_REQUEST_LINE_SIZE then RequestLineTooLong else IncompleteHeaders);
    }
    if line.value > MAX_REQUEST_LINE_SIZE {
      return Err(RequestLineTooLong);
    }
    var end := Find(input, BLANK_LINE, 0);
    if end.None? {
      return Err(if |input| >= MAX_REQUEST_HEAD_SIZE then HeadersTooLarge else IncompleteHeaders);
    }
    if line.value > end.value {
      return Err(InvalidRequestLine);
    }
    var block := HeaderBlock(input, line.value, end.value);
    if |block| > MAX_HEADER_BLOCK_SIZE {
      return Err(HeadersTooLarge);
    }
    var parts := ParseRequestLine(input[..line.value]);
    if parts.Err? {
      return Err(parts.error);
    }
    var headers := ParseHeaders(block);
    if headers.Err? {
      return Err(headers.error);
    }
    var contentLength := ParseContentLength(headers.value);
    if contentLength.Err? {
      return Err(contentLength.error);
    }
    var chunked := ParseTransferEncoding(headers.value);
    if chunked.Err? {
      return Err(chunked.error);
    }
    if contentLength.value.Some? && chunked.value {
      return Err(AmbiguousBodyFraming);
    }
    var keepAlive := !HeaderContainsToken(headers.value, CONNECTION, CLOSE);
    r := Ok(Head(Request(parts.value.0, parts.value.1, headers.value, contentLength.value, chunked.value, keepAlive),
                 end.value + 4));
  }

  // ----- a head does not depend on how its bytes arrive -----

  predicate Agree(s: Bytes, s': Bytes, n: nat) {
    n <= |s| && n <= |s'| && s[..n] == s'[..n]
  }

  lemma AtAgrees(s: Bytes, s': Bytes, n: nat, i: nat, piece: Bytes)
    requires Agree(s, s', n) && i + |piece| <= n
    ensures At(s, i, piece) == At(s', i, piece)
  {
    assert s[i..i + |piece|] == s[..n][i..i + |piece|];
    assert s'[i..i + |piece|] == s'[..n][i..i + |piece|];
  }

  lemma FindAgrees(s: Bytes, s': Bytes, n: nat, needle: Bytes)
    requires Agree(s, s', n)
    requires Find(s, needle, 0).Some? && Find(s, needle, 0).value + |needle| <= n
    ensures Find(s', needle, 0) == Find(s, needle, 0)
  {
    var k := Find(s, needle, 0).value;
    AtAgrees(s, s', n, k, needle);
    forall j | 0 <= j < k ensures !At(s', j, needle) {
      AtAgrees(s, s', n, j, needle);
    }
    FindIs(s', needle, 0, k);
  }

  // The first line break comes no later than the first blank line.
  lemma LineBeforeBlankLine(s: Bytes)
    requires Find(s, BLANK_LINE, 0).Some?
    ensures Find(s, CRLF, 0).Some? && Find(s, CRLF, 0).value <= Find(s, BLANK_LINE, 0).value
  {
    var k := Find(s, BLANK_LINE, 0).value;
    assert BLANK_LINE == CRLF + CRLF;
    AtParts(s, k, CRLF, CRLF);
  }

  lemma RequestLineIs(line: Bytes)
    requires ParseRequestLine(line).Ok?
    ensures line == RequestLine(ParseRequestLine(line).value.0, ParseRequestLine(line).value.1)
  {
  }

  // The length of the request line of a request.
  function RequestLineLength(request: Request): nat {
    |request.method'| + |request.target| + 10
  }

  // Where the request line and the header block of an accepted head end.
  lemma HeadParts(s: Bytes) returns (line: nat, end: nat)
    requires Parse(s).Ok?
    ensures Find(s, CRLF, 0) == Some(line) && Find(s, BLANK_LINE, 0) == Some(end)
    ensures line == end || line + 2 <= end
    ensures Parse(s).value.consumed == end + 4 <= |s|
    ensures line == RequestLineLength(Parse(s).value.request) <= MAX_REQUEST_LINE_SIZE
    ensures end <= line + 2 + MAX_HEADER_BLOCK_SIZE
  {
    hide Find, ParseRequestLine, Headers, ContentLengthFrom, TransferEncodingFrom, HeaderContainsToken;
    LineBeforeBlankLine(s);
    line, end := Find(s, CRLF, 0).value, Find(s, BLANK_LINE, 0).value;
    RequestLineIs(s[..line]);
    assert s[line..line + 2][1] == LF && s[end..end + 4][0] == CR;
  }

  /** An accepted head is found again, the same, in whatever continues its bytes. */
  lemma ParseAgrees(s: Bytes, s': Bytes)
    requires Parse(s).Ok? && Agree(s, s', Parse(s).value.consumed)
    ensures Parse(s') == Parse(s)
  {
    hide Interpret, Find;
    var line, end := HeadParts(s);
    var n := end + 4;
    FindAgrees(s, s', n, CRLF);
    FindAgrees(s, s', n, BLANK_LINE);
    assert s[..line] == s[..n][..line] && s'[..line] == s'[..n][..line];
    if line != end {
      assert s[line + 2..end] == s[..n][line + 2..end] && s'[line + 2..end] == s'[..n][line + 2..end];
    }
  }

  /** Every proper prefix of an accepted head is incomplete, except that a request line of the greatest
      length cut between its CR and LF is called too long. */
  lemma ProperPrefix(s: Bytes, k: nat)
    requires Parse(s).Ok? && k < Parse(s).value.consumed
    ensures Parse(s[..k]) == Err(if k == MAX_REQUEST_LINE_SIZE + 1 == RequestLineLength(Parse(s).value.request) + 1
                                 then RequestLineTooLong else IncompleteHeaders)
  {
    hide Find, Interpret;
    var p := s[..k];
    var line, end := HeadParts(s);
    assert Agree(s, p, k);
    if Find(p, BLANK_LINE, 0).Some? {
      AtAgrees(s, p, k, Find(p, BLANK_LINE, 0).value, BLANK_LINE);
      assert false;
    }
    if k >= line + 2 {
      FindAgrees(s, p, k, CRLF);
    } else if Find(p, CRLF, 0).Some? {
      AtAgrees(s, p, k, Find(p, CRLF, 0).value, CRLF);
      assert false;
    }
  }

  /** All proper prefixes of an accepted head are incomplete exactly when its request line is shorter than
      the limit. */
  lemma PrefixesIncomplete(s: Bytes)
    requires Parse(s).Ok?
    ensures (forall k :: 0 <= k < Parse(s).value.consumed ==> Parse(s[..k]) == Err(IncompleteHeaders))
       <==> RequestLineLength(Parse(s).value.request) < MAX_REQUEST_LINE_SIZE
  {
    hide Parse;
    var n := Parse(s).value.consumed;
    var line, end := HeadParts(s);
    forall k | 0 <= k < n && line < MAX_REQUEST_LINE_SIZE ensures Parse(s[..k]) == Err(IncompleteHeaders) {
      ProperPrefix(s, k);
    }
    if line == MAX_REQUEST_LINE_SIZE {
      ProperPrefix(s, line + 1);
    }
  }

  // ----- reading a head -----

  datatype HeadError = ReadFailed | UnexpectedEof | HeadTooLarge | Invalid(error: ParseError)
  datatype ReceivedRequest = ReceivedRequest(request: Request, bufferedBody: Bytes, bytesRead: nat)

  /** Reads until the bytes hold a request head. Whatever the sizes of the reads, the request found is the
      one the parser sees in all the bytes together, and head, buffered body and unread bytes make up
      those bytes; a head whose request line is shorter than the limit is always found unless a read fails. */
  method ReadRequestHead(reader: Source, prefix: Bytes) returns (r: Result<Option<ReceivedRequest>, HeadError>)
    modifies reader
    ensures r.Ok? && r.value.Some? ==>
              var all := prefix + old(reader.unread);
              var received := r.value.value;
              && Parse(all).Ok?
              && received.request == Parse(all).value.request
              && all == all[..Parse(all).value.consumed] + received.bufferedBody + reader.unread
              && received.bytesRead == Parse(all).value.consumed + |received.bufferedBody|
    ensures r.Ok? && r.value.None? ==> prefix + old(reader.unread) == []
    ensures var all := prefix + old(reader.unread);
            Parse(all).Ok? && RequestLineLength(Parse(all).value.request) < MAX_REQUEST_LINE_SIZE
            ==> r.Ok? || r.error == ReadFailed
    ensures r.Err? && r.error == UnexpectedEof ==> Parse(prefix + old(reader.unread)) == Err(IncompleteHeaders)
    ensures r.Err? ==> r.error != HeadTooLarge
  {
    hide Parse;
    var buffer := prefix;
    ghost var all := prefix + reader.unread;
    while true
      invariant buffer + reader.unread == all
      decreases |reader.unread|
    {
      BufferSeesHead(buffer, all);
      var parsed := ParseRequestWithConsumed(buffer);
      if parsed.Ok? {
        assert all == buffer[..parsed.value.consumed] + buffer[parsed.value.consumed..] + reader.unread;
        assert all[..parsed.value.consumed] == buffer[..parsed.value.consumed];
        return Ok(Some(ReceivedRequest(parsed.value.request, buffer[parsed.value.consumed..], |buffer|)));
      }
      if parsed.error != IncompleteHeaders {
        return Err(Invalid(parsed.error));
      }
      IncompleteIsShort(buffer);
      if |buffer| >= MAX_REQUEST_HEAD_SIZE {
        return Err(HeadTooLarge);
      }
      var piece := reader.Read(Min(MAX_REQUEST_HEAD_SIZE - |buffer|, READ_CHUNK_SIZE));
      if piece.None? {
        return Err(ReadFailed);
      }
      if piece.value == [] {
        assert buffer == all;
        if buffer == [] {
          return Ok(None);
        }
        return Err(UnexpectedEof);
      }
      buffer := buffer + piece.value;
    }
  }

  // What the parser says of the bytes so far, by what it says of all of them.
  lemma BufferSeesHead(buffer: Bytes, all: Bytes)
    requires buffer <= all
    ensures Parse(buffer).Ok? ==> Parse(all) == Parse(buffer)
    ensures Parse(all).Ok? && RequestLineLength(Parse(all).value.request) < MAX_REQUEST_LINE_SIZE
        ==> Parse(buffer) == Parse(all) || Parse(buffer) == Err(IncompleteHeaders)
  {
    hide Parse;
    assert all[..|buffer|] == buffer;
    if Parse(buffer).Ok? {
      var n := Parse(buffer).value.consumed;
      assert buffer[..n] == all[..n];
      ParseAgrees(buffer, all);
    }
    if Parse(all).Ok? {
      var n := Parse(all).value.consumed;
      if |buffer| < n {
        ProperPrefix(all, |buffer|);
      } else {
        assert buffer[..n] == all[..n];
        ParseAgrees(all, buffer);
      }
    }
  }

  // So the parser itself stops the reading before the buffer is full.
  lemma IncompleteIsShort(s: Bytes)
    requires Parse(s) == Err(IncompleteHeaders)
    ensures |s| < MAX_REQUEST_HEAD_SIZE
  {
    hide Interpret, Find;
  }
}
