/** Streaming a request body upstream: the chunked coding (section 7.1 of
    RFC 9112) and the fixed length, over a reader that returns bytes in pieces of
    any size and a writer that may fail anywhere. */
module ChunkedBody {
  import opened Words
  import opened HttpSyntax
  import opened Streams

  const MAX_CHUNK_LINE_SIZE := 8192
  const MAX_TRAILER_LINE_SIZE := 8192
  const MAX_TRAILER_BLOCK_SIZE := 32768
  const MAX_TRAILER_COUNT := 100
  const STREAM_BUFFER_SIZE := 16384

  datatype BodyError = ReadFailed | Disconnected | WriteFailed | InvalidClientBody

  // ----- the bytes of a chunked body -----

  // Where what starts at some position ends, whether more bytes are needed to tell, or no bytes can help.
  datatype Extent = Complete(end: nat) | Partial | Malformed

  // No CR and no LF from i to k.
  predicate Unbroken(s: Bytes, i: nat, k: nat)
    requires i <= k <= |s|
  {
    forall j :: i <= j < k ==> s[j] != CR && s[j] != LF
  }

  // The first CR or LF from i on, or the length.
  function LineBreak(s: Bytes, i: nat): (k: nat)
    requires i <= |s|
    ensures i <= k <= |s| && Unbroken(s, i, k) && (k < |s| ==> s[k] == CR || s[k] == LF)
    decreases |s| - i
  {
    if i == |s| || s[i] == CR || s[i] == LF then i else LineBreak(s, i + 1)
  }

  // A line of at most maximum bytes and its CRLF.
  function LineFrom(s: Bytes, i: nat, maximum: nat): (e: Extent)
    requires i <= |s|
    ensures e.Complete? ==> i + 2 <= e.end <= |s|
  {
    var k := LineBreak(s, i);
    if k - i > maximum then Malformed
    else if k == |s| then Partial
    else if s[k] == LF then Malformed
    else if k + 1 == |s| then Partial
    else if s[k + 1] == LF then Complete(k + 2)
    else Malformed
  }

  function HexDigit(b: byte): (v: nat)
    requires IsHexDigit(b)
    ensures v < 16
  {
    if b <= 57 then b - 48 else if b <= 70 then b - 55 else b - 87
  }

  function HexValue(s: Bytes): nat
    requires forall i :: 0 <= i < |s| ==> IsHexDigit(s[i])
    decreases |s|
  {
    if s == [] then 0 else 16 * HexValue(s[..|s| - 1]) + HexDigit(s[|s| - 1])
  }

  predicate IsExtensionByte(b: byte) {
    b == TAB || 32 <= b <= 126
  }

  // None when the line does not start a chunk.
  function ParseChunkSize(line: Bytes): Option<u64> {
    var k := IndexFrom(line, SEMICOLON, 0);
    var size := line[..k];
    if size == [] || exists i :: 0 <= i < |size| && !IsHexDigit(size[i]) then None
    else if k < |line| && (k + 1 == |line| || exists i :: k < i < |line| && !IsExtensionByte(line[i])) then None
    else if HexValue(size) >= 0x1_0000_0000_0000_0000 then None
    else Some(HexValue(size))
  }

  predicate ValidTrailerLine(line: Bytes) {
    var k := IndexFrom(line, COLON, 0);
    && k < |line|
    && IsToken(line[..k])
    && !IsForbiddenTrailerName(line[..k])
    && IsFieldValue(TrimOptionalWhitespace(line[k + 1..]))
  }

  // The trailer section from i on, count lines and size bytes of it being behind.
  function TrailersFrom(s: Bytes, i: nat, count: nat, size: nat): (e: Extent)
    requires i <= |s|
    ensures e.Complete? ==> i + 2 <= e.end <= |s|
    decreases |s| - i
  {
    var line := LineFrom(s, i, MAX_TRAILER_LINE_SIZE);
    if !line.Complete? then line
    else if size + (line.end - i) > MAX_TRAILER_BLOCK_SIZE then Malformed
    else if line.end == i + 2 then line
    else if count >= MAX_TRAILER_COUNT || !ValidTrailerLine(s[i..line.end - 2]) then Malformed
    else TrailersFrom(s, line.end, count + 1, size + (line.end - i))
  }

  // The chunks from i on, the last chunk and the trailer section.
  function BodyFrom(s: Bytes, i: nat): (e: Extent)
    requires i <= |s|
    ensures e.Complete? ==> i + 4 <= e.end <= |s|
    decreases |s| - i
  {
    var line := LineFrom(s, i, MAX_CHUNK_LINE_SIZE);
    if !line.Complete? then line
    else
      var size := ParseChunkSize(s[i..line.end - 2]);
      if size.None? then Malformed
      else if size.value == 0 then TrailersFrom(s, line.end, 0, 0)
      else if |s| < line.end + size.value + 2 then Partial
      else if s[line.end + size.value..line.end + size.value + 2] != CRLF then Malformed
      else BodyFrom(s, line.end + size.value + 2)
  }

  // ----- the reader over the bytes already buffered -----

  class PrefixedReader {
    const prefix: Bytes
    const inner: Source
    var position: nat
    // Everything that can ever be read: the prefix and what the source held at the start.
    ghost const whole: Bytes

    ghost predicate Valid()
      reads this, inner
    {
      && position <= |prefix|
      && prefix <= whole
      && |prefix| + |inner.unread| <= |whole|
      && inner.unread == whole[|whole| - |inner.unread|..]
      && (position < |prefix| ==> |prefix| + |inner.unread| == |whole|)
    }

    // How many bytes of the whole have been handed out. With Valid it fixes both the position and what the
    // source still holds.
    ghost function Consumed(): (n: nat)
      requires Valid()
      reads this, inner
      ensures n <= |whole|
    {
      position + (|whole| - |prefix| - |inner.unread|)
    }

    function RemainingPrefix(): Bytes
      requires Valid()
      reads this, inner
    {
      prefix[position..]
    }

    constructor (prefix: Bytes, inner: Source)
      ensures Valid() && Consumed() == 0
      ensures this.prefix == prefix && this.inner == inner && whole == prefix + inner.unread
    {
      this.prefix := prefix;
      this.inner := inner;
      position := 0;
      whole := prefix + inner.unread;
    }

    // What the buffer and the source hold once n bytes are gone.
    lemma Split()
      requires Valid()
      ensures RemainingPrefix() == prefix[Min(Consumed(), |prefix|)..]
      ensures inner.unread == whole[Max(Consumed(), |prefix|)..]
    {
      if position == |prefix| {
        assert prefix[position..] == [];
      }
    }

    method Read(limit: nat) returns (r: Result<Bytes, BodyError>)
      requires Valid()
      modifies this, inner
      ensures Valid() && old(Consumed()) <= Consumed()
      ensures r.Ok? ==> |r.value| <= limit && r.value == whole[old(Consumed())..Consumed()]
      ensures r.Ok? && r.value == [] ==> limit == 0 || Consumed() == |whole|
      ensures r.Err? ==> r.error == ReadFailed && Consumed() == old(Consumed())
    {
      if limit == 0 {
        return Ok([]);
      }
      if position < |prefix| {
        var n := Min(|prefix| - position, limit);
        r := Ok(prefix[position..position + n]);
        position := position + n;
        return;
      }
      var piece := inner.Read(limit);
      if piece.None? {
        return Err(ReadFailed);
      }
      r := Ok(piece.value);
      assert inner.unread == old(inner.unread)[|r.value|..];
      assert r.value == old(inner.unread)[..|r.value|];
    }

    method ReadExact(n: nat) returns (r: Result<Bytes, BodyError>)
      requires Valid()
      modifies this, inner
      ensures Valid() && old(Consumed()) <= Consumed()
      ensures r.Ok? ==> Consumed() == old(Consumed()) + n && r.value == whole[old(Consumed())..Consumed()]
      ensures r.Err? ==> r.error == ReadFailed || (r.error == Disconnected && |whole| < old(Consumed()) + n)
    {
      var bytes: Bytes := [];
      while |bytes| < n
        invariant Valid() && Consumed() == old(Consumed()) + |bytes| && |bytes| <= n
        invariant bytes == whole[old(Consumed())..Consumed()]
      {
        var piece := Read(n - |bytes|);
        if piece.Err? {
          return piece;
        }
        if piece.value == [] {
          return Err(Disconnected);
        }
        bytes := bytes + piece.value;
        assert bytes == whole[old(Consumed())..Consumed()];
      }
      r := Ok(bytes);
    }
  }

  // ----- the streaming methods -----

  lemma LineAtBreak(s: Bytes, i: nat, k: nat, maximum: nat)
    requires i <= k < |s| && k - i <= maximum && Unbroken(s, i, k) && (s[k] == CR || s[k] == LF)
    ensures s[k] == LF ==> LineFrom(s, i, maximum) == Malformed
    ensures s[k] == CR && k + 1 == |s| ==> LineFrom(s, i, maximum) == Partial
    ensures s[k] == CR && k + 1 < |s| && s[k + 1] == LF ==> LineFrom(s, i, maximum) == Complete(k + 2)
    ensures s[k] == CR && k + 1 < |s| && s[k + 1] != LF ==> LineFrom(s, i, maximum) == Malformed
  {
    assert LineBreak(s, i) == k;
  }

  lemma LineTooLong(s: Bytes, i: nat, k: nat, maximum: nat)
    requires i <= k <= |s| && k - i > maximum && Unbroken(s, i, k)
    ensures LineFrom(s, i, maximum) == Malformed
  {
    assert LineBreak(s, i) >= k;
  }

  lemma LineUnfinished(s: Bytes, i: nat, maximum: nat)
    requires i <= |s| && |s| - i <= maximum && Unbroken(s, i, |s|)
    ensures LineFrom(s, i, maximum) == Partial
  {
  }

  method ReadChunkLine(reader: PrefixedReader, maximum: nat) returns (r: Result<Bytes, BodyError>)
    requires reader.Valid()
    modifies reader, reader.inner
    ensures reader.Valid() && old(reader.Consumed()) <= reader.Consumed()
    ensures r.Ok? ==> LineFrom(reader.whole, old(reader.Consumed()), maximum) == Complete(reader.Consumed())
    ensures r.Ok? ==> r.value == reader.whole[old(reader.Consumed())..reader.Consumed() - 2]
    ensures r.Err? ==> FitsError(LineFrom(reader.whole, old(reader.Consumed()), maximum), r.error)
  {
    hide LineFrom, LineBreak, PrefixedReader.Valid, PrefixedReader.Consumed;
    ghost var s, start := reader.whole, reader.Consumed();
    var line: Bytes := [];
    while true
      invariant reader.Valid() && reader.Consumed() == start + |line| && |line| <= maximum
      invariant line == s[start..start + |line|] && Unbroken(s, start, start + |line|)
      decreases |s| - reader.Consumed()
    {
      ghost var k := start + |line|;
      var next := reader.ReadExact(1);
      if next.Err? {
        if next.error == Disconnected {
          LineUnfinished(s, start, maximum);
        }
        return next;
      }
      var b := next.value[0];
      assert b == s[k];
      if b == CR {
        LineAtBreak(s, start, k, maximum);
        next := reader.ReadExact(1);
        if next.Err? {
          return next;
        }
        assert next.value[0] == s[k + 1];
        if next.value[0] != LF {
          return Err(InvalidClientBody);
        }
        return Ok(line);
      }
      if b == LF {
        LineAtBreak(s, start, k, maximum);
        return Err(InvalidClientBody);
      }
      if |line| >= maximum {
        LineTooLong(s, start, k + 1, maximum);
        return Err(InvalidClientBody);
      }
      line := line + [b];
      assert line == s[start..k + 1];
    }
  }

  // What an error says about the bytes: an invalid body or a disconnection is the bytes' fault.
  predicate FitsError(extent: Extent, error: BodyError) {
    && (error == InvalidClientBody ==> extent == Malformed)
    && (error == Disconnected ==> extent == Partial)
  }

  // The bytes sent so far are the next bytes of the whole.
  ghost predicate Sending(before: Bytes, written: Bytes, s: Bytes, from: nat, to: nat)
    requires from <= to <= |s|
  {
    written == before + s[from..to]
  }

  // The sink got some of the whole, without gaps.
  ghost predicate SentPart(before: Bytes, written: Bytes, s: Bytes, from: nat)
    requires from <= |s|
  {
    before <= written <= before + s[from..]
  }

  lemma SendingIsPart(before: Bytes, written: Bytes, s: Bytes, from: nat, to: nat)
    requires from <= to <= |s| && Sending(before, written, s, from, to)
    ensures SentPart(before, written, s, from)
  {
    assert s[from..] == s[from..to] + s[to..];
  }

  method StreamChunkData(reader: PrefixedReader, upstream: Sink, size: nat) returns (r: Result<(), BodyError>)
    requires reader.Valid()
    modifies reader, reader.inner, upstream
    ensures reader.Valid() && old(reader.Consumed()) <= reader.Consumed()
    ensures SentPart(old(upstream.written), upstream.written, reader.whole, old(reader.Consumed()))
    ensures r.Ok? ==> reader.Consumed() == old(reader.Consumed()) + size
    ensures r.Ok? ==> Sending(old(upstream.written), upstream.written, reader.whole, old(reader.Consumed()), reader.Consumed())
    ensures r.Err? ==> r.error != InvalidClientBody && (r.error == Disconnected ==> |reader.whole| < old(reader.Consumed()) + size)
  {
    hide PrefixedReader.Valid, PrefixedReader.Consumed;
    ghost var s, start, before := reader.whole, reader.Consumed(), upstream.written;
    var remaining := size;
    assert before == before + s[start..start];
    while remaining > 0
      invariant reader.Valid() && 0 <= remaining <= size && reader.Consumed() == start + (size - remaining)
      invariant Sending(before, upstream.written, s, start, reader.Consumed())
      invariant SentPart(before, upstream.written, s, start)
    {
      ghost var here := reader.Consumed();
      var piece := reader.Read(Min(remaining, STREAM_BUFFER_SIZE));
      if piece.Err? {
        return Err(piece.error);
      }
      if piece.value == [] {
        return Err(Disconnected);
      }
      var ok := Write(upstream, piece.value, before, s, start, here);
      if !ok {
        return Err(WriteFailed);
      }
      remaining := remaining - |piece.value|;
    }
    r := Ok(());
  }

  // write_all of the bytes that come next in the whole.
  method Write(upstream: Sink, bytes: Bytes, ghost before: Bytes, ghost s: Bytes, ghost from: nat, ghost here: nat) returns (ok: bool)
    requires from <= here && here + |bytes| <= |s| && bytes == s[here..here + |bytes|]
    requires Sending(before, upstream.written, s, from, here)
    modifies upstream
    ensures SentPart(before, upstream.written, s, from)
    ensures ok ==> Sending(before, upstream.written, s, from, here + |bytes|)
  {
    ok := upstream.WriteAll(bytes);
    assert s[from..] == s[from..here] + bytes + s[here + |bytes|..];
    assert s[from..here] + bytes == s[from..here + |bytes|];
  }

  // write_all of the line that comes next in the whole, then of its CRLF.
  method WriteLine(upstream: Sink, line: Bytes, ghost before: Bytes, ghost s: Bytes, ghost from: nat, ghost here: nat)
    returns (ok: bool)
    requires from <= here && here + |line| + 2 <= |s| && line == s[here..here + |line|]
    requires s[here + |line|..here + |line| + 2] == CRLF
    requires Sending(before, upstream.written, s, from, here)
    modifies upstream
    ensures SentPart(before, upstream.written, s, from)
    ensures ok ==> Sending(before, upstream.written, s, from, here + |line| + 2)
  {
    ok := Write(upstream, line, before, s, from, here);
    if ok {
      ok := Write(upstream, CRLF, before, s, from, here + |line|);
    }
  }

  method StreamRequestTrailers(reader: PrefixedReader, upstream: Sink) returns (r: Result<(), BodyError>)
    requires reader.Valid()
    modifies reader, reader.inner, upstream
    ensures reader.Valid() && old(reader.Consumed()) <= reader.Consumed()
    ensures SentPart(old(upstream.written), upstream.written, reader.whole, old(reader.Consumed()))
    ensures r.Ok? ==> TrailersFrom(reader.whole, old(reader.Consumed()), 0, 0) == Complete(reader.Consumed())
    ensures r.Ok? ==> Sending(old(upstream.written), upstream.written, reader.whole, old(reader.Consumed()), reader.Consumed())
    ensures r.Err? ==> FitsError(TrailersFrom(reader.whole, old(reader.Consumed()), 0, 0), r.error)
  {
    hide LineFrom, ValidTrailerLine, PrefixedReader.Valid, PrefixedReader.Consumed;
    ghost var s, start, before := reader.whole, reader.Consumed(), upstream.written;
    var count, size := 0, 0;
    assert before == before + s[start..start];
    while true
      invariant reader.Valid() && start <= reader.Consumed() && size == reader.Consumed() - start
      invariant Sending(before, upstream.written, s, start, reader.Consumed())
      invariant TrailersFrom(s, start, 0, 0) == TrailersFrom(s, reader.Consumed(), count, size)
      decreases |s| - reader.Consumed()
    {
      ghost var here := reader.Consumed();
      var read := ReadChunkLine(reader, MAX_TRAILER_LINE_SIZE);
      if read.Err? {
        return Err(read.error);
      }
      var line := read.value;
      size := size + |line| + 2;
      if size > MAX_TRAILER_BLOCK_SIZE {
        return Err(InvalidClientBody);
      }
      if line != [] {
        if count >= MAX_TRAILER_COUNT || !ValidTrailerLine(line) {
          return Err(InvalidClientBody);
        }
        count := count + 1;
      }
      LineEnd(s, here, MAX_TRAILER_LINE_SIZE);
      var ok := WriteLine(upstream, line, before, s, start, here);
      if !ok {
        return Err(WriteFailed);
      }
      if line == [] {
        return Ok(());
      }
    }
  }

  lemma LineEnd(s: Bytes, i: nat, maximum: nat)
    requires i <= |s| && LineFrom(s, i, maximum).Complete?
    ensures var end := LineFrom(s, i, maximum).end; s[end - 2..end] == CRLF
  {
  }

  // The ways a body goes on from a line and what follows the line.
  lemma BodyStep(s: Bytes, i: nat)
    requires i <= |s|
    ensures var line := LineFrom(s, i, MAX_CHUNK_LINE_SIZE);
            && (!line.Complete? ==> BodyFrom(s, i) == line)
            && (line.Complete? ==>
                  var size := ParseChunkSize(s[i..line.end - 2]);
                  && s[line.end - 2..line.end] == CRLF
                  && (size.None? ==> BodyFrom(s, i) == Malformed)
                  && (size == Some(0) ==> BodyFrom(s, i) == TrailersFrom(s, line.end, 0, 0))
                  && (size.Some? && size.value != 0 ==> DataStep(s, i, line.end + size.value)))
  {
    hide LineFrom, ParseChunkSize, TrailersFrom;
    var line := LineFrom(s, i, MAX_CHUNK_LINE_SIZE);
    if line.Complete? {
      LineEnd(s, i, MAX_CHUNK_LINE_SIZE);
    }
  }

  // The body from i on, when the data of its first chunk ends at end.
  predicate DataStep(s: Bytes, i: nat, end: nat)
    requires i <= |s|
  {
    if |s| < end + 2 then BodyFrom(s, i) == Partial
    else if s[end..end + 2] != CRLF then BodyFrom(s, i) == Malformed
    else BodyFrom(s, i) == BodyFrom(s, end + 2)
  }

  /** Streams a chunked body. Whatever happens, what went upstream is a prefix of the buffered bytes and
      the client's stream; on success it is exactly the complete body that they start with, the client was not
      read past its end, and the result is the unread part of the buffer. The body is called invalid, or
      the client disconnected, only when the bytes do not start with a complete body. */
  method StreamChunkedRequestBody(client: Source, upstream: Sink, buffered: Bytes) returns (r: Result<Bytes, BodyError>)
    modifies client, upstream
    ensures SentPart(old(upstream.written), upstream.written, buffered + old(client.unread), 0)
    ensures r.Ok? ==>
              var s := buffered + old(client.unread);
              var body := BodyFrom(s, 0);
              && body.Complete?
              && upstream.written == old(upstream.written) + s[..body.end]
              && r.value == buffered[Min(body.end, |buffered|)..]
              && client.unread == s[Max(body.end, |buffered|)..]
    ensures r.Err? ==> FitsError(BodyFrom(buffered + old(client.unread), 0), r.error)
  {
    hide LineFrom, TrailersFrom, ParseChunkSize, BodyFrom, Sending, SentPart, PrefixedReader.Valid, PrefixedReader.Consumed;
    var reader := new PrefixedReader(buffered, client);
    ghost var s, before := reader.whole, upstream.written;
    NothingSent(before, s, 0);
    while true
      invariant reader.Valid() && Sending(before, upstream.written, s, 0, reader.Consumed())
      invariant SentPart(before, upstream.written, s, 0)
      invariant BodyFrom(s, 0) == BodyFrom(s, reader.Consumed())
      decreases |s| - reader.Consumed()
    {
      ghost var start := reader.Consumed();
      var read := ReadChunkLine(reader, MAX_CHUNK_LINE_SIZE);
      BodyStep(s, start);
      if read.Err? {
        return Err(read.error);
      }
      var line := read.value;
      var size := ParseChunkSize(line);
      if size.None? {
        return Err(InvalidClientBody);
      }
      var ok := WriteLine(upstream, line, before, s, 0, start);
      if !ok {
        return Err(WriteFailed);
      }
      ghost var here, sent := reader.Consumed(), upstream.written;
      if size.value == 0 {
        var trailers := StreamRequestTrailers(reader, upstream);
        Appended(before, sent, upstream.written, s, here, reader.Consumed());
        if trailers.Err? {
          return Err(trailers.error);
        }
        reader.Split();
        SentAll(before, upstream.written, s, reader.Consumed());
        return Ok(reader.RemainingPrefix());
      }
      var data := StreamChunkData(reader, upstream, size.value);
      Appended(before, sent, upstream.written, s, here, reader.Consumed());
      if data.Err? {
        return Err(data.error);
      }
      here := reader.Consumed();
      var ending := reader.ReadExact(2);
      if ending.Err? {
        return Err(ending.error);
      }
      if ending.value != CRLF {
        return Err(InvalidClientBody);
      }
      ok := Write(upstream, CRLF, before, s, 0, here);
      if !ok {
        return Err(WriteFailed);
      }
    }
  }

  lemma NothingSent(before: Bytes, s: Bytes, from: nat)
    requires from <= |s|
    ensures Sending(before, before, s, from, from) && SentPart(before, before, s, from)
  {
  }

  lemma SentAll(before: Bytes, written: Bytes, s: Bytes, to: nat)
    requires to <= |s| && Sending(before, written, s, 0, to)
    ensures written == before + s[..to]
  {
  }

  function Max(a: int, b: int): int {
    if a <= b then b else a
  }

  lemma Appended(before: Bytes, sent: Bytes, written: Bytes, s: Bytes, here: nat, to: nat)
    requires here <= to <= |s| && Sending(before, sent, s, 0, here) && SentPart(sent, written, s, here)
    ensures SentPart(before, written, s, 0)
    ensures Sending(sent, written, s, here, to) ==> Sending(before, written, s, 0, to)
  {
    assert s[0..here] + s[here..to] == s[0..to];
    assert s[0..here] + s[here..] == s[0..];
  }

  // ----- the grammar -----

  datatype Chunk = Chunk(line: Bytes, data: Bytes)
  datatype Message = Message(chunks: seq<Chunk>, last: Bytes, trailers: seq<Bytes>)

  predicate IsLine(line: Bytes, maximum: nat) {
    |line| <= maximum && Unbroken(line, 0, |line|)
  }

  predicate ValidChunk(c: Chunk) {
    IsLine(c.line, MAX_CHUNK_LINE_SIZE) && c.data != [] && ParseChunkSize(c.line) == Some(|c.data|)
  }

  predicate ValidTrailer(t: Bytes) {
    IsLine(t, MAX_TRAILER_LINE_SIZE) && t != [] && ValidTrailerLine(t)
  }

  predicate ValidTrailers(ts: seq<Bytes>, count: nat, size: nat) {
    && (forall i :: 0 <= i < |ts| ==> ValidTrailer(ts[i]))
    && (ts != [] ==> count + |ts| <= MAX_TRAILER_COUNT)
    && size + |TrailerBytes(ts)| <= MAX_TRAILER_BLOCK_SIZE
  }

  predicate ValidMessage(m: Message) {
    && (forall i :: 0 <= i < |m.chunks| ==> ValidChunk(m.chunks[i]))
    && IsLine(m.last, MAX_CHUNK_LINE_SIZE) && ParseChunkSize(m.last) == Some(0)
    && ValidTrailers(m.trailers, 0, 0)
  }

  // The trailer lines and the empty line that ends them.
  function TrailerBytes(ts: seq<Bytes>): (r: Bytes)
    ensures |r| >= 2
    decreases |ts|
  {
    if ts == [] then CRLF else ts[0] + CRLF + TrailerBytes(ts[1..])
  }

  function MessageBytes(m: Message): Bytes
    decreases |m.chunks|
  {
    if m.chunks == [] then m.last + CRLF + TrailerBytes(m.trailers)
    else m.chunks[0].line + CRLF + m.chunks[0].data + CRLF + MessageBytes(Message(m.chunks[1..], m.last, m.trailers))
  }

  ghost predicate IsChunkedBody(b: Bytes) {
    exists m :: ValidMessage(m) && MessageBytes(m) == b
  }

  lemma LineWritten(s: Bytes, i: nat, line: Bytes, maximum: nat)
    requires IsLine(line, maximum) && At(s, i, line + CRLF)
    ensures LineFrom(s, i, maximum) == Complete(i + |line| + 2) && s[i..i + |line|] == line
  {
    AtParts(s, i, line, CRLF);
    var k := i + |line|;
    assert s[k..k + 2][0] == CR && s[k..k + 2][1] == LF;
    forall j | i <= j < k ensures s[j] != CR && s[j] != LF {
      assert s[j] == s[i..k][j - i];
    }
    LineAtBreak(s, i, k, maximum);
  }

  lemma LineRead(s: Bytes, i: nat, maximum: nat)
    requires i <= |s| && LineFrom(s, i, maximum).Complete?
    ensures var end := LineFrom(s, i, maximum).end;
            && IsLine(s[i..end - 2], maximum) && At(s, i, s[i..end - 2] + CRLF)
  {
    var end := LineFrom(s, i, maximum).end;
    LineEnd(s, i, maximum);
    AtParts(s, i, s[i..end - 2], CRLF);
  }

  lemma {:induction false} TrailersWritten(ts: seq<Bytes>, s: Bytes, i: nat, count: nat, size: nat)
    requires ValidTrailers(ts, count, size) && At(s, i, TrailerBytes(ts))
    ensures TrailersFrom(s, i, count, size) == Complete(i + |TrailerBytes(ts)|)
    decreases |ts|
  {
    hide LineFrom, ValidTrailerLine, IsLine;
    if ts == [] {
      IsLineEmpty(MAX_TRAILER_LINE_SIZE);
      assert [] + CRLF == CRLF;
      LineWritten(s, i, [], MAX_TRAILER_LINE_SIZE);
    } else {
      var line, rest := ts[0] + CRLF, TrailerBytes(ts[1..]);
      assert ValidTrailer(ts[0]);
      AtParts(s, i, line, rest);
      LineWritten(s, i, ts[0], MAX_TRAILER_LINE_SIZE);
      TrailersWritten(ts[1..], s, i + |line|, count + 1, size + |line|);
    }
  }

  lemma IsLineEmpty(maximum: nat)
    ensures IsLine([], maximum)
  {
  }

  lemma {:induction false} TrailersRead(s: Bytes, i: nat, count: nat, size: nat) returns (ts: seq<Bytes>)
    requires i <= |s| && TrailersFrom(s, i, count, size).Complete?
    ensures ValidTrailers(ts, count, size) && At(s, i, TrailerBytes(ts))
    ensures TrailersFrom(s, i, count, size).end == i + |TrailerBytes(ts)|
    decreases |s| - i
  {
    hide LineFrom, ValidTrailerLine, IsLine, At;
    LineRead(s, i, MAX_TRAILER_LINE_SIZE);
    var end := LineFrom(s, i, MAX_TRAILER_LINE_SIZE).end;
    var line := s[i..end - 2];
    if line == [] {
      ts := [];
      assert [] + CRLF == CRLF;
    } else {
      var rest := TrailersRead(s, end, count + 1, size + (end - i));
      ts := [line] + rest;
      assert ts[1..] == rest && ts[0] == line;
      assert ValidTrailer(line);
      AtParts(s, i, line + CRLF, TrailerBytes(rest));
    }
  }

  lemma AtSlice(s: Bytes, i: nat, piece: Bytes)
    requires At(s, i, piece)
    ensures i + |piece| <= |s| && s[i..i + |piece|] == piece
  {
  }

  lemma {:induction false} MessageWritten(m: Message, s: Bytes, i: nat)
    requires ValidMessage(m) && At(s, i, MessageBytes(m))
    ensures BodyFrom(s, i) == Complete(i + |MessageBytes(m)|)
    decreases |m.chunks|
  {
    hide LineFrom, TrailersFrom, IsLine, ParseChunkSize, ValidTrailers, At;
    if m.chunks == [] {
      AtParts(s, i, m.last + CRLF, TrailerBytes(m.trailers));
      LineWritten(s, i, m.last, MAX_CHUNK_LINE_SIZE);
      TrailersWritten(m.trailers, s, i + |m.last| + 2, 0, 0);
    } else {
      var c, rest := m.chunks[0], Message(m.chunks[1..], m.last, m.trailers);
      assert ValidChunk(c);
      var line := c.line + CRLF;
      AtParts(s, i, line + c.data + CRLF, MessageBytes(rest));
      AtParts(s, i, line + c.data, CRLF);
      AtParts(s, i, line, c.data);
      AtSlice(s, i + |line| + |c.data|, CRLF);
      LineWritten(s, i, c.line, MAX_CHUNK_LINE_SIZE);
      MessageWritten(rest, s, i + |line| + |c.data| + 2);
    }
  }

  lemma SliceAt(s: Bytes, i: nat, j: nat)
    requires i <= j <= |s|
    ensures At(s, i, s[i..j])
  {
  }

  lemma {:induction false} MessageRead(s: Bytes, i: nat) returns (m: Message)
    requires i <= |s| && BodyFrom(s, i).Complete?
    ensures ValidMessage(m) && At(s, i, MessageBytes(m)) && BodyFrom(s, i).end == i + |MessageBytes(m)|
    decreases |s| - i
  {
    hide LineFrom, TrailersFrom, IsLine, ParseChunkSize, ValidTrailers, At;
    LineRead(s, i, MAX_CHUNK_LINE_SIZE);
    var end := LineFrom(s, i, MAX_CHUNK_LINE_SIZE).end;
    var line := s[i..end - 2];
    var size := ParseChunkSize(line);
    if size == Some(0) {
      var ts := TrailersRead(s, end, 0, 0);
      m := Message([], line, ts);
      AtParts(s, i, line + CRLF, TrailerBytes(ts));
    } else {
      var k := end + size.value;
      var data := s[end..k];
      SliceAt(s, end, k);
      SliceAt(s, k, k + 2);
      var rest := MessageRead(s, k + 2);
      m := Message([Chunk(line, data)] + rest.chunks, rest.last, rest.trailers);
      assert m.chunks[1..] == rest.chunks;
      assert Message(m.chunks[1..], m.last, m.trailers) == rest;
      assert ValidChunk(m.chunks[0]);
      AtParts(s, i, line + CRLF, data);
      AtParts(s, i, line + CRLF + data, CRLF);
      AtParts(s, i, line + CRLF + data + CRLF, MessageBytes(rest));
    }
  }

  /** What the streaming accepts is the grammar: the body ends at n exactly when the first n bytes are a
      chunked body. So no chunked body is a proper prefix of another. */
  lemma ChunkedGrammar(s: Bytes, n: nat)
    ensures BodyFrom(s, 0) == Complete(n) <==> n <= |s| && IsChunkedBody(s[..n])
  {
    hide BodyFrom, ValidMessage, MessageBytes;
    if BodyFrom(s, 0) == Complete(n) {
      var m := MessageRead(s, 0);
      assert MessageBytes(m) == s[..n];
    }
    if n <= |s| && IsChunkedBody(s[..n]) {
      var m :| ValidMessage(m) && MessageBytes(m) == s[..n];
      assert s[0..n] == s[..n];
      MessageWritten(m, s, 0);
    }
  }

  /** Two chunked bodies that start the same bytes are the same body. */
  lemma ChunkedBodyUnique(s: Bytes, n: nat, n': nat)
    requires n <= |s| && n' <= |s| && IsChunkedBody(s[..n]) && IsChunkedBody(s[..n'])
    ensures n == n'
  {
    ChunkedGrammar(s, n);
    ChunkedGrammar(s, n');
  }

  // ----- bodies of a known length -----

  lemma Taken(s: Bytes, here: nat, piece: Bytes, rest: Bytes)
    requires here <= |s| && s[here..] == piece + rest
    ensures here + |piece| <= |s| && piece == s[here..here + |piece|] && rest == s[here + |piece|..]
  {
    assert |s| - here == |piece| + |rest|;
    assert s[here..][..|piece|] == s[here..here + |piece|] && s[here..][|piece|..] == s[here + |piece|..];
  }

  // Passes on the next bytes of the client, from here to end.
  method PassOn(client: Source, upstream: Sink, length: nat, ghost before: Bytes, ghost s: Bytes, ghost here: nat)
    returns (r: Result<(), BodyError>)
    requires here <= |s| && client.unread == s[here..] && Sending(before, upstream.written, s, 0, here)
    modifies client, upstream
    ensures SentPart(before, upstream.written, s, 0)
    ensures r.Ok? ==> here + length <= |s| && client.unread == s[here + length..]
    ensures r.Ok? ==> Sending(before, upstream.written, s, 0, here + length)
    ensures r.Err? ==> r.error != InvalidClientBody && (r.error == Disconnected ==> |s| < here + length)
  {
    hide Sending, SentPart;
    SendingIsPart(before, upstream.written, s, 0, here);
    var remaining: nat := length;
    while remaining > 0
      invariant remaining <= length && here + (length - remaining) <= |s|
      invariant client.unread == s[here + (length - remaining)..]
      invariant Sending(before, upstream.written, s, 0, here + (length - remaining))
      invariant SentPart(before, upstream.written, s, 0)
    {
      ghost var now := here + (length - remaining);
      var piece := client.Read(Min(remaining, STREAM_BUFFER_SIZE));
      if piece.None? {
        return Err(ReadFailed);
      }
      if piece.value == [] {
        return Err(Disconnected);
      }
      Taken(s, now, piece.value, client.unread);
      var ok := Write(upstream, piece.value, before, s, 0, now);
      if !ok {
        return Err(WriteFailed);
      }
      remaining := remaining - |piece.value|;
    }
    r := Ok(());
  }

  /** Streams a body of the announced length: the buffered bytes first, then the client's. */
  method StreamRequestBody(client: Source, upstream: Sink, contentLength: u64, buffered: Bytes) returns (r: Result<Bytes, BodyError>)
    modifies client, upstream
    ensures SentPart(old(upstream.written), upstream.written, buffered + old(client.unread), 0)
    ensures r.Ok? ==>
              var s := buffered + old(client.unread);
              && contentLength <= |s|
              && upstream.written == old(upstream.written) + s[..contentLength]
              && r.value == buffered[Min(contentLength, |buffered|)..]
              && client.unread == s[Max(contentLength, |buffered|)..]
    ensures r.Err? ==> r.error != InvalidClientBody
    ensures r.Err? && r.error == Disconnected ==> |buffered + old(client.unread)| < contentLength
  {
    hide Sending, SentPart;
    ghost var s, before := buffered + client.unread, upstream.written;
    var length: nat := Min(|buffered|, contentLength);
    NothingSent(before, s, 0);
    if length > 0 {
      var ok := Write(upstream, buffered[..length], before, s, 0, 0);
      if !ok {
        return Err(WriteFailed);
      }
    }
    assert client.unread == s[|buffered|..];
    if length < contentLength {
      var rest := PassOn(client, upstream, contentLength - length, before, s, length);
      if rest.Err? {
        return Err(rest.error);
      }
    } else {
      SendingIsPart(before, upstream.written, s, 0, length);
    }
    SentAll(before, upstream.written, s, contentLength);
    r := Ok(buffered[length..]);
  }
}
