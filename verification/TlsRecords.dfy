/** TLS record framing: plaintext and ciphertext records, their incremental
    decoders, and the handshake deframer (section 5 of RFC 8446). */
module TlsRecords {
  import opened Words
  import opened Framing

  const HEADER_SIZE: int := 5
  const PLAINTEXT_LIMIT: int := 16384
  const INNER_PLAINTEXT_LIMIT: int := 16385
  const CIPHERTEXT_LIMIT: int := 16640
  const LEGACY_VERSION: int := 0x0303
  const HANDSHAKE_HEADER_SIZE: int := 4

  datatype ContentType = ChangeCipherSpec | Alert | Handshake | ApplicationData {
    function Code(): byte {
      match this
      case ChangeCipherSpec => 20
      case Alert => 21
      case Handshake => 22
      case ApplicationData => 23
    }
  }

  function ContentTypeOf(code: byte): (t: Option<ContentType>)
    ensures t.Some? ==> t.value.Code() == code
    ensures t.None? <==> code < 20 || code > 23
  {
    if code == 20 then Some(ChangeCipherSpec)
    else if code == 21 then Some(Alert)
    else if code == 22 then Some(Handshake)
    else if code == 23 then Some(ApplicationData)
    else None
  }

  datatype RecordError =
    | UnknownContentType(code: byte)
    | RecordOverflow(length: nat, maximum: nat)
    | EmptyHandshakeFragment
    | InvalidAlertLength(length: nat)
    | InvalidChangeCipherSpec
    | UnprotectedApplicationData
    | InterleavedHandshake(next: ContentType)
    | HandshakeNotAligned(buffered: nat)
    | InvalidCiphertextContentType(code: byte)
    | InvalidCiphertextVersion(version: nat)
    | CiphertextOverflow(length: nat, maximum: nat)
    | CiphertextTooShort(length: nat, minimum: nat)
    | InnerPlaintextOverflow(length: nat, maximum: nat)
    | MissingInnerContentType
    | InvalidInnerContentType(code: byte)
    | SequenceNumberExhausted(write: bool)
    | AeadFailure
    | InvalidFatalAlertDescription(code: byte)
    | WriteAfterCloseNotify
    | CloseNotifyAlreadySent
    | ConnectionFailed
    | UnexpectedProtectedContentType(contentType: ContentType)

  datatype PlaintextRecord = PlaintextRecord(contentType: ContentType, version: nat, fragment: seq<byte>)
  datatype CiphertextRecord = CiphertextRecord(version: nat, encrypted: seq<byte>)

  function ValidateFragment(contentType: ContentType, fragment: seq<byte>): Option<RecordError> {
    if |fragment| > PLAINTEXT_LIMIT then Some(RecordOverflow(|fragment|, PLAINTEXT_LIMIT))
    else if contentType == Handshake && fragment == [] then Some(EmptyHandshakeFragment)
    else if contentType == Alert && |fragment| != 2 then Some(InvalidAlertLength(|fragment|))
    else if contentType == ChangeCipherSpec && fragment != [1] then Some(InvalidChangeCipherSpec)
    else None
  }

  function NewRecord(contentType: ContentType, fragment: seq<byte>): Result<PlaintextRecord, RecordError> {
    match ValidateFragment(contentType, fragment)
    case Some(error) => Err(error)
    case None => Ok(PlaintextRecord(contentType, LEGACY_VERSION, fragment))
  }

  function U16(high: byte, low: byte): (v: nat)
    ensures v < 0x10000
  {
    256 * high + low
  }

  function U24(high: byte, middle: byte, low: byte): (v: nat)
    ensures v < 0x1_000000
  {
    65536 * high + 256 * middle + low
  }

  function U16Bytes(v: nat): (b: seq<byte>)
    requires v < 0x10000
    ensures |b| == 2 && U16(b[0], b[1]) == v
  {
    [v / 256, v % 256]
  }

  // ----- serialization -----

  function SerializePlaintext(record: PlaintextRecord): Result<seq<byte>, RecordError>
    requires record.version < 0x10000
  {
    match ValidateFragment(record.contentType, record.fragment)
    case Some(error) => Err(error)
    case None =>
      if record.contentType == ApplicationData then Err(UnprotectedApplicationData)
      else Ok([record.contentType.Code()] + U16Bytes(record.version) + U16Bytes(|record.fragment|) + record.fragment)
  }

  function CiphertextHeader(version: nat, length: nat): (h: seq<byte>)
    requires version < 0x10000 && length < 0x10000
    ensures |h| == 5
  {
    [ApplicationData.Code()] + U16Bytes(version) + U16Bytes(length)
  }

  function SerializeCiphertext(record: CiphertextRecord): seq<byte>
    requires record.version < 0x10000 && |record.encrypted| < 0x10000
  {
    CiphertextHeader(record.version, |record.encrypted|) + record.encrypted
  }

  // ----- taking one record off a buffer -----

  function NextCiphertext(buffer: seq<byte>): Step<CiphertextRecord, RecordError> {
    if |buffer| < HEADER_SIZE then NeedMore
    else if buffer[0] != ApplicationData.Code() then Bad(InvalidCiphertextContentType(buffer[0]))
    else
      var version := U16(buffer[1], buffer[2]);
      var length := U16(buffer[3], buffer[4]);
      if version != LEGACY_VERSION then Bad(InvalidCiphertextVersion(version))
      else if length > CIPHERTEXT_LIMIT then Bad(CiphertextOverflow(length, CIPHERTEXT_LIMIT))
      else if |buffer| < HEADER_SIZE + length then NeedMore
      else Frame(CiphertextRecord(version, buffer[HEADER_SIZE..HEADER_SIZE + length]), HEADER_SIZE + length)
  }

  function NextPlaintext(buffer: seq<byte>): Step<PlaintextRecord, RecordError> {
    if |buffer| < HEADER_SIZE then NeedMore
    else if ContentTypeOf(buffer[0]).None? then Bad(UnknownContentType(buffer[0]))
    else
      var contentType := ContentTypeOf(buffer[0]).value;
      var version := U16(buffer[1], buffer[2]);
      var length := U16(buffer[3], buffer[4]);
      if length > PLAINTEXT_LIMIT then Bad(RecordOverflow(length, PLAINTEXT_LIMIT))
      else if |buffer| < HEADER_SIZE + length then NeedMore
      else
        var fragment := buffer[HEADER_SIZE..HEADER_SIZE + length];
        match ValidateFragment(contentType, fragment)
        case Some(error) => Bad(error)
        case None => Frame(PlaintextRecord(contentType, version, fragment), HEADER_SIZE + length)
  }

  // A handshake message with its four-byte header.
  function NextMessage(buffer: seq<byte>): Step<seq<byte>, RecordError> {
    if |buffer| < HANDSHAKE_HEADER_SIZE then NeedMore
    else
      var length := U24(buffer[1], buffer[2], buffer[3]);
      if |buffer| < HANDSHAKE_HEADER_SIZE + length then NeedMore
      else Frame(buffer[..HANDSHAKE_HEADER_SIZE + length], HANDSHAKE_HEADER_SIZE + length)
  }

  lemma CiphertextIncremental()
    ensures Incremental(NextCiphertext)
  {
    forall b: seq<byte>, more: seq<byte> | !NextCiphertext(b).NeedMore? ensures NextCiphertext(b + more) == NextCiphertext(b) {
      if NextCiphertext(b).Frame? {
        var n := NextCiphertext(b).length;
        assert (b + more)[HEADER_SIZE..n] == b[HEADER_SIZE..n];
      }
    }
  }

  lemma PlaintextIncremental()
    ensures Incremental(NextPlaintext)
  {
    hide ValidateFragment, ContentTypeOf;
    forall b: seq<byte>, more: seq<byte> | !NextPlaintext(b).NeedMore? ensures NextPlaintext(b + more) == NextPlaintext(b) {
      var length := U16(b[3], b[4]);
      if |b| >= HEADER_SIZE + length {
        assert (b + more)[HEADER_SIZE..HEADER_SIZE + length] == b[HEADER_SIZE..HEADER_SIZE + length];
      }
    }
  }

  lemma MessageIncremental()
    ensures Incremental(NextMessage)
  {
    forall b: seq<byte>, more: seq<byte> | !NextMessage(b).NeedMore? ensures NextMessage(b + more) == NextMessage(b) {
      var n := NextMessage(b).length;
      assert (b + more)[..n] == b[..n];
    }
  }

  /** A serialized record is exactly one frame. */
  lemma CiphertextRoundTrip(record: CiphertextRecord, more: seq<byte>)
    requires record.version == LEGACY_VERSION && |record.encrypted| <= CIPHERTEXT_LIMIT
    ensures NextCiphertext(SerializeCiphertext(record) + more) == Frame(record, |SerializeCiphertext(record)|)
  {
    var b := SerializeCiphertext(record) + more;
    assert b[HEADER_SIZE..HEADER_SIZE + |record.encrypted|] == record.encrypted;
  }

  lemma PlaintextRoundTrip(record: PlaintextRecord, more: seq<byte>)
    requires record.version < 0x10000 && SerializePlaintext(record).Ok?
    ensures NextPlaintext(SerializePlaintext(record).value + more) == Frame(record, |SerializePlaintext(record).value|)
  {
    var b := SerializePlaintext(record).value + more;
    assert b[HEADER_SIZE..HEADER_SIZE + |record.fragment|] == record.fragment;
  }

  // Parsed frames serialize back to the bytes they were parsed from.
  lemma CiphertextCanonical(buffer: seq<byte>)
    requires NextCiphertext(buffer).Frame?
    ensures var f := NextCiphertext(buffer);
            f.value.version < 0x10000 && |f.value.encrypted| < 0x10000 && f.length <= |buffer|
            && SerializeCiphertext(f.value) == buffer[..f.length]
  {
    hide U16, U16Bytes;
    var f := NextCiphertext(buffer);
    BytesOfU16(buffer[1], buffer[2]);
    BytesOfU16(buffer[3], buffer[4]);
    assert buffer[..HEADER_SIZE] == [buffer[0]] + [buffer[1], buffer[2]] + [buffer[3], buffer[4]];
    assert buffer[..f.length] == buffer[..HEADER_SIZE] + buffer[HEADER_SIZE..f.length];
  }

  lemma BytesOfU16(high: byte, low: byte)
    ensures U16Bytes(U16(high, low)) == [high, low]
  {
  }

  // ----- the decoders -----

  // What a scan does after its first frame.
  lemma ScanFrame<R(!new), E(!new)>(next: seq<byte> -> Step<R, E>, b: seq<byte>)
    requires next(b).Frame? && 0 < next(b).length <= |b|
    ensures var later := Scan(next, b[next(b).length..]);
            Scan(next, b) == Scanned([next(b).value] + later.frames, later.rest, later.error)
  {
  }

  lemma ScanStops<R(!new), E(!new)>(next: seq<byte> -> Step<R, E>, b: seq<byte>)
    requires !next(b).Frame?
    ensures Scan(next, b) == Scanned([], b, if next(b).Bad? then Some(next(b).error) else None)
  {
  }

  class CiphertextRecordDecoder {
    var buffer: seq<byte>

    constructor ()
      ensures buffer == []
    {
      buffer := [];
    }

    method Push(input: seq<byte>) returns (r: Result<seq<CiphertextRecord>, RecordError>)
      modifies this
      ensures (r, buffer) == Framing.Push(NextCiphertext, old(buffer), input)
    {
      hide Scan;
      buffer := buffer + input;
      var records: seq<CiphertextRecord> := [];
      var consumed := 0;
      ghost var whole := Scan(NextCiphertext, buffer);
      assert buffer[0..] == buffer;
      while true
        invariant 0 <= consumed <= |buffer|
        invariant buffer == old(buffer) + input
        invariant var s := Scan(NextCiphertext, buffer[consumed..]);
                  whole == Scanned(records + s.frames, s.rest, s.error)
        decreases |buffer| - consumed
      {
        ghost var b := buffer[consumed..];
        var available := |buffer| - consumed;
        if available < HEADER_SIZE {
          ScanStops(NextCiphertext, b);
          break;
        }
        var contentType := buffer[consumed];
        if contentType != ApplicationData.Code() {
          ScanStops(NextCiphertext, b);
          return Err(InvalidCiphertextContentType(contentType));
        }
        var version := U16(buffer[consumed + 1], buffer[consumed + 2]);
        if version != LEGACY_VERSION {
          ScanStops(NextCiphertext, b);
          return Err(InvalidCiphertextVersion(version));
        }
        var length := U16(buffer[consumed + 3], buffer[consumed + 4]);
        if length > CIPHERTEXT_LIMIT {
          ScanStops(NextCiphertext, b);
          return Err(CiphertextOverflow(length, CIPHERTEXT_LIMIT));
        }
        var recordLength := HEADER_SIZE + length;
        if available < recordLength {
          ScanStops(NextCiphertext, b);
          break;
        }
        var encrypted := buffer[consumed + HEADER_SIZE..consumed + recordLength];
        assert encrypted == b[HEADER_SIZE..recordLength];
        ScanFrame(NextCiphertext, b);
        assert b[recordLength..] == buffer[consumed + recordLength..];
        AppendOne(records, CiphertextRecord(version, encrypted), Scan(NextCiphertext, b[recordLength..]).frames);
        records := records + [CiphertextRecord(version, encrypted)];
        consumed := consumed + recordLength;
      }
      assert records + [] == records;
      if consumed != 0 {
        buffer := buffer[consumed..];
      }
      r := Ok(records);
    }
  }

  lemma AppendOne<T>(a: seq<T>, x: T, b: seq<T>)
    ensures a + ([x] + b) == (a + [x]) + b
  {
  }

  class PlaintextRecordDecoder {
    var buffer: seq<byte>

    constructor ()
      ensures buffer == []
    {
      buffer := [];
    }

    method Push(input: seq<byte>) returns (r: Result<seq<PlaintextRecord>, RecordError>)
      modifies this
      ensures (r, buffer) == Framing.Push(NextPlaintext, old(buffer), input)
    {
      hide Scan, ValidateFragment, ContentTypeOf;
      buffer := buffer + input;
      var records: seq<PlaintextRecord> := [];
      var consumed := 0;
      ghost var whole := Scan(NextPlaintext, buffer);
      assert buffer[0..] == buffer;
      while true
        invariant 0 <= consumed <= |buffer|
        invariant buffer == old(buffer) + input
        invariant var s := Scan(NextPlaintext, buffer[consumed..]);
                  whole == Scanned(records + s.frames, s.rest, s.error)
        decreases |buffer| - consumed
      {
        ghost var b := buffer[consumed..];
        var available := |buffer| - consumed;
        if available < HEADER_SIZE {
          ScanStops(NextPlaintext, b);
          break;
        }
        var contentType := ContentTypeOf(buffer[consumed]);
        if contentType.None? {
          ScanStops(NextPlaintext, b);
          return Err(UnknownContentType(buffer[consumed]));
        }
        var version := U16(buffer[consumed + 1], buffer[consumed + 2]);
        var length := U16(buffer[consumed + 3], buffer[consumed + 4]);
        if length > PLAINTEXT_LIMIT {
          ScanStops(NextPlaintext, b);
          return Err(RecordOverflow(length, PLAINTEXT_LIMIT));
        }
        var recordLength := HEADER_SIZE + length;
        if available < recordLength {
          ScanStops(NextPlaintext, b);
          break;
        }
        var fragment := buffer[consumed + HEADER_SIZE..consumed + recordLength];
        assert fragment == b[HEADER_SIZE..recordLength];
        var invalid := ValidateFragment(contentType.value, fragment);
        if invalid.Some? {
          ScanStops(NextPlaintext, b);
          return Err(invalid.value);
        }
        ScanFrame(NextPlaintext, b);
        assert b[recordLength..] == buffer[consumed + recordLength..];
        AppendOne(records, PlaintextRecord(contentType.value, version, fragment), Scan(NextPlaintext, b[recordLength..]).frames);
        records := records + [PlaintextRecord(contentType.value, version, fragment)];
        consumed := consumed + recordLength;
      }
      assert records + [] == records;
      if consumed != 0 {
        buffer := buffer[consumed..];
      }
      r := Ok(records);
    }
  }

  // ----- the handshake deframer -----

  function Flatten(messages: seq<seq<byte>>): seq<byte> {
    if messages == [] then [] else messages[0] + Flatten(messages[1..])
  }

  lemma {:induction false} FlattenAppend(a: seq<seq<byte>>, b: seq<seq<byte>>)
    ensures Flatten(a + b) == Flatten(a) + Flatten(b)
  {
    if a == [] {
      assert a + b == b;
    } else {
      assert (a + b)[1..] == a[1..] + b;
      FlattenAppend(a[1..], b);
    }
  }

  // The messages a buffer holds and what is left of it are the buffer.
  lemma {:induction false} MessagesConserve(b: seq<byte>)
    ensures var s := Scan(NextMessage, b);
            s.error.None? && Flatten(s.frames) + s.rest == b && NextMessage(s.rest).NeedMore?
    decreases |b|
  {
    hide Scan, U24;
    var step := NextMessage(b);
    if step.Frame? {
      var tail := b[step.length..];
      MessagesConserve(tail);
      ScanFrame(NextMessage, b);
      var later := Scan(NextMessage, tail);
      assert ([step.value] + later.frames)[1..] == later.frames;
      assert b == step.value + tail;
      assert step.value + (Flatten(later.frames) + later.rest) == step.value + Flatten(later.frames) + later.rest;
    } else {
      ScanStops(NextMessage, b);
      assert Flatten([]) + b == b;
    }
  }

  class HandshakeDeframer {
    var buffer: seq<byte>

    constructor ()
      ensures buffer == []
    {
      buffer := [];
    }

    method PushRecord(record: PlaintextRecord) returns (r: Result<seq<seq<byte>>, RecordError>)
      modifies this
      ensures record.contentType != Handshake ==>
                buffer == old(buffer)
                && r == if buffer == [] then Ok([]) else Err(InterleavedHandshake(record.contentType))
      ensures record.contentType == Handshake ==>
                (r, buffer) == Framing.Push(NextMessage, old(buffer), record.fragment)
                && r.Ok? && Flatten(r.value) + buffer == old(buffer) + record.fragment
    {
      hide Scan, U24, Flatten;
      if record.contentType != Handshake {
        if buffer == [] {
          return Ok([]);
        }
        return Err(InterleavedHandshake(record.contentType));
      }
      buffer := buffer + record.fragment;
      var messages: seq<seq<byte>> := [];
      var consumed := 0;
      ghost var whole := Scan(NextMessage, buffer);
      MessagesConserve(buffer);
      assert buffer[0..] == buffer;
      while true
        invariant 0 <= consumed <= |buffer|
        invariant buffer == old(buffer) + record.fragment
        invariant var s := Scan(NextMessage, buffer[consumed..]);
                  whole == Scanned(messages + s.frames, s.rest, s.error)
        decreases |buffer| - consumed
      {
        ghost var b := buffer[consumed..];
        var available := |buffer| - consumed;
        if available < HANDSHAKE_HEADER_SIZE {
          ScanStops(NextMessage, b);
          break;
        }
        var length := U24(buffer[consumed + 1], buffer[consumed + 2], buffer[consumed + 3]);
        var framed := HANDSHAKE_HEADER_SIZE + length;
        if available < framed {
          ScanStops(NextMessage, b);
          break;
        }
        var message := buffer[consumed..consumed + framed];
        assert message == b[..framed];
        ScanFrame(NextMessage, b);
        assert b[framed..] == buffer[consumed + framed..];
        AppendOne(messages, message, Scan(NextMessage, b[framed..]).frames);
        messages := messages + [message];
        consumed := consumed + framed;
      }
      assert messages + [] == messages;
      if consumed != 0 {
        buffer := buffer[consumed..];
      }
      r := Ok(messages);
    }

    function RequireMessageBoundary(): (r: Option<RecordError>)
      reads this
      ensures r.None? <==> buffer == []
    {
      if buffer == [] then None else Some(HandshakeNotAligned(|buffer|))
    }
  }

  // ----- the theorems, for each decoder -----

  /** However a ciphertext stream is cut into calls, the decoder's result is the same. */
  lemma CiphertextSplitIndependent(parts: seq<seq<byte>>, others: seq<seq<byte>>)
    requires Join(parts) == Join(others) && parts != [] && others != []
    ensures Feed(NextCiphertext, parts).error == Feed(NextCiphertext, others).error
    ensures Feed(NextCiphertext, parts).error.None? ==> Feed(NextCiphertext, parts) == Feed(NextCiphertext, others)
    ensures Feed(NextCiphertext, parts).error.Some? ==>
              forall input :: Feed(NextCiphertext, parts + [input]).error == Feed(NextCiphertext, parts).error
  {
    CiphertextIncremental();
    SplitIndependent(NextCiphertext, parts, others);
    if Feed(NextCiphertext, parts).error.Some? {
      forall input ensures Feed(NextCiphertext, parts + [input]).error == Feed(NextCiphertext, parts).error {
        ErrorIsFinal(NextCiphertext, parts, input);
      }
    }
  }

  lemma PlaintextSplitIndependent(parts: seq<seq<byte>>, others: seq<seq<byte>>)
    requires Join(parts) == Join(others) && parts != [] && others != []
    ensures Feed(NextPlaintext, parts).error == Feed(NextPlaintext, others).error
    ensures Feed(NextPlaintext, parts).error.None? ==> Feed(NextPlaintext, parts) == Feed(NextPlaintext, others)
    ensures Feed(NextPlaintext, parts).error.Some? ==>
              forall input :: Feed(NextPlaintext, parts + [input]).error == Feed(NextPlaintext, parts).error
  {
    PlaintextIncremental();
    SplitIndependent(NextPlaintext, parts, others);
    if Feed(NextPlaintext, parts).error.Some? {
      forall input ensures Feed(NextPlaintext, parts + [input]).error == Feed(NextPlaintext, parts).error {
        ErrorIsFinal(NextPlaintext, parts, input);
      }
    }
  }

  // A message whose header states its own length.
  predicate WellFramed(message: seq<byte>) {
    |message| >= HANDSHAKE_HEADER_SIZE
    && |message| == HANDSHAKE_HEADER_SIZE + U24(message[1], message[2], message[3])
  }

  /** A well-framed message cut into fragments at any places comes out of the deframer whole. */
  lemma FragmentsDeframe(message: seq<byte>, fragments: seq<seq<byte>>)
    requires WellFramed(message) && Join(fragments) == message
    ensures Feed(NextMessage, fragments) == Fed([message], [], None)
  {
    hide Scan, Feed, U24;
    MessageIncremental();
    FeedIsScan(NextMessage, fragments);
    assert message[..|message|] == message && message[|message|..] == [];
    ScanFrame(NextMessage, message);
    ScanStops(NextMessage, []);
  }

  predicate AllWellFramed(messages: seq<seq<byte>>) {
    forall i :: 0 <= i < |messages| ==> WellFramed(messages[i])
  }

  lemma {:induction false} ScanMessages(messages: seq<seq<byte>>)
    requires AllWellFramed(messages)
    ensures Scan(NextMessage, Flatten(messages)) == Scanned(messages, [], None)
  {
    hide Scan, U24, WellFramed;
    if messages == [] {
      ScanStops(NextMessage, []);
    } else {
      var b, rest := Flatten(messages), Flatten(messages[1..]);
      ScanMessages(messages[1..]);
      MessageFirst(messages[0], rest);
      assert b[|messages[0]|..] == rest;
      ScanFrame(NextMessage, b);
      assert [messages[0]] + messages[1..] == messages;
    }
  }

  lemma MessageFirst(message: seq<byte>, rest: seq<byte>)
    requires WellFramed(message)
    ensures NextMessage(message + rest) == Frame(message, |message|)
  {
    hide U24;
    assert (message + rest)[..|message|] == message;
  }

  lemma {:induction false} FramesAreMessages(b: seq<byte>)
    ensures AllWellFramed(Scan(NextMessage, b).frames)
    decreases |b|
  {
    hide Scan, U24;
    var step := NextMessage(b);
    if step.Frame? {
      FramesAreMessages(b[step.length..]);
      ScanFrame(NextMessage, b);
      assert WellFramed(step.value);
    } else {
      ScanStops(NextMessage, b);
    }
  }

  /** The deframer is at a message boundary exactly when what it was given is a list of well-framed messages,
      however that list was fragmented, and then it has delivered just that list. */
  lemma MessageBoundary(fragments: seq<seq<byte>>)
    ensures var fed := Feed(NextMessage, fragments);
            && (fed.buffer == [] <==> exists messages :: AllWellFramed(messages) && Flatten(messages) == Join(fragments))
            && forall messages :: AllWellFramed(messages) && Flatten(messages) == Join(fragments) ==> fed == Fed(messages, [], None)
  {
    hide Scan, Feed, NextMessage, WellFramed, AllWellFramed, Flatten;
    MessageIncremental();
    FeedIsScan(NextMessage, fragments);
    var whole := Join(fragments);
    MessagesConserve(whole);
    FramesAreMessages(whole);
    var frames := Scan(NextMessage, whole).frames;
    if Feed(NextMessage, fragments).buffer == [] {
      assert Flatten(frames) + [] == Flatten(frames);
      assert AllWellFramed(frames) && Flatten(frames) == whole;
    }
    forall messages | AllWellFramed(messages) && Flatten(messages) == whole
      ensures Feed(NextMessage, fragments) == Fed(messages, [], None)
    {
      ScanMessages(messages);
    }
  }
}
