/** The ServerHello, the keys both ends derive, and the exchange of the two
    hellos (sections 4.1.3 and 7 of RFC 8446). */
module ServerHello {
  import opened Words
  import opened TlsRecords
  import opened HandshakeReading
  import opened ClientHello
  import opened Curve
  import opened P256
  import opened Ecc
  import opened RecordProtection

  const SERVER_HELLO: byte := 2
  const ENCRYPTED_EXTENSIONS: byte := 8
  const HELLO_RETRY_REQUEST_RANDOM: Bytes := [
    0xcf, 0x21, 0xad, 0x74, 0xe5, 0x9a, 0x61, 0x11, 0xbe, 0x1d, 0x8c, 0x02, 0x1e, 0x65, 0xb8, 0x91,
    0xc2, 0xa2, 0x11, 0x16, 0x7a, 0xbb, 0x8c, 0x5e, 0x07, 0x9e, 0x09, 0xe2, 0xc8, 0xa8, 0x33, 0x9c
  ]

  // ----- the message -----

  datatype Choice = Choice(version: Option<nat>, share: Option<Bytes>, seen: seq<nat>)
  datatype Answer = Answer(sessionId: Bytes, share: Bytes)

  function ReadVersion(data: Bytes): Outcome<nat> {
    var version :- U16At(data, 0);
    if version.next != |data| then Reject(MalformedVector) else version
  }

  function ReadShare(data: Bytes): Outcome<Bytes> {
    var group :- U16At(data, 0);
    var keyExchange :- Vector16At(data, group.next);
    if keyExchange.next != |data| then Reject(MalformedVector)
    else if group.value != SECP256R1 then Reject(InvalidServerKeyShareGroup(group.value))
    else if keyExchange.value == [] then Reject(MalformedVector)
    else keyExchange
  }

  function HandleChoice(c: Choice, extensionType: nat, data: Bytes): Outcome<Choice> {
    if extensionType == SUPPORTED_VERSIONS then
      var version :- ReadVersion(data);
      Value(Choice(Some(version.value), c.share, c.seen + [extensionType]), 0)
    else if extensionType == KEY_SHARE then
      var share :- ReadShare(data);
      Value(Choice(c.version, Some(share.value), c.seen + [extensionType]), 0)
    else Reject(UnexpectedServerHelloExtension(extensionType))
  }

  function ChoiceFrom(s: Bytes, i: nat, c: Choice): Outcome<Choice>
    requires i <= |s|
    decreases |s| - i
  {
    if i == |s| then Value(c, i)
    else
      var extensionType :- U16At(s, i);
      var data :- Vector16At(s, extensionType.next);
      if extensionType.value in c.seen then Reject(DuplicateExtension(extensionType.value))
      else
        var handled :- HandleChoice(c, extensionType.value, data.value);
        ChoiceFrom(s, data.next, handled.value)
  }

  function Conclude(sessionId: Bytes, c: Choice): Outcome<Answer> {
    if c.version.None? then Reject(MissingRequiredExtension(SUPPORTED_VERSIONS))
    else if c.version.value != TLS_1_3 then Reject(InvalidSelectedVersion(c.version.value))
    else if c.share.None? then Reject(MissingRequiredExtension(KEY_SHARE))
    else Value(Answer(sessionId, c.share.value), 0)
  }

  function ParseServerBody(s: Bytes): Outcome<Answer> {
    var version :- U16At(s, 0);
    if version.value != LEGACY_VERSION then Reject(InvalidLegacyVersion(version.value))
    else
      var random :- ExactAt(s, version.next, 32);
      if random.value == HELLO_RETRY_REQUEST_RANDOM then Reject(HelloRetryRequestUnsupported)
      else
        var session :- Vector8At(s, random.next);
        if |session.value| > 32 then Reject(InvalidSessionIdLength(|session.value|))
        else
          var suite :- U16At(s, session.next);
          if suite.value != CHACHA20_POLY1305_SHA256 then Reject(UnsupportedCipherSuite(suite.value))
          else
            var compression :- U8At(s, suite.next);
            if compression.value != 0 then Reject(InvalidCompressionMethod(compression.value))
            else
              var block :- Vector16At(s, compression.next);
              if block.next != |s| then Reject(MalformedVector)
              else
                var c :- ChoiceFrom(block.value, 0, Choice(None, None, []));
                Conclude(session.value, c.value)
  }

  function ParseServerHello(message: Bytes): Outcome<Answer> {
    if |message| < HANDSHAKE_HEADER_SIZE then Reject(Truncated)
    else if message[0] != SERVER_HELLO then Reject(UnexpectedHandshakeType(message[0]))
    else
      var declared := U24(message[1], message[2], message[3]);
      if declared != |message| - HANDSHAKE_HEADER_SIZE then
        Reject(HandshakeLengthMismatch(declared, |message| - HANDSHAKE_HEADER_SIZE))
      else ParseServerBody(message[HANDSHAKE_HEADER_SIZE..])
  }

  function ChosenBlock(share: Bytes): (r: Bytes)
    requires |share| == 65
    ensures |r| == 79
  {
    ExtensionBytes(RawExtension(SUPPORTED_VERSIONS, U16Bytes(TLS_1_3)))
    + ExtensionBytes(RawExtension(KEY_SHARE, U16Bytes(SECP256R1) + Vector16(share)))
  }

  function ServerBody(sessionId: Bytes, random: Bytes, share: Bytes): (r: Bytes)
    requires |sessionId| <= 32 && |random| == 32 && |share| == 65
    ensures |r| == 119 + |sessionId|
  {
    [3, 3] + random + Vector8(sessionId) + [0x13, 3] + [0] + Vector16(ChosenBlock(share))
  }

  function ServerHelloBytes(sessionId: Bytes, random: Bytes, share: Bytes): Bytes
    requires |sessionId| <= 32 && |random| == 32 && |share| == 65
  {
    MessageBytes(SERVER_HELLO, ServerBody(sessionId, random, share))
  }

  // ----- it reads back -----

  lemma ChosenRead(share: Bytes)
    requires |share| == 65
    ensures ChoiceFrom(ChosenBlock(share), 0, Choice(None, None, []))
         == Value(Choice(Some(TLS_1_3), Some(share), [SUPPORTED_VERSIONS, KEY_SHARE]), 79)
  {
    hide U16At, Vector16At, ExtensionBytes, HandleChoice, U16Bytes;
    var v, k := RawExtension(SUPPORTED_VERSIONS, U16Bytes(TLS_1_3)), RawExtension(KEY_SHARE, U16Bytes(SECP256R1) + Vector16(share));
    var block, none := ChosenBlock(share), Choice(None, None, []);
    assert block[0..] == block;
    ExtensionRead(block, 0, v, ExtensionBytes(k));
    var rest: Bytes := [];
    assert block[6..] == ExtensionBytes(k) + rest;
    ExtensionRead(block, 6, k, rest);
    ChoicesHandled(share);
    var one, both := Choice(Some(TLS_1_3), None, [SUPPORTED_VERSIONS]), Choice(Some(TLS_1_3), Some(share), [SUPPORTED_VERSIONS, KEY_SHARE]);
    assert ChoiceFrom(block, 79, both) == Value(both, 79);
    assert ChoiceFrom(block, 6, one) == Value(both, 79);
  }

  lemma ChoicesHandled(share: Bytes)
    requires |share| == 65
    ensures HandleChoice(Choice(None, None, []), SUPPORTED_VERSIONS, U16Bytes(TLS_1_3))
         == Value(Choice(Some(TLS_1_3), None, [SUPPORTED_VERSIONS]), 0)
    ensures HandleChoice(Choice(Some(TLS_1_3), None, [SUPPORTED_VERSIONS]), KEY_SHARE, U16Bytes(SECP256R1) + Vector16(share))
         == Value(Choice(Some(TLS_1_3), Some(share), [SUPPORTED_VERSIONS, KEY_SHARE]), 0)
  {
    hide U16At, Vector16At, U16Bytes;
    var v, k := U16Bytes(TLS_1_3), U16Bytes(SECP256R1) + Vector16(share);
    AtWhole(v);
    ReadsU16(v, 0, TLS_1_3);
    AtWhole(k);
    AtParts(k, 0, U16Bytes(SECP256R1), Vector16(share));
    ReadsU16(k, 0, SECP256R1);
    ReadsVector16(k, 2, share);
    var none: seq<nat> := [];
    assert none + [SUPPORTED_VERSIONS] == [SUPPORTED_VERSIONS];
    assert [SUPPORTED_VERSIONS] + [KEY_SHARE] == [SUPPORTED_VERSIONS, KEY_SHARE];
  }

  lemma ServerLayout(sessionId: Bytes, random: Bytes, share: Bytes)
    requires |sessionId| <= 32 && |random| == 32 && |share| == 65
    ensures var s, n := ServerBody(sessionId, random, share), |sessionId|;
            && At(s, 0, [3, 3]) && At(s, 2, random) && At(s, 34, Vector8(sessionId)) && At(s, 35 + n, [0x13, 3])
            && At(s, 37 + n, [0]) && At(s, 38 + n, Vector16(ChosenBlock(share)))
  {
    hide At, Vector16, ChosenBlock;
    var s := ServerBody(sessionId, random, share);
    var a, b, c, d, e, f := [3, 3], random, Vector8(sessionId), [0x13, 3], [0], Vector16(ChosenBlock(share));
    AtWhole(s);
    AtParts(s, 0, a + b + c + d + e, f);
    AtParts(s, 0, a + b + c + d, e);
    AtParts(s, 0, a + b + c, d);
    AtParts(s, 0, a + b, c);
    AtParts(s, 0, a, b);
  }

  /** The server's hello is read as its session identifier and share, exactly when its random is not the one
      that marks a HelloRetryRequest. */
  lemma ServerHelloRoundTrip(sessionId: Bytes, random: Bytes, share: Bytes)
    requires |sessionId| <= 32 && |random| == 32 && |share| == 65
    ensures ParseServerHello(ServerHelloBytes(sessionId, random, share))
         == if random == HELLO_RETRY_REQUEST_RANDOM then Reject(HelloRetryRequestUnsupported) else Value(Answer(sessionId, share), 0)
  {
    hide ExactAt, U8At, U16At, Vector8At, Vector16At, Vector16, Vector8, U16Bytes, ChoiceFrom, ServerBody, ChosenBlock, MessageBytes, At;
    var s, n := ServerBody(sessionId, random, share), |sessionId|;
    MessageRead(SERVER_HELLO, s);
    ServerLayout(sessionId, random, share);
    SmallVectors();
    assert U16Bytes(CHACHA20_POLY1305_SHA256) == [0x13, 3] by {
      SuiteBytes();
    }
    ReadsU16(s, 0, LEGACY_VERSION);
    ReadsExact(s, 2, random);
    ReadsVector8(s, 34, sessionId);
    ReadsU16(s, 35 + n, CHACHA20_POLY1305_SHA256);
    ReadsU8(s, 37 + n, 0);
    ReadsVector16(s, 38 + n, ChosenBlock(share));
    ChosenRead(share);
  }

  lemma SuiteBytes()
    ensures U16Bytes(CHACHA20_POLY1305_SHA256) == [0x13, 3]
  {
  }

  // ----- the parser and the builder, step by step -----

  method ReadChoice(block: Bytes) returns (r: Outcome<Choice>)
    ensures r.Reject? ==> r == ChoiceFrom(block, 0, Choice(None, None, []))
    ensures r.Value? ==> ChoiceFrom(block, 0, Choice(None, None, [])) == Value(r.value, |block|)
  {
    hide U16At, Vector16At, HandleChoice;
    var reader := new HandshakeReader(block);
    var c := Choice(None, None, []);
    while reader.Remaining() != 0
      invariant reader.Valid()
      invariant ChoiceFrom(block, 0, Choice(None, None, [])) == ChoiceFrom(block, reader.offset, c)
      decreases reader.Remaining()
    {
      var extensionType := reader.ReadU16();
      if extensionType.Reject? {
        return Reject(extensionType.error);
      }
      var data := reader.ReadVector16();
      if data.Reject? {
        return Reject(data.error);
      }
      if extensionType.value in c.seen {
        return Reject(DuplicateExtension(extensionType.value));
      }
      var handled := HandleChoice(c, extensionType.value, data.value);
      if handled.Reject? {
        return Reject(handled.error);
      }
      c := handled.value;
    }
    r := Value(c, |block|);
  }

  method ReadServerHello(message: Bytes) returns (r: Outcome<Answer>)
    ensures r == ParseServerHello(message)
  {
    hide ExactAt, U8At, U16At, Vector8At, Vector16At, ChoiceFrom, Conclude, U24;
    if |message| < HANDSHAKE_HEADER_SIZE {
      return Reject(Truncated);
    }
    if message[0] != SERVER_HELLO {
      return Reject(UnexpectedHandshakeType(message[0]));
    }
    var declared := U24(message[1], message[2], message[3]);
    if declared != |message| - HANDSHAKE_HEADER_SIZE {
      return Reject(HandshakeLengthMismatch(declared, |message| - HANDSHAKE_HEADER_SIZE));
    }
    var reader := new HandshakeReader(message[HANDSHAKE_HEADER_SIZE..]);
    var version := reader.ReadU16();
    if version.Reject? {
      return Reject(version.error);
    }
    if version.value != LEGACY_VERSION {
      return Reject(InvalidLegacyVersion(version.value));
    }
    var random := reader.ReadExact(32);
    if random.Reject? {
      return Reject(random.error);
    }
    if random.value == HELLO_RETRY_REQUEST_RANDOM {
      return Reject(HelloRetryRequestUnsupported);
    }
    var session := reader.ReadVector8();
    if session.Reject? {
      return Reject(session.error);
    }
    if |session.value| > 32 {
      return Reject(InvalidSessionIdLength(|session.value|));
    }
    var suite := reader.ReadU16();
    if suite.Reject? {
      return Reject(suite.error);
    }
    if suite.value != CHACHA20_POLY1305_SHA256 {
      return Reject(UnsupportedCipherSuite(suite.value));
    }
    var compression := reader.ReadU8();
    if compression.Reject? {
      return Reject(compression.error);
    }
    if compression.value != 0 {
      return Reject(InvalidCompressionMethod(compression.value));
    }
    var block := reader.ReadVector16();
    if block.Reject? {
      return Reject(block.error);
    }
    var end := reader.Finish();
    if end.Reject? {
      return Reject(end.error);
    }
    var c := ReadChoice(block.value);
    if c.Reject? {
      return Reject(c.error);
    }
    r := Conclude(session.value, c.value);
  }

  method WriteServerHello(sessionId: Bytes, random: Bytes, share: Bytes) returns (message: Bytes)
    requires |sessionId| <= 32 && |random| == 32 && |share| == 65
    ensures message == ServerHelloBytes(sessionId, random, share)
  {
    hide ExtensionBytes, Vector16, U24Bytes;
    var extensions := AppendExtension([], RawExtension(SUPPORTED_VERSIONS, U16Bytes(TLS_1_3)));
    extensions := AppendExtension(extensions, RawExtension(KEY_SHARE, U16Bytes(SECP256R1) + Vector16(share)));
    assert extensions == ChosenBlock(share);
    var body: Bytes := [3, 3];
    body := body + random;
    body := body + Vector8(sessionId);
    body := body + [0x13, 3];
    body := body + [0];
    body := body + Vector16(extensions);
    message := [SERVER_HELLO];
    message := message + U24Bytes(|body|);
    message := message + body;
  }
}
