/** TLS 1.3 record protection: per-direction keys, IVs and sequence numbers
    (sections 5.2 to 5.4 of RFC 8446). The object is described by a value of
    type Keys; runs of operations are folds over that value. */
module RecordProtection {
  import opened Words
  import opened Framing
  import opened TlsRecords
  import Aead
  import Poly1305

  type Key = Poly1305.Key
  type Nonce = Aead.Nonce
  type BlockFunction = Aead.BlockFunction

  const TAG_SIZE: int := 16
  const PROTECTED_LIMIT: int := 16401  // the inner plaintext limit and a tag
  const MAX_SEQUENCE: int := 0xffff_ffff_ffff_ffff

  // ----- the nonce of a record -----

  function RecordNonce(iv: Nonce, sequence: u64): Nonce {
    var encoded := ToBE(sequence, 8);
    iv[..4] + seq(8, i requires 0 <= i < 8 => XorByte(iv[4 + i], encoded[i]))
  }

  /** Under one IV, different sequence numbers give different nonces. */
  lemma NonceInjective(iv: Nonce, m: u64, n: u64)
    requires RecordNonce(iv, m) == RecordNonce(iv, n)
    ensures m == n
  {
    hide ToBE, XorByte;
    var a, b := ToBE(m, 8), ToBE(n, 8);
    forall i | 0 <= i < 8 ensures a[i] == b[i] {
      assert RecordNonce(iv, m)[4 + i] == XorByte(iv[4 + i], a[i]);
      assert RecordNonce(iv, n)[4 + i] == XorByte(iv[4 + i], b[i]);
      XorByteInjective(iv[4 + i], a[i], b[i]);
    }
    assert a == b;
    Pow256Of8();
    ToBEInjective(m, n, 8);
  }

  // ----- the inner plaintext -----

  function EncodeInner(record: PlaintextRecord, padding: nat): (r: Result<seq<byte>, RecordError>)
    ensures r.Ok? ==> |r.value| <= INNER_PLAINTEXT_LIMIT
  {
    match ValidateFragment(record.contentType, record.fragment)
    case Some(error) => Err(error)
    case None =>
      if record.contentType == ChangeCipherSpec then Err(InvalidInnerContentType(20))
      else if padding > INNER_PLAINTEXT_LIMIT then Err(InnerPlaintextOverflow(padding, INNER_PLAINTEXT_LIMIT))
      else
        var length := |record.fragment| + 1 + padding;
        if length > INNER_PLAINTEXT_LIMIT then Err(InnerPlaintextOverflow(length, INNER_PLAINTEXT_LIMIT))
        else Ok(record.fragment + [record.contentType.Code()] + seq(padding, _ => 0))
  }

  // The bytes up to the last nonzero one.
  function StripZeros(s: seq<byte>): (t: seq<byte>)
    ensures t <= s && (t != [] ==> t[|t| - 1] != 0)
  {
    if s == [] then [] else if s[|s| - 1] != 0 then s else StripZeros(s[..|s| - 1])
  }

  function DecodeInner(inner: seq<byte>): Result<PlaintextRecord, RecordError> {
    if |inner| > INNER_PLAINTEXT_LIMIT then Err(InnerPlaintextOverflow(|inner|, INNER_PLAINTEXT_LIMIT))
    else
      var stripped := StripZeros(inner);
      if stripped == [] then Err(MissingInnerContentType)
      else
        var code := stripped[|stripped| - 1];
        match ContentTypeOf(code)
        case None => Err(InvalidInnerContentType(code))
        case Some(contentType) =>
          if contentType == ChangeCipherSpec then Err(InvalidInnerContentType(code))
          else
            var fragment := stripped[..|stripped| - 1];
            match ValidateFragment(contentType, fragment)
            case Some(error) => Err(error)
            case None => Ok(PlaintextRecord(contentType, LEGACY_VERSION, fragment))
  }

  lemma {:induction false} StripPadding(s: seq<byte>, padding: nat)
    requires s != [] && s[|s| - 1] != 0
    ensures StripZeros(s + seq(padding, _ => 0)) == s
  {
    var zeros: seq<byte> := seq(padding, _ => 0);
    if padding == 0 {
      assert s + zeros == s;
    } else {
      assert (s + zeros)[..|s + zeros| - 1] == s + seq(padding - 1, _ => 0);
      StripPadding(s, padding - 1);
    }
  }

  /** Any amount of padding disappears again, and the content type comes back. */
  lemma InnerRoundTrip(record: PlaintextRecord, padding: nat)
    requires EncodeInner(record, padding).Ok?
    ensures DecodeInner(EncodeInner(record, padding).value) == Ok(record.(version := LEGACY_VERSION))
  {
    var body := record.fragment + [record.contentType.Code()];
    StripPadding(body, padding);
    assert body[..|body| - 1] == record.fragment;
  }

  // ----- protecting and unprotecting one record -----

  datatype Keys = Keys(writeKey: Key, writeIv: Nonce, readKey: Key, readIv: Nonce,
                       writeSequence: Option<u64>, readSequence: Option<u64>)

  function Successor(sequence: u64): Option<u64> {
    if sequence == MAX_SEQUENCE then None else Some(sequence + 1)
  }

  function EncryptStep(block: BlockFunction, k: Keys, record: PlaintextRecord, padding: nat):
    (r: (Result<CiphertextRecord, RecordError>, Keys))
    ensures r.0.Err? ==> r.1 == k
    ensures r.0.Ok? ==> k.writeSequence.Some? && r.1 == k.(writeSequence := Successor(k.writeSequence.value))
  {
    match k.writeSequence
    case None => (Err(SequenceNumberExhausted(true)), k)
    case Some(sequence) =>
      match EncodeInner(record, padding)
      case Err(error) => (Err(error), k)
      case Ok(inner) =>
        var header := CiphertextHeader(LEGACY_VERSION, |inner| + TAG_SIZE);
        match Aead.Encrypt(block, k.writeKey, RecordNonce(k.writeIv, sequence), header, inner)
        case Err(_) => (Err(AeadFailure), k)
        case Ok(encrypted) =>
          (Ok(CiphertextRecord(LEGACY_VERSION, encrypted.ciphertext + encrypted.tag)),
           k.(writeSequence := Successor(sequence)))
  }

  function ValidateCiphertext(record: CiphertextRecord): Option<RecordError> {
    if record.version != LEGACY_VERSION then Some(InvalidCiphertextVersion(record.version))
    else if |record.encrypted| > PROTECTED_LIMIT then Some(CiphertextOverflow(|record.encrypted|, PROTECTED_LIMIT))
    else if |record.encrypted| < TAG_SIZE then Some(CiphertextTooShort(|record.encrypted|, TAG_SIZE))
    else None
  }

  function DecryptStep(block: BlockFunction, k: Keys, record: CiphertextRecord): (r: (Result<PlaintextRecord, RecordError>, Keys))
    ensures r.0.Err? ==> r.1 == k
    ensures r.0.Ok? ==> k.readSequence.Some? && r.1 == k.(readSequence := Successor(k.readSequence.value))
  {
    match ValidateCiphertext(record)
    case Some(error) => (Err(error), k)
    case None =>
      match k.readSequence
      case None => (Err(SequenceNumberExhausted(false)), k)
      case Some(sequence) =>
        var length := |record.encrypted| - TAG_SIZE;
        var header := CiphertextHeader(record.version, |record.encrypted|);
        match Aead.Decrypt(block, k.readKey, RecordNonce(k.readIv, sequence), header,
                           record.encrypted[..length], record.encrypted[length..])
        case Err(_) => (Err(AeadFailure), k)
        case Ok(inner) =>
          match DecodeInner(inner)
          case Err(error) => (Err(error), k)
          case Ok(plaintext) => (Ok(plaintext), k.(readSequence := Successor(sequence)))
  }

  class Tls13RecordProtection {
    const block: BlockFunction
    var writeKey: Key
    var writeIv: Nonce
    var readKey: Key
    var readIv: Nonce
    var writeSequence: Option<u64>
    var readSequence: Option<u64>

    ghost function State(): Keys
      reads this
    {
      Keys(writeKey, writeIv, readKey, readIv, writeSequence, readSequence)
    }

    constructor (block: BlockFunction, writeKey: Key, writeIv: Nonce, readKey: Key, readIv: Nonce)
      ensures this.block == block && State() == Keys(writeKey, writeIv, readKey, readIv, Some(0), Some(0))
    {
      this.block := block;
      this.writeKey := writeKey;
      this.writeIv := writeIv;
      this.readKey := readKey;
      this.readIv := readIv;
      writeSequence := Some(0);
      readSequence := Some(0);
    }

    method EncryptRecord(record: PlaintextRecord, padding: nat) returns (r: Result<CiphertextRecord, RecordError>)
      modifies this
      ensures (r, State()) == EncryptStep(block, old(State()), record, padding)
    {
      hide EncodeInner, RecordNonce, Aead.Encrypt, CiphertextHeader;
      if writeSequence.None? {
        return Err(SequenceNumberExhausted(true));
      }
      var sequence := writeSequence.value;
      var inner := EncodeInner(record, padding);
      if inner.Err? {
        return Err(inner.error);
      }
      var length := |inner.value| + TAG_SIZE;
      if length > PROTECTED_LIMIT {
        assert false;  // the inner plaintext limit leaves room for the tag
      }
      var header := CiphertextHeader(LEGACY_VERSION, length);
      var nonce := RecordNonce(writeIv, sequence);
      var encrypted := Aead.EncryptImpl(block, writeKey, nonce, header, inner.value);
      match encrypted
      case Err(_) => return Err(AeadFailure);
      case Ok(parts) =>
        writeSequence := Successor(sequence);
        return Ok(CiphertextRecord(LEGACY_VERSION, parts.ciphertext + parts.tag));
    }

    // A rejected record leaves every field, the read counter included, as it was.
    method DecryptRecord(record: CiphertextRecord) returns (r: Result<PlaintextRecord, RecordError>)
      modifies this
      ensures (r, State()) == DecryptStep(block, old(State()), record)
      ensures r.Err? ==> State() == old(State())
    {
      hide DecodeInner, RecordNonce, Aead.Decrypt, CiphertextHeader;
      var invalid := ValidateCiphertext(record);
      if invalid.Some? {
        return Err(invalid.value);
      }
      if readSequence.None? {
        return Err(SequenceNumberExhausted(false));
      }
      var sequence := readSequence.value;
      var length := |record.encrypted| - TAG_SIZE;
      var header := CiphertextHeader(record.version, |record.encrypted|);
      var nonce := RecordNonce(readIv, sequence);
      var inner := Aead.DecryptImpl(block, readKey, nonce, header, record.encrypted[..length], record.encrypted[length..]);
      if inner.Err? {
        return Err(AeadFailure);
      }
      var decoded := DecodeInner(inner.value);
      if decoded.Ok? {
        readSequence := Successor(sequence);
      }
      r := decoded;
    }

    method Erase()
      modifies this
      ensures State() == Keys(seq(32, _ => 0), seq(12, _ => 0), seq(32, _ => 0), seq(12, _ => 0), None, None)
    {
      writeKey := seq(32, _ => 0);
      writeIv := seq(12, _ => 0);
      readKey := seq(32, _ => 0);
      readIv := seq(12, _ => 0);
      writeSequence := None;
      readSequence := None;
    }
  }

  // ----- runs of encryptions -----

  datatype Attempt = Attempt(record: PlaintextRecord, padding: nat)
  datatype Emission = Emission(sequence: u64, record: CiphertextRecord)

  // What a run of succeeding and failing calls puts on the wire.
  function Emit(block: BlockFunction, k: Keys, attempts: seq<Attempt>): seq<Emission>
    decreases |attempts|
  {
    if attempts == [] then []
    else
      match EncryptStep(block, k, attempts[0].record, attempts[0].padding)
      case (Ok(record), k') => [Emission(k.writeSequence.value, record)] + Emit(block, k', attempts[1..])
      case (Err(_), k') => Emit(block, k', attempts[1..])
  }

  // A failed call changes nothing, so the numbers used are consecutive.
  lemma {:induction false} ConsecutiveSequences(block: BlockFunction, k: Keys, attempts: seq<Attempt>)
    ensures k.writeSequence.None? ==> Emit(block, k, attempts) == []
    ensures k.writeSequence.Some? ==>
              forall i :: 0 <= i < |Emit(block, k, attempts)| ==>
                Emit(block, k, attempts)[i].sequence == k.writeSequence.value + i
    decreases |attempts|
  {
    hide EncryptStep;
    if attempts != [] {
      var k' := EncryptStep(block, k, attempts[0].record, attempts[0].padding).1;
      ConsecutiveSequences(block, k', attempts[1..]);
    }
  }

  /** Over every run no two emitted records share a nonce, and the last number, 2^64 - 1, is used at
      most once and only in the last record. */
  lemma NoncesNeverRepeat(block: BlockFunction, k: Keys, attempts: seq<Attempt>)
    ensures var out := Emit(block, k, attempts);
            forall i, j :: 0 <= i < j < |out| ==>
              RecordNonce(k.writeIv, out[i].sequence) != RecordNonce(k.writeIv, out[j].sequence)
              && out[i].sequence != MAX_SEQUENCE
  {
    hide Emit, RecordNonce;
    ConsecutiveSequences(block, k, attempts);
    var out := Emit(block, k, attempts);
    forall i, j | 0 <= i < j < |out|
      ensures RecordNonce(k.writeIv, out[i].sequence) != RecordNonce(k.writeIv, out[j].sequence)
              && out[i].sequence != MAX_SEQUENCE
    {
      assert out[i].sequence == k.writeSequence.value + i && out[j].sequence == k.writeSequence.value + j;
      if RecordNonce(k.writeIv, out[i].sequence) == RecordNonce(k.writeIv, out[j].sequence) {
        NonceInjective(k.writeIv, out[i].sequence, out[j].sequence);
      }
    }
  }

  // The last number can be used, and then every call is refused.
  lemma LastSequenceThenRefused(block: BlockFunction, k: Keys, record: PlaintextRecord, padding: nat, again: PlaintextRecord, padding': nat)
    requires k.writeSequence == Some(MAX_SEQUENCE) && EncodeInner(record, padding).Ok?
    ensures var (r, k') := EncryptStep(block, k, record, padding);
            r.Ok? && EncryptStep(block, k', again, padding') == (Err(SequenceNumberExhausted(true)), k')
  {
    AlwaysEncrypts(block, k, record, padding);
  }

  // Encryption of a valid record never fails in the cipher.
  lemma AlwaysEncrypts(block: BlockFunction, k: Keys, record: PlaintextRecord, padding: nat)
    ensures EncryptStep(block, k, record, padding).0.Ok? <==> k.writeSequence.Some? && EncodeInner(record, padding).Ok?
  {
    hide RecordNonce, CiphertextHeader, Aead.XorStream, Aead.TagOf;
    if EncodeInner(record, padding).Ok? {
      assert Aead.CounterCovers(1, |EncodeInner(record, padding).value|);
    }
  }

  // ----- a sender and its peer -----

  // The reader's half of r is the writer's half of s.
  ghost predicate Mirrored(s: Keys, r: Keys) {
    r.readKey == s.writeKey && r.readIv == s.writeIv && r.readSequence == s.writeSequence
  }

  lemma SplitTag(c: seq<byte>, t: seq<byte>)
    requires |t| == TAG_SIZE
    ensures (c + t)[..|c + t| - TAG_SIZE] == c && (c + t)[|c + t| - TAG_SIZE..] == t
  {
  }

  /** What one end encrypts the other decrypts, whatever the padding, and the counters stay in step. */
  lemma RecordRoundTrip(block: BlockFunction, s: Keys, r: Keys, record: PlaintextRecord, padding: nat)
    requires Mirrored(s, r) && EncryptStep(block, s, record, padding).0.Ok?
    ensures var (encrypted, s') := EncryptStep(block, s, record, padding);
            var (decrypted, r') := DecryptStep(block, r, encrypted.value);
            decrypted == Ok(record.(version := LEGACY_VERSION)) && Mirrored(s', r')
  {
    hide RecordNonce, CiphertextHeader, Aead.XorStream, Aead.TagOf, EncodeInner, DecodeInner, Aead.Encrypt, Aead.Decrypt;
    var inner := EncodeInner(record, padding).value;
    InnerRoundTrip(record, padding);
    var sequence := s.writeSequence.value;
    var header := CiphertextHeader(LEGACY_VERSION, |inner| + TAG_SIZE);
    var nonce := RecordNonce(s.writeIv, sequence);
    assert Aead.CounterCovers(1, |inner|);
    Aead.AeadRoundTrip(block, s.writeKey, nonce, header, inner);
    var e := Aead.Encrypt(block, s.writeKey, nonce, header, inner).value;
    SplitTag(e.ciphertext, e.tag);
  }

  // The plaintexts that a run of attempts sends, and the records they become.
  function Sent(block: BlockFunction, k: Keys, attempts: seq<Attempt>): seq<PlaintextRecord>
    decreases |attempts|
  {
    if attempts == [] then []
    else
      match EncryptStep(block, k, attempts[0].record, attempts[0].padding)
      case (Ok(_), k') => [attempts[0].record.(version := LEGACY_VERSION)] + Sent(block, k', attempts[1..])
      case (Err(_), k') => Sent(block, k', attempts[1..])
  }

  // What a peer gets out of the records, in order; it stops at the first it rejects.
  function Received(block: BlockFunction, k: Keys, wire: seq<Emission>): Result<seq<PlaintextRecord>, RecordError>
    decreases |wire|
  {
    if wire == [] then Ok([])
    else
      match DecryptStep(block, k, wire[0].record)
      case (Err(error), _) => Err(error)
      case (Ok(plaintext), k') =>
        match Received(block, k', wire[1..])
        case Err(error) => Err(error)
        case Ok(later) => Ok([plaintext] + later)
  }

  /** Over every run, the mirrored peer recovers exactly the plaintexts sent, in order. */
  lemma {:induction false} PeerReceivesAll(block: BlockFunction, s: Keys, r: Keys, attempts: seq<Attempt>)
    requires Mirrored(s, r)
    ensures Received(block, r, Emit(block, s, attempts)) == Ok(Sent(block, s, attempts))
    decreases |attempts|
  {
    hide EncryptStep, DecryptStep;
    if attempts != [] {
      var (result, s') := EncryptStep(block, s, attempts[0].record, attempts[0].padding);
      if result.Ok? {
        RecordRoundTrip(block, s, r, attempts[0].record, attempts[0].padding);
        var r' := DecryptStep(block, r, result.value).1;
        PeerReceivesAll(block, s', r', attempts[1..]);
        var emission := Emission(s.writeSequence.value, result.value);
        assert ([emission] + Emit(block, s', attempts[1..]))[1..] == Emit(block, s', attempts[1..]);
      } else {
        PeerReceivesAll(block, s, r, attempts[1..]);
      }
    }
  }

  // ----- handshake messages over several records -----

  function Chunks(message: seq<byte>): (c: seq<seq<byte>>)
    ensures forall i :: 0 <= i < |c| ==> 1 <= |c[i]| <= PLAINTEXT_LIMIT
    decreases |message|
  {
    if message == [] then []
    else if |message| <= PLAINTEXT_LIMIT then [message]
    else [message[..PLAINTEXT_LIMIT]] + Chunks(message[PLAINTEXT_LIMIT..])
  }

  lemma {:induction false} JoinCons(first: seq<byte>, rest: seq<seq<byte>>)
    ensures Join([first] + rest) == first + Join(rest)
    decreases |rest|
  {
    if rest == [] {
      assert [first] + rest == [first] && [first][..0] == [];
      assert Join([first]) == Join([]) + first;
    } else {
      var n := |rest| - 1;
      assert ([first] + rest)[..n + 1] == [first] + rest[..n];
      JoinCons(first, rest[..n]);
    }
  }

  lemma {:induction false} ChunksJoin(message: seq<byte>)
    ensures Join(Chunks(message)) == message
    decreases |message|
  {
    if message == [] {
    } else if |message| <= PLAINTEXT_LIMIT {
      assert [message][..0] == [];
    } else {
      ChunksJoin(message[PLAINTEXT_LIMIT..]);
      JoinCons(message[..PLAINTEXT_LIMIT], Chunks(message[PLAINTEXT_LIMIT..]));
    }
  }

  function HandshakeRecord(fragment: seq<byte>): PlaintextRecord {
    PlaintextRecord(Handshake, LEGACY_VERSION, fragment)
  }

  // One record per chunk; the first failure ends the message.
  function EncryptChunks(block: BlockFunction, k: Keys, chunks: seq<seq<byte>>): (Result<seq<CiphertextRecord>, RecordError>, Keys)
    decreases |chunks|
  {
    if chunks == [] then (Ok([]), k)
    else
      match NewRecord(Handshake, chunks[0])
      case Err(error) => (Err(error), k)
      case Ok(plaintext) =>
        match EncryptStep(block, k, plaintext, 0)
        case (Err(error), k') => (Err(error), k')
        case (Ok(record), k') =>
          Prepend(record, EncryptChunks(block, k', chunks[1..]))
  }

  function Prepend(record: CiphertextRecord, later: (Result<seq<CiphertextRecord>, RecordError>, Keys)):
    (Result<seq<CiphertextRecord>, RecordError>, Keys)
  {
    if later.0.Ok? then (Ok([record] + later.0.value), later.1) else later
  }

  method EncryptHandshakeMessage(protection: Tls13RecordProtection, message: seq<byte>)
      returns (r: Result<seq<CiphertextRecord>, RecordError>)
    modifies protection
    ensures (r, protection.State()) == EncryptChunks(protection.block, old(protection.State()), Chunks(message))
  {
    hide EncryptStep, NewRecord, EncryptChunks, Chunks;
    var records: seq<CiphertextRecord> := [];
    var rest := message;
    ghost var goal := EncryptChunks(protection.block, protection.State(), Chunks(message));
    assert goal.0.Ok? ==> [] + goal.0.value == goal.0.value;
    while rest != []
      invariant var (later, k) := EncryptChunks(protection.block, protection.State(), Chunks(rest));
                goal == (if later.Ok? then Ok(records + later.value) else later, k)
      decreases |rest|
    {
      var fragment := rest[..Min(|rest|, PLAINTEXT_LIMIT)];
      FirstChunk(rest);
      EncryptFirst(protection.block, protection.State(), fragment, Chunks(rest[|fragment|..]));
      var plaintext := NewRecord(Handshake, fragment);
      if plaintext.Err? {
        return Err(plaintext.error);
      }
      var record := protection.EncryptRecord(plaintext.value, 0);
      if record.Err? {
        return Err(record.error);
      }
      ghost var later := EncryptChunks(protection.block, protection.State(), Chunks(rest[|fragment|..])).0;
      if later.Ok? {
        AppendOne(records, record.value, later.value);
      }
      records := records + [record.value];
      rest := rest[|fragment|..];
    }
    assert records + [] == records;
    NoChunks(protection.block, protection.State());
    r := Ok(records);
  }

  lemma FirstChunk(message: seq<byte>)
    requires message != []
    ensures var n := Min(|message|, PLAINTEXT_LIMIT); Chunks(message) == [message[..n]] + Chunks(message[n..])
  {
    if |message| <= PLAINTEXT_LIMIT {
      assert message[..|message|] == message && message[|message|..] == [];
      assert [message] + Chunks([]) == [message];
    }
  }

  lemma EncryptFirst(block: BlockFunction, k: Keys, first: seq<byte>, later: seq<seq<byte>>)
    ensures var plaintext := NewRecord(Handshake, first);
            plaintext.Err? ==> EncryptChunks(block, k, [first] + later) == (Err(plaintext.error), k)
    ensures var plaintext := NewRecord(Handshake, first);
            plaintext.Ok? ==>
              var step := EncryptStep(block, k, plaintext.value, 0);
              EncryptChunks(block, k, [first] + later) ==
                if step.0.Err? then (Err(step.0.error), step.1) else Prepend(step.0.value, EncryptChunks(block, step.1, later))
  {
    hide EncryptStep;
    assert ([first] + later)[1..] == later;
  }

  lemma NoChunks(block: BlockFunction, k: Keys)
    ensures Chunks([]) == [] && EncryptChunks(block, k, []) == (Ok([]), k)
  {
  }

  function FragmentsOf(records: seq<PlaintextRecord>): seq<seq<byte>> {
    seq(|records|, i requires 0 <= i < |records| => records[i].fragment)
  }

  // What the peer decrypts from a list of records, in order.
  function DecryptAll(block: BlockFunction, k: Keys, records: seq<CiphertextRecord>): Result<seq<PlaintextRecord>, RecordError>
    decreases |records|
  {
    if records == [] then Ok([])
    else
      match DecryptStep(block, k, records[0])
      case (Err(error), _) => Err(error)
      case (Ok(plaintext), k') =>
        match DecryptAll(block, k', records[1..])
        case Err(error) => Err(error)
        case Ok(later) => Ok([plaintext] + later)
  }

  lemma {:induction false} ChunksDelivered(block: BlockFunction, s: Keys, r: Keys, chunks: seq<seq<byte>>)
    requires Mirrored(s, r) && EncryptChunks(block, s, chunks).0.Ok?
    ensures DecryptAll(block, r, EncryptChunks(block, s, chunks).0.value)
         == Ok(seq(|chunks|, i requires 0 <= i < |chunks| => HandshakeRecord(chunks[i])))
    decreases |chunks|
  {
    hide EncryptStep, DecryptStep;
    if chunks != [] {
      var plaintext := NewRecord(Handshake, chunks[0]).value;
      var (record, s') := EncryptStep(block, s, plaintext, 0);
      RecordRoundTrip(block, s, r, plaintext, 0);
      var r' := DecryptStep(block, r, record.value).1;
      ChunksDelivered(block, s', r', chunks[1..]);
      var later := EncryptChunks(block, s', chunks[1..]).0.value;
      assert ([record.value] + later)[1..] == later;
      assert [HandshakeRecord(chunks[0])] + seq(|chunks| - 1, i requires 0 <= i < |chunks| - 1 => HandshakeRecord(chunks[1..][i]))
          == seq(|chunks|, i requires 0 <= i < |chunks| => HandshakeRecord(chunks[i]));
    } else {
      assert seq(|chunks|, i requires 0 <= i < |chunks| => HandshakeRecord(chunks[i])) == [];
    }
  }

  /** Fragmenting, encrypting, decrypting and deframing a well-framed message returns the message. */
  lemma HandshakeMessageDelivered(block: BlockFunction, s: Keys, r: Keys, message: seq<byte>)
    requires Mirrored(s, r) && WellFramed(message) && EncryptChunks(block, s, Chunks(message)).0.Ok?
    ensures var wire := EncryptChunks(block, s, Chunks(message)).0.value;
            && DecryptAll(block, r, wire).Ok?
            && Feed(NextMessage, FragmentsOf(DecryptAll(block, r, wire).value)) == Fed([message], [], None)
  {
    hide EncryptChunks, DecryptAll, Feed;
    var chunks := Chunks(message);
    ChunksDelivered(block, s, r, chunks);
    ChunksJoin(message);
    var received := seq(|chunks|, i requires 0 <= i < |chunks| => HandshakeRecord(chunks[i]));
    assert FragmentsOf(received) == chunks;
    FragmentsDeframe(message, chunks);
  }
}
