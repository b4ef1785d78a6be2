/** The exchange of the two hellos, end to end: both ends derive the same secrets
    and mirrored record protection (sections 4.1 and 7 of RFC 8446). The hash
    and the HKDF steps are arbitrary functions. */
module HelloAgreement {
  import opened Words
  import opened TlsRecords
  import opened HandshakeReading
  import opened ClientHello
  import opened ServerHello
  import opened Curve
  import opened P256
  import opened Ecc
  import opened RecordProtection

  const DERIVED: Bytes := [100, 101, 114, 105, 118, 101, 100]
  const CLIENT_TRAFFIC: Bytes := [99, 32, 104, 115, 32, 116, 114, 97, 102, 102, 105, 99]
  const SERVER_TRAFFIC: Bytes := [115, 32, 104, 115, 32, 116, 114, 97, 102, 102, 105, 99]
  const KEY_LABEL: Bytes := [107, 101, 121]
  const IV_LABEL: Bytes := [105, 118]

  // The hash, HKDF-Extract, and HKDF-Expand-Label to 32 and to 12 bytes.
  datatype Suite = Suite(hash: Bytes -> Key, extract: (Bytes, Bytes) -> Key, expand: (Key, Bytes, Bytes) -> Key,
                         expandIv: (Key, Bytes, Bytes) -> Nonce, block: BlockFunction)

  datatype HandshakeKeys = HandshakeKeys(clientSecret: Key, serverSecret: Key, mainSecret: Key, clientKey: Key, clientIv: Nonce,
                                         serverKey: Key, serverIv: Nonce)

  datatype HelloError =
    | Malformed(reason: HandshakeError) | BadPoint(point: PointError) | BadExchange(exchange: EcdhError) | BadRecord(record: RecordError)
    | BadServerName | ZeroPrivateKey | LegacySessionIdMismatch | HelloRetryRequired | NoCommonCipherSuite | NoCommonGroup
    | NoCommonSignatureAlgorithm | NoApplicationProtocol

  function ZeroSecret(): Key {
    seq(32, _ => 0)
  }

  function Schedule(suite: Suite, shared: Bytes, helloHash: Key): HandshakeKeys {
    var zero := ZeroSecret();
    var emptyHash := suite.hash([]);
    var early := suite.extract(zero, zero);
    var handshake := suite.extract(suite.expand(early, DERIVED, emptyHash), shared);
    var client := suite.expand(handshake, CLIENT_TRAFFIC, helloHash);
    var server := suite.expand(handshake, SERVER_TRAFFIC, helloHash);
    HandshakeKeys(client, server, suite.extract(suite.expand(handshake, DERIVED, emptyHash), zero),
                  suite.expand(client, KEY_LABEL, []), suite.expandIv(client, IV_LABEL, []),
                  suite.expand(server, KEY_LABEL, []), suite.expandIv(server, IV_LABEL, []))
  }

  function ClientProtection(k: HandshakeKeys): Keys {
    Keys(k.clientKey, k.clientIv, k.serverKey, k.serverIv, Some(0), Some(0))
  }

  function ServerProtection(k: HandshakeKeys): Keys {
    Keys(k.serverKey, k.serverIv, k.clientKey, k.clientIv, Some(0), Some(0))
  }

  // ----- the client -----

  function BuildClientHello(c: Group, isAddress: Bytes -> bool, name: Bytes, random: Bytes, scalar: nat): Result<Bytes, HelloError>
    requires c.p > 3 && |random| == 32
  {
    if !IsServerName(name, isAddress) then Err(BadServerName)
    else if scalar == 0 then Err(ZeroPrivateKey)
    else
      var share := ToSec1(Multiple(scalar, c.g, c.p));
      if share.Err? then Err(BadPoint(share.error)) else Ok(ClientHelloBytes(name, random, share.value))
  }

  datatype ClientState = ClientState(keys: HandshakeKeys, protection: Keys, transcript: Bytes)

  function ReceiveServerHello(suite: Suite, c: Group, clientHello: Bytes, scalar: nat, message: Bytes): Result<ClientState, HelloError>
    requires c.p > 3
  {
    var answer := ParseServerHello(message);
    if answer.Reject? then Err(Malformed(answer.error))
    else if answer.value.sessionId != [] then Err(LegacySessionIdMismatch)
    else
      var peer := FromSec1(answer.value.share, c.p, c.b);
      if peer.Err? then Err(BadPoint(peer.error))
      else
        var shared := EcdhSpec(scalar, peer.value, c.p);
        if shared.Err? then Err(BadExchange(shared.error))
        else
          var keys := Schedule(suite, shared.value, suite.hash(clientHello + message));
          Ok(ClientState(keys, ClientProtection(keys), clientHello + message))
  }

  // ----- the server -----

  // The first share for the group, as the client listed them.
  function ShareFor(shares: seq<Share>, group: nat): Option<Bytes>
    decreases |shares|
  {
    if shares == [] then None
    else if shares[0].group == group then Some(shares[0].keyExchange)
    else ShareFor(shares[1..], group)
  }

  function CheckOffer(hello: Hello): Option<HelloError> {
    if CHACHA20_POLY1305_SHA256 !in hello.cipherSuites then Some(NoCommonCipherSuite)
    else if SECP256R1 !in hello.groups then Some(NoCommonGroup)
    else if ECDSA_SECP256R1_SHA256 !in hello.algorithms then Some(NoCommonSignatureAlgorithm)
    else None
  }

  function EncryptedExtensionsBytes(hello: Hello): Result<Bytes, HelloError> {
    if HTTP_1_1 in hello.protocols then
      Ok(MessageBytes(ENCRYPTED_EXTENSIONS, Vector16(ExtensionBytes(RawExtension(APPLICATION_PROTOCOLS, Vector16(Vector8(HTTP_1_1)))))))
    else if hello.protocols == [] then Ok(MessageBytes(ENCRYPTED_EXTENSIONS, Vector16([])))
    else Err(NoApplicationProtocol)
  }

  datatype ServerFlight = ServerFlight(serverHello: Bytes, encryptedExtensions: Bytes, record: CiphertextRecord,
                                       keys: HandshakeKeys, protection: Keys, transcript: Bytes)

  // Encrypts the extensions under fresh protection and completes the flight.
  function Finish(suite: Suite, hello: Hello, clientHello: Bytes, serverHello: Bytes, shared: Bytes): Result<ServerFlight, HelloError> {
    var keys := Schedule(suite, shared, suite.hash(clientHello + serverHello));
    var extensions := EncryptedExtensionsBytes(hello);
    if extensions.Err? then Err(extensions.error)
    else
      var plaintext := NewRecord(Handshake, extensions.value);
      if plaintext.Err? then Err(BadRecord(plaintext.error))
      else
        var attempt := EncryptStep(suite.block, ServerProtection(keys), plaintext.value, 0);
        if attempt.0.Err? then Err(BadRecord(attempt.0.error))
        else
          Ok(ServerFlight(serverHello, extensions.value, attempt.0.value, keys, attempt.1,
                          clientHello + serverHello + extensions.value))
  }

  function Negotiate(suite: Suite, c: Group, isAddress: Bytes -> bool, clientHello: Bytes, scalar: nat, random: Bytes):
    Result<ServerFlight, HelloError>
    requires c.p > 3 && |random| == 32
  {
    var hello := ParseClientHello(clientHello, isAddress);
    if hello.Reject? then Err(Malformed(hello.error))
    else
      var problem := CheckOffer(hello.value);
      if problem.Some? then Err(problem.value)
      else
        var share := ShareFor(hello.value.shares, SECP256R1);
        if share.None? then Err(HelloRetryRequired) else Answered(suite, c, clientHello, hello.value, share.value, scalar, random)
  }

  function Answered(suite: Suite, c: Group, clientHello: Bytes, hello: Hello, share: Bytes, scalar: nat, random: Bytes):
    Result<ServerFlight, HelloError>
    requires c.p > 3 && |random| == 32
  {
    var peer := FromSec1(share, c.p, c.b);
    if peer.Err? then Err(BadPoint(peer.error))
    else
      var own := ToSec1(Multiple(scalar, c.g, c.p));
      if own.Err? then Err(BadPoint(own.error))
      else
        var shared := EcdhSpec(scalar, peer.value, c.p);
        if shared.Err? then Err(BadExchange(shared.error))
        else if |hello.sessionId| > 32 then Err(Malformed(InvalidSessionIdLength(|hello.sessionId|)))
        else Finish(suite, hello, clientHello, ServerHelloBytes(hello.sessionId, random, own.value), shared.value)
  }

  // ----- agreement -----

  // The share of a private key in range encodes a point that reads back.
  lemma PublicShare(c: Group, scalar: nat)
    requires WellFormed(c) && GroupHypotheses(c) && 1 <= scalar < c.n
    ensures var share := ToSec1(Multiple(scalar, c.g, c.p));
            share.Ok? && |share.value| == 65 && FromSec1(share.value, c.p, c.b) == Ok(Multiple(scalar, c.g, c.p))
  {
    MultipleOnCurve(scalar, c.g, c.p, c.b);
    GeneratorOrder(scalar, c);
    ModIsSelf(scalar, c.n);
    Sec1RoundTrip(Multiple(scalar, c.g, c.p), c.p, c.b);
  }

  lemma ModIsSelf(a: nat, n: nat)
    requires 1 <= a < n
    ensures a % n != 0
  {
  }

  lemma ExtensionsSize(hello: Hello)
    requires HTTP_1_1 in hello.protocols
    ensures EncryptedExtensionsBytes(hello).Ok? && |EncryptedExtensionsBytes(hello).value| == 21
  {
  }

  // The server's side, on the hello a client builds.
  lemma ServerAgrees(suite: Suite, c: Group, isAddress: Bytes -> bool, name: Bytes, clientRandom: Bytes, a: nat,
                     serverRandom: Bytes, b: nat) returns (clientShare: Bytes, serverShare: Bytes)
    requires WellFormed(c) && GroupHypotheses(c) && 1 <= a < c.n && 1 <= b < c.n
    requires IsServerName(name, isAddress) && |clientRandom| == 32 && |serverRandom| == 32
    ensures |name| <= 253 && |clientShare| == 65 && |serverShare| == 65
    ensures BuildClientHello(c, isAddress, name, clientRandom, a) == Ok(ClientHelloBytes(name, clientRandom, clientShare))
    ensures FromSec1(serverShare, c.p, c.b) == Ok(Multiple(b, c.g, c.p))
    ensures var shared := EcdhSpec(b, Multiple(a, c.g, c.p), c.p);
            && shared.Ok?
            && Negotiate(suite, c, isAddress, ClientHelloBytes(name, clientRandom, clientShare), b, serverRandom)
               == Finish(suite, Understood(name, clientRandom, clientShare), ClientHelloBytes(name, clientRandom, clientShare),
                         ServerHelloBytes([], serverRandom, serverShare), shared.value)
  {
    hide IsServerName, ParseClientHello, ClientHelloBytes, FromSec1, ToSec1, EcdhSpec, Finish, ServerHelloBytes, Multiple, Offered;
    ServerNameLength(name, isAddress);
    PublicShare(c, a);
    PublicShare(c, b);
    clientShare := ToSec1(Multiple(a, c.g, c.p)).value;
    serverShare := ToSec1(Multiple(b, c.g, c.p)).value;
    ClientHelloRoundTrip(name, clientRandom, clientShare, isAddress);
    EcdhAgreement(b, a, c);
  }

  /** For every name, randoms and private keys, the hello a client builds is answered by the server, and
      the client accepts the answer exactly when its random is not the one of a HelloRetryRequest. Then both
      have the same secrets and transcript so far, the server reads with what the client writes with, and the
      client decrypts the server's first record to its encrypted extensions, after which it reads in step
      with what the server writes. */
  lemma HelloAgreement(suite: Suite, c: Group, isAddress: Bytes -> bool, name: Bytes, clientRandom: Bytes, a: nat,
                       serverRandom: Bytes, b: nat)
    requires WellFormed(c) && GroupHypotheses(c) && 1 <= a < c.n && 1 <= b < c.n
    requires IsServerName(name, isAddress) && |clientRandom| == 32 && |serverRandom| == 32
    ensures var clientHello := BuildClientHello(c, isAddress, name, clientRandom, a);
            && clientHello.Ok?
            && var flight := Negotiate(suite, c, isAddress, clientHello.value, b, serverRandom);
            && flight.Ok?
            && var client := ReceiveServerHello(suite, c, clientHello.value, a, flight.value.serverHello);
            && (client.Ok? <==> serverRandom != HELLO_RETRY_REQUEST_RANDOM)
            && (client.Ok? ==>
                  && client.value.keys == flight.value.keys
                  && flight.value.transcript == client.value.transcript + flight.value.encryptedExtensions
                  && Mirrored(client.value.protection, flight.value.protection)
                  && var first := DecryptStep(suite.block, client.value.protection, flight.value.record);
                     first.0 == Ok(HandshakeRecord(flight.value.encryptedExtensions)) && Mirrored(flight.value.protection, first.1))
  {
    hide IsServerName, BuildClientHello, Negotiate, ClientHelloBytes, FromSec1, EcdhSpec, ServerHelloBytes, ParseServerHello, Multiple, Schedule,
      EncryptStep, DecryptStep, EncryptedExtensionsBytes, Offered;
    var clientShare, serverShare := ServerAgrees(suite, c, isAddress, name, clientRandom, a, serverRandom, b);
    var clientHello, serverHello := ClientHelloBytes(name, clientRandom, clientShare), ServerHelloBytes([], serverRandom, serverShare);
    var hello := Understood(name, clientRandom, clientShare);
    EcdhAgreement(a, b, c);
    var shared := EcdhSpec(b, Multiple(a, c.g, c.p), c.p).value;
    ServerHelloRoundTrip([], serverRandom, serverShare);
    FlightSent(suite, hello, clientHello, serverHello, shared);
  }

  // The encrypted extensions are sent and decrypted.
  lemma FlightSent(suite: Suite, hello: Hello, clientHello: Bytes, serverHello: Bytes, shared: Bytes)
    requires hello.protocols == [HTTP_1_1]
    ensures var flight := Finish(suite, hello, clientHello, serverHello, shared);
            && flight.Ok? && flight.value.serverHello == serverHello
            && flight.value.keys == Schedule(suite, shared, suite.hash(clientHello + serverHello))
            && flight.value.transcript == clientHello + serverHello + flight.value.encryptedExtensions
            && Mirrored(ClientProtection(flight.value.keys), flight.value.protection)
            && var first := DecryptStep(suite.block, ClientProtection(flight.value.keys), flight.value.record);
               first.0 == Ok(HandshakeRecord(flight.value.encryptedExtensions)) && Mirrored(flight.value.protection, first.1)
  {
    hide Schedule, EncryptStep, DecryptStep, EncryptedExtensionsBytes, EncodeInner;
    ExtensionsSize(hello);
    var keys := Schedule(suite, shared, suite.hash(clientHello + serverHello));
    var record := NewRecord(Handshake, EncryptedExtensionsBytes(hello).value).value;
    Encodes(record);
    AlwaysEncrypts(suite.block, ServerProtection(keys), record, 0);
    RecordRoundTrip(suite.block, ServerProtection(keys), ClientProtection(keys), record, 0);
  }

  lemma Encodes(record: PlaintextRecord)
    requires record.contentType == Handshake && 1 <= |record.fragment| <= PLAINTEXT_LIMIT
    ensures EncodeInner(record, 0).Ok?
  {
  }
}
