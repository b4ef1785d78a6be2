/** The ClientHello: the message the client builds, and the parser the server
    reads it with (section 4.1.2 of RFC 8446). */
module ClientHello {
  import opened Words
  import opened TlsRecords
  import opened HandshakeReading
  import Syntax = HttpSyntax

  const CLIENT_HELLO: byte := 1
  const TLS_1_3 := 0x0304
  const CHACHA20_POLY1305_SHA256 := 0x1303
  const SECP256R1 := 0x0017
  const ECDSA_SECP256R1_SHA256 := 0x0403
  const SERVER_NAME := 0
  const SUPPORTED_GROUPS := 10
  const SIGNATURE_ALGORITHMS := 13
  const APPLICATION_PROTOCOLS := 16
  const PRE_SHARED_KEY := 41
  const SUPPORTED_VERSIONS := 43
  const KEY_SHARE := 51
  const HTTP_1_1: Bytes := [104, 116, 116, 112, 47, 49, 46, 49]

  datatype Share = Share(group: nat, keyExchange: Bytes)
  datatype RawExtension = RawExtension(extensionType: nat, data: Bytes)

  datatype Extensions = Extensions(serverName: Option<Bytes>, versions: Option<seq<nat>>, groups: Option<seq<nat>>,
                                   algorithms: Option<seq<nat>>, protocols: Option<seq<Bytes>>, shares: Option<seq<Share>>,
                                   raw: seq<RawExtension>, preSharedKey: bool)

  datatype Hello = Hello(random: Bytes, sessionId: Bytes, cipherSuites: seq<nat>, serverName: Option<Bytes>,
                         versions: seq<nat>, groups: seq<nat>, shares: seq<Share>, algorithms: seq<nat>,
                         protocols: seq<Bytes>, raw: seq<RawExtension>, preSharedKey: bool)

  // ----- server names -----

  predicate IsNameLabel(s: Bytes) {
    && 1 <= |s| <= 63 && s[0] != 45 && s[|s| - 1] != 45
    && forall i :: 0 <= i < |s| ==> Syntax.IsDigit(s[i]) || Syntax.IsLetter(s[i]) || s[i] == 45
  }

  // A DNS name without a final dot that does not read as an address.
  predicate IsServerName(s: Bytes, isAddress: Bytes -> bool) {
    && 1 <= |s| <= 253 && (forall i :: 0 <= i < |s| ==> s[i] < 128)
    && s[|s| - 1] != 46 && !isAddress(s)
    && forall i :: 0 <= i < |Syntax.Parts(s, 46)| ==> IsNameLabel(Syntax.Parts(s, 46)[i])
  }

  function Lowercase(s: Bytes): (r: Bytes)
    ensures |r| == |s|
  {
    seq(|s|, i requires 0 <= i < |s| => Syntax.Lower(s[i]))
  }

  // ----- the extensions one by one -----

  function U16Values(s: Bytes): seq<nat>
    requires |s| % 2 == 0
    decreases |s|
  {
    if s == [] then [] else [U16(s[0], s[1])] + U16Values(s[2..])
  }

  function ValueList(s: Bytes): Outcome<seq<nat>> {
    if |s| < 2 || |s| % 2 != 0 then Reject(MalformedVector) else Value(U16Values(s), |s|)
  }

  function ParseValues8(data: Bytes): Outcome<seq<nat>> {
    var list :- WholeVector8(data);
    ValueList(list.value)
  }

  function ParseValues16(data: Bytes): Outcome<seq<nat>> {
    var list :- WholeVector16(data);
    ValueList(list.value)
  }

  function NamesFrom(s: Bytes, i: nat, seen: seq<byte>, name: Option<Bytes>, isAddress: Bytes -> bool): Outcome<Option<Bytes>>
    requires i <= |s|
    decreases |s| - i
  {
    if i == |s| then Value(name, i)
    else
      var nameType :- U8At(s, i);
      var entry :- Vector16At(s, nameType.next);
      if nameType.value in seen then Reject(DuplicateServerName)
      else if nameType.value == 0 && !IsServerName(entry.value, isAddress) then Reject(InvalidServerName)
      else
        NamesFrom(s, entry.next, seen + [nameType.value], if nameType.value == 0 then Some(Lowercase(entry.value)) else name, isAddress)
  }

  function ParseServerName(data: Bytes, isAddress: Bytes -> bool): Outcome<Option<Bytes>> {
    var list :- WholeVector16(data);
    if list.value == [] then Reject(MalformedVector) else NamesFrom(list.value, 0, [], None, isAddress)
  }

  function ProtocolsFrom(s: Bytes, i: nat): Outcome<seq<Bytes>>
    requires i <= |s|
    decreases |s| - i
  {
    if i == |s| then Value([], i)
    else
      var protocol :- Vector8At(s, i);
      if protocol.value == [] then Reject(InvalidAlpn)
      else
        var rest :- ProtocolsFrom(s, protocol.next);
        Value([protocol.value] + rest.value, rest.next)
  }

  function ParseProtocols(data: Bytes): Outcome<seq<Bytes>> {
    var list :- WholeVector16(data);
    if list.value == [] then Reject(InvalidAlpn) else ProtocolsFrom(list.value, 0)
  }

  function SharesFrom(s: Bytes, i: nat, shares: seq<Share>): Outcome<seq<Share>>
    requires i <= |s|
    decreases |s| - i
  {
    if i == |s| then Value(shares, i)
    else
      var group :- U16At(s, i);
      var keyExchange :- Vector16At(s, group.next);
      if keyExchange.value == [] then Reject(MalformedVector)
      else if exists k :: 0 <= k < |shares| && shares[k].group == group.value then Reject(DuplicateKeyShareGroup(group.value))
      else SharesFrom(s, keyExchange.next, shares + [Share(group.value, keyExchange.value)])
  }

  function ParseShares(data: Bytes): Outcome<seq<Share>> {
    var list :- WholeVector16(data);
    SharesFrom(list.value, 0, [])
  }

  // One more extension, the last one or not.
  function Handle(e: Extensions, x: RawExtension, last: bool, isAddress: Bytes -> bool): Outcome<Extensions> {
    var raw := e.raw + [x];
    if x.extensionType == SERVER_NAME then
      var name :- ParseServerName(x.data, isAddress);
      Value(Extensions(name.value, e.versions, e.groups, e.algorithms, e.protocols, e.shares, raw, e.preSharedKey), 0)
    else if x.extensionType == SUPPORTED_GROUPS then
      var groups :- ParseValues16(x.data);
      Value(Extensions(e.serverName, e.versions, Some(groups.value), e.algorithms, e.protocols, e.shares, raw, e.preSharedKey), 0)
    else if x.extensionType == SIGNATURE_ALGORITHMS then
      var algorithms :- ParseValues16(x.data);
      Value(Extensions(e.serverName, e.versions, e.groups, Some(algorithms.value), e.protocols, e.shares, raw, e.preSharedKey), 0)
    else if x.extensionType == APPLICATION_PROTOCOLS then
      var protocols :- ParseProtocols(x.data);
      Value(Extensions(e.serverName, e.versions, e.groups, e.algorithms, Some(protocols.value), e.shares, raw, e.preSharedKey), 0)
    else if x.extensionType == PRE_SHARED_KEY then
      if !last then Reject(PreSharedKeyNotLast)
      else Value(Extensions(e.serverName, e.versions, e.groups, e.algorithms, e.protocols, e.shares, raw, true), 0)
    else if x.extensionType == SUPPORTED_VERSIONS then
      var versions :- ParseValues8(x.data);
      Value(Extensions(e.serverName, Some(versions.value), e.groups, e.algorithms, e.protocols, e.shares, raw, e.preSharedKey), 0)
    else if x.extensionType == KEY_SHARE then
      var shares :- ParseShares(x.data);
      Value(Extensions(e.serverName, e.versions, e.groups, e.algorithms, e.protocols, Some(shares.value), raw, e.preSharedKey), 0)
    else Value(Extensions(e.serverName, e.versions, e.groups, e.algorithms, e.protocols, e.shares, raw, e.preSharedKey), 0)
  }

  predicate Repeats(raw: seq<RawExtension>, extensionType: nat) {
    exists k :: 0 <= k < |raw| && raw[k].extensionType == extensionType
  }

  function ExtensionsFrom(s: Bytes, i: nat, e: Extensions, isAddress: Bytes -> bool): Outcome<Extensions>
    requires i <= |s|
    decreases |s| - i
  {
    if i == |s| then Value(e, i)
    else
      var extensionType :- U16At(s, i);
      var data :- Vector16At(s, extensionType.next);
      if Repeats(e.raw, extensionType.value) then Reject(DuplicateExtension(extensionType.value))
      else
        var handled :- Handle(e, RawExtension(extensionType.value, data.value), data.next == |s|, isAddress);
        ExtensionsFrom(s, data.next, handled.value, isAddress)
  }

  function NoExtensions(): Extensions {
    Extensions(None, None, None, None, None, None, [], false)
  }

  // ----- the message -----

  // Every share is of an offered group, in the order of the groups.
  function CheckShares(groups: seq<nat>, shares: seq<Share>, previous: Option<nat>): Option<HandshakeError>
    decreases |shares|
  {
    if shares == [] then None
    else
      var k := GroupIndex(groups, shares[0].group, 0);
      if k == |groups| then Some(KeyShareGroupNotOffered(shares[0].group))
      else if previous.Some? && k <= previous.value then Some(KeyShareOrderMismatch)
      else CheckShares(groups, shares[1..], Some(k))
  }

  function GroupIndex(groups: seq<nat>, group: nat, i: nat): (k: nat)
    requires i <= |groups|
    ensures i <= k <= |groups| && (k < |groups| ==> groups[k] == group)
    decreases |groups| - i
  {
    if i == |groups| || groups[i] == group then i else GroupIndex(groups, group, i + 1)
  }

  function CheckExtensions(e: Extensions): Option<HandshakeError> {
    if e.versions.None? then Some(MissingRequiredExtension(SUPPORTED_VERSIONS))
    else if TLS_1_3 !in e.versions.value then Some(Tls13Required)
    else if !e.preSharedKey && e.algorithms.None? then Some(MissingRequiredExtension(SIGNATURE_ALGORITHMS))
    else if !e.preSharedKey && e.groups.None? then Some(MissingRequiredExtension(SUPPORTED_GROUPS))
    else if e.groups.Some? && e.shares.None? then Some(MissingRequiredExtension(KEY_SHARE))
    else if e.groups.None? && e.shares.Some? then Some(MissingRequiredExtension(SUPPORTED_GROUPS))
    else if e.groups.Some? then CheckShares(e.groups.value, e.shares.value, None)
    else None
  }

  function OrEmpty<T>(o: Option<seq<T>>): seq<T> {
    if o.None? then [] else o.value
  }

  function ParseBody(s: Bytes, isAddress: Bytes -> bool): Outcome<Hello> {
    var version :- U16At(s, 0);
    if version.value != LEGACY_VERSION then Reject(InvalidLegacyVersion(version.value))
    else
      var random :- ExactAt(s, version.next, 32);
      var session :- Vector8At(s, random.next);
      if |session.value| > 32 then Reject(InvalidSessionIdLength(|session.value|))
      else
        var suites :- Vector16At(s, session.next);
        if |suites.value| < 2 || |suites.value| % 2 != 0 then Reject(InvalidCipherSuiteVector(|suites.value|))
        else
          var compression :- Vector8At(s, suites.next);
          if compression.value != [0] then Reject(InvalidCompressionMethods)
          else if compression.next == |s| then Reject(MissingExtensions)
          else
            var block :- Vector16At(s, compression.next);
            if block.next != |s| then Reject(MalformedVector)
            else
              var e :- ExtensionsFrom(block.value, 0, NoExtensions(), isAddress);
              Assemble(random.value, session.value, U16Values(suites.value), e.value)
  }

  function Assemble(random: Bytes, sessionId: Bytes, suites: seq<nat>, e: Extensions): Outcome<Hello> {
    var problem := CheckExtensions(e);
    if problem.Some? then Reject(problem.value)
    else
      Value(Hello(random, sessionId, suites, e.serverName, OrEmpty(e.versions), OrEmpty(e.groups), OrEmpty(e.shares),
                  OrEmpty(e.algorithms), OrEmpty(e.protocols), e.raw, e.preSharedKey), 0)
  }

  function ParseClientHello(message: Bytes, isAddress: Bytes -> bool): Outcome<Hello> {
    if |message| < HANDSHAKE_HEADER_SIZE then Reject(Truncated)
    else if message[0] != CLIENT_HELLO then Reject(UnexpectedHandshakeType(message[0]))
    else
      var declared := U24(message[1], message[2], message[3]);
      if declared != |message| - HANDSHAKE_HEADER_SIZE then
        Reject(HandshakeLengthMismatch(declared, |message| - HANDSHAKE_HEADER_SIZE))
      else ParseBody(message[HANDSHAKE_HEADER_SIZE..], isAddress)
  }

  // ----- what the client builds -----

  function U24Bytes(v: nat): (b: Bytes)
    requires v < 0x1_000000
    ensures |b| == 3 && U24(b[0], b[1], b[2]) == v
  {
    U24Parts(v);
    [v / 65536, v / 256 % 256, v % 256]
  }

  lemma U24Parts(v: nat)
    ensures v == 65536 * (v / 65536) + 256 * (v / 256 % 256) + v % 256
  {
    assert v / 65536 == v / 256 / 256;
  }

  function ExtensionBytes(x: RawExtension): (r: Bytes)
    requires x.extensionType < 0x10000 && |x.data| < 0x10000
    ensures |r| == |x.data| + 4
  {
    U16Bytes(x.extensionType) + Vector16(x.data)
  }

  predicate Encodable(xs: seq<RawExtension>) {
    forall k :: 0 <= k < |xs| ==> xs[k].extensionType < 0x10000 && |xs[k].data| < 0x10000
  }

  function ExtensionBlock(xs: seq<RawExtension>): Bytes
    requires Encodable(xs)
    decreases |xs|
  {
    if xs == [] then [] else ExtensionBytes(xs[0]) + ExtensionBlock(xs[1..])
  }

  function NameData(name: Bytes): (r: Bytes)
    requires |name| <= 253
    ensures |r| == |name| + 5
  {
    Vector16([0] + Vector16(name))
  }

  function ShareData(share: Bytes): (r: Bytes)
    requires |share| == 65
    ensures |r| == 71
  {
    Vector16(U16Bytes(SECP256R1) + Vector16(share))
  }

  function Offered(name: Bytes, share: Bytes): (xs: seq<RawExtension>)
    requires |name| <= 253 && |share| == 65
    ensures Encodable(xs)
  {
    [RawExtension(SERVER_NAME, NameData(name)),
     RawExtension(SUPPORTED_GROUPS, [0, 2, 0, 0x17]),
     RawExtension(SIGNATURE_ALGORITHMS, [0, 2, 4, 3]),
     RawExtension(APPLICATION_PROTOCOLS, [0, 9, 8] + HTTP_1_1),
     RawExtension(SUPPORTED_VERSIONS, [2, 3, 4]),
     RawExtension(KEY_SHARE, ShareData(share))]
  }

  function BodyBytes(random: Bytes, block: Bytes): (r: Bytes)
    requires |random| == 32 && |block| < 0x10000
    ensures |r| == 43 + |block|
  {
    [3, 3] + random + [0] + [0, 2, 0x13, 3] + [1, 0] + Vector16(block)
  }

  function MessageBytes(code: byte, body: Bytes): Bytes
    requires |body| < 0x1_000000
  {
    [code] + U24Bytes(|body|) + body
  }

  // A block from some extension on.
  lemma BlockFrom(xs: seq<RawExtension>, k: nat)
    requires Encodable(xs) && k <= |xs|
    ensures Encodable(xs[k..])
    ensures k == |xs| ==> ExtensionBlock(xs[k..]) == []
    ensures k < |xs| ==> Encodable(xs[k + 1..])
    ensures k < |xs| ==> ExtensionBlock(xs[k..]) == ExtensionBytes(xs[k]) + ExtensionBlock(xs[k + 1..])
  {
    if k < |xs| {
      assert xs[k..][1..] == xs[k + 1..];
    }
  }

  lemma OfferedSize(name: Bytes, share: Bytes)
    requires |name| <= 253 && |share| == 65
    ensures |ExtensionBlock(Offered(name, share))| == 122 + |name|
  {
    hide ExtensionBytes, NameData, ShareData, ExtensionBlock;
    var xs := Offered(name, share);
    BlockFrom(xs, 0);
    BlockFrom(xs, 1);
    BlockFrom(xs, 2);
    BlockFrom(xs, 3);
    BlockFrom(xs, 4);
    BlockFrom(xs, 5);
    BlockFrom(xs, 6);
    assert xs[0..] == xs;
  }

  function ClientHelloBytes(name: Bytes, random: Bytes, share: Bytes): Bytes
    requires |name| <= 253 && |random| == 32 && |share| == 65
  {
    OfferedSize(name, share);
    MessageBytes(CLIENT_HELLO, BodyBytes(random, ExtensionBlock(Offered(name, share))))
  }

  // ----- the parser reads a block as its extensions -----

  function Fold(e: Extensions, xs: seq<RawExtension>, k: nat, isAddress: Bytes -> bool): Outcome<Extensions>
    requires k <= |xs|
    decreases |xs| - k
  {
    if k == |xs| then Value(e, 0)
    else if Repeats(e.raw, xs[k].extensionType) then Reject(DuplicateExtension(xs[k].extensionType))
    else
      var handled :- Handle(e, xs[k], k + 1 == |xs|, isAddress);
      Fold(handled.value, xs, k + 1, isAddress)
  }

  predicate SameReading(a: Outcome<Extensions>, b: Outcome<Extensions>) {
    if b.Reject? then a == b else a.Value? && a.value == b.value
  }

  lemma ExtensionRead(s: Bytes, i: nat, x: RawExtension, rest: Bytes)
    requires x.extensionType < 0x10000 && |x.data| < 0x10000 && i <= |s| && s[i..] == ExtensionBytes(x) + rest
    ensures i < |s| && U16At(s, i) == Value(x.extensionType, i + 2)
    ensures Vector16At(s, i + 2) == Value(x.data, i + 4 + |x.data|)
    ensures i + 4 + |x.data| <= |s| && s[i + 4 + |x.data|..] == rest
  {
    hide U16At, Vector16At, U16Bytes, Vector16;
    var bytes := ExtensionBytes(x);
    var k := i + |bytes|;
    assert |s| - i == |bytes| + |rest|;
    assert s[i..][..|bytes|] == s[i..k] && s[i..][|bytes|..] == s[k..];
    assert (bytes + rest)[..|bytes|] == bytes && (bytes + rest)[|bytes|..] == rest;
    AtParts(s, i, U16Bytes(x.extensionType), Vector16(x.data));
    ReadsU16(s, i, x.extensionType);
    ReadsVector16(s, i + 2, x.data);
  }

  lemma {:induction false} BlockRead(s: Bytes, i: nat, xs: seq<RawExtension>, k: nat, e: Extensions, isAddress: Bytes -> bool)
    requires Encodable(xs) && k <= |xs| && i <= |s| && Encodable(xs[k..]) && s[i..] == ExtensionBlock(xs[k..])
    ensures SameReading(ExtensionsFrom(s, i, e, isAddress), Fold(e, xs, k, isAddress))
    decreases |xs| - k
  {
    hide U16At, Vector16At, Handle, ExtensionBytes, ExtensionBlock, Repeats;
    BlockFrom(xs, k);
    if k < |xs| {
      var rest := ExtensionBlock(xs[k + 1..]);
      ExtensionRead(s, i, xs[k], rest);
      BlockFrom(xs, k + 1);
      var handled := Handle(e, xs[k], k + 1 == |xs|, isAddress);
      if handled.Value? {
        BlockRead(s, i + 4 + |xs[k].data|, xs, k + 1, handled.value, isAddress);
      }
    }
  }

  // ----- each extension the client offers -----

  lemma OneValue(v: nat)
    requires v < 0x10000
    ensures ValueList(U16Bytes(v)) == Value([v], 2)
  {
    var rest: Bytes := [];
    var none: seq<nat> := [];
    assert U16Bytes(v)[2..] == rest && U16Values(rest) == none && [v] + none == [v];
  }

  lemma NameRead(name: Bytes, isAddress: Bytes -> bool)
    requires IsServerName(name, isAddress)
    ensures var r := ParseServerName(NameData(name), isAddress); r.Value? && r.value == Some(Lowercase(name))
  {
    hide WholeVector16, U8At, Vector16At, IsServerName, Lowercase;
    ServerNameLength(name, isAddress);
    var entry := [0] + Vector16(name);
    ReadsWhole(entry);
    AtWhole(entry);
    AtParts(entry, 0, [0], Vector16(name));
    ReadsU8(entry, 0, 0);
    ReadsVector16(entry, 1, name);
    var seen: seq<byte> := [];
    assert NamesFrom(entry, |entry|, seen + [0], Some(Lowercase(name)), isAddress) == Value(Some(Lowercase(name)), |entry|);
    assert NamesFrom(entry, 0, seen, None, isAddress) == Value(Some(Lowercase(name)), |entry|);
  }

  lemma ServerNameLength(name: Bytes, isAddress: Bytes -> bool)
    requires IsServerName(name, isAddress)
    ensures 1 <= |name| <= 253
  {
  }

  lemma ProtocolRead()
    ensures var r := ParseProtocols([0, 9, 8] + HTTP_1_1); r.Value? && r.value == [HTTP_1_1]
  {
    hide WholeVector16, Vector8At;
    var entry := Vector8(HTTP_1_1);
    assert [0, 9, 8] + HTTP_1_1 == Vector16(entry);
    ReadsWhole(entry);
    AtWhole(entry);
    ReadsVector8(entry, 0, HTTP_1_1);
    var none: seq<Bytes> := [];
    assert [HTTP_1_1] + none == [HTTP_1_1];
    assert ProtocolsFrom(entry, 9) == Value(none, 9);
  }

  lemma ShareRead(share: Bytes)
    requires |share| == 65
    ensures var r := ParseShares(ShareData(share)); r.Value? && r.value == [Share(SECP256R1, share)]
  {
    hide WholeVector16, U16At, Vector16At, U16Bytes, Vector16;
    var entry := U16Bytes(SECP256R1) + Vector16(share);
    ReadsWhole(entry);
    AtWhole(entry);
    AtParts(entry, 0, U16Bytes(SECP256R1), Vector16(share));
    ReadsU16(entry, 0, SECP256R1);
    ReadsVector16(entry, 2, share);
    var none: seq<Share> := [];
    var one := [Share(SECP256R1, share)];
    assert none + one == one;
    assert SharesFrom(entry, |entry|, one) == Value(one, |entry|);
    assert SharesFrom(entry, 0, none) == Value(one, |entry|);
  }

  lemma ListsRead()
    ensures var r := ParseValues16([0, 2, 0, 0x17]); r.Value? && r.value == [SECP256R1]
    ensures var r := ParseValues16([0, 2, 4, 3]); r.Value? && r.value == [ECDSA_SECP256R1_SHA256]
    ensures var r := ParseValues8([2, 3, 4]); r.Value? && r.value == [TLS_1_3]
  {
    hide WholeVector8, WholeVector16, ValueList;
    OneValue(SECP256R1);
    OneValue(ECDSA_SECP256R1_SHA256);
    OneValue(TLS_1_3);
    assert [0, 2, 0, 0x17] == Vector16(U16Bytes(SECP256R1));
    assert [0, 2, 4, 3] == Vector16(U16Bytes(ECDSA_SECP256R1_SHA256));
    assert [2, 3, 4] == Vector8(U16Bytes(TLS_1_3));
    ReadsWhole(U16Bytes(SECP256R1));
    ReadsWhole(U16Bytes(ECDSA_SECP256R1_SHA256));
    ReadsWhole(U16Bytes(TLS_1_3));
  }

  // What is known after the first k extensions the client offers.
  function Progress(name: Bytes, share: Bytes, k: nat): Extensions
    requires |name| <= 253 && |share| == 65 && k <= 6
  {
    Extensions(if k >= 1 then Some(Lowercase(name)) else None,
               if k >= 5 then Some([TLS_1_3]) else None,
               if k >= 2 then Some([SECP256R1]) else None,
               if k >= 3 then Some([ECDSA_SECP256R1_SHA256]) else None,
               if k >= 4 then Some([HTTP_1_1]) else None,
               if k >= 6 then Some([Share(SECP256R1, share)]) else None,
               Offered(name, share)[..k], false)
  }

  lemma OfferedHandled(name: Bytes, share: Bytes, k: nat, last: bool, isAddress: Bytes -> bool)
    requires |name| <= 253 && IsServerName(name, isAddress) && |share| == 65 && k < 6
    ensures var r := Handle(Progress(name, share, k), Offered(name, share)[k], last, isAddress);
            r.Value? && r.value == Progress(name, share, k + 1)
    ensures !Repeats(Progress(name, share, k).raw, Offered(name, share)[k].extensionType)
  {
    hide IsServerName, Lowercase, NameData, ShareData, ParseServerName, ParseProtocols, ParseShares, ParseValues8, ParseValues16;
    var xs := Offered(name, share);
    assert xs[..k] + [xs[k]] == xs[..k + 1];
    NameRead(name, isAddress);
    ListsRead();
    ProtocolRead();
    ShareRead(share);
  }

  lemma {:induction false} OfferedFolded(name: Bytes, share: Bytes, k: nat, isAddress: Bytes -> bool)
    requires |name| <= 253 && IsServerName(name, isAddress) && |share| == 65 && k <= 6
    ensures var r := Fold(Progress(name, share, k), Offered(name, share), k, isAddress);
            r.Value? && r.value == Progress(name, share, 6)
    decreases 6 - k
  {
    hide IsServerName, Progress, Handle, Repeats;
    if k < 6 {
      OfferedHandled(name, share, k, k + 1 == 6, isAddress);
      OfferedFolded(name, share, k + 1, isAddress);
    }
  }

  lemma OfferedParsed(name: Bytes, share: Bytes, isAddress: Bytes -> bool)
    requires |name| <= 253 && IsServerName(name, isAddress) && |share| == 65
    ensures var r := ExtensionsFrom(ExtensionBlock(Offered(name, share)), 0, NoExtensions(), isAddress);
            r.Value? && r.value == Progress(name, share, 6)
  {
    hide IsServerName, ExtensionsFrom, Fold, ExtensionBlock;
    var xs := Offered(name, share);
    var block := ExtensionBlock(xs);
    assert xs[0..] == xs && block[0..] == block;
    BlockRead(block, 0, xs, 0, NoExtensions(), isAddress);
    assert Progress(name, share, 0) == NoExtensions();
    OfferedFolded(name, share, 0, isAddress);
  }

  // ----- the whole message -----

  lemma BodyRead(random: Bytes, block: Bytes, isAddress: Bytes -> bool)
    requires |random| == 32 && |block| < 0x10000
    ensures var e := ExtensionsFrom(block, 0, NoExtensions(), isAddress);
            ParseBody(BodyBytes(random, block), isAddress)
            == if e.Reject? then Reject(e.error) else Assemble(random, [], [CHACHA20_POLY1305_SHA256], e.value)
  {
    hide ExactAt, U16At, Vector8At, Vector16At, Vector16, Vector8, U16Bytes, U16Values, ExtensionsFrom, Assemble, BodyBytes, At;
    var s := BodyBytes(random, block);
    BodyLayout(random, block);
    SmallVectors();
    ReadsU16(s, 0, LEGACY_VERSION);
    ReadsExact(s, 2, random);
    ReadsVector8(s, 34, []);
    ReadsVector16(s, 35, [0x13, 3]);
    ReadsVector8(s, 39, [0]);
    ReadsVector16(s, 41, block);
  }

  lemma BodyLayout(random: Bytes, block: Bytes)
    requires |random| == 32 && |block| < 0x10000
    ensures var s := BodyBytes(random, block);
            && At(s, 0, [3, 3]) && At(s, 2, random) && At(s, 34, [0]) && At(s, 35, [0, 2, 0x13, 3]) && At(s, 39, [1, 0])
            && At(s, 41, Vector16(block))
  {
    hide At, Vector16;
    var s := BodyBytes(random, block);
    var a, b, c, d, e := [3, 3], random, [0], [0, 2, 0x13, 3], [1, 0];
    AtWhole(s);
    AtParts(s, 0, a + b + c + d + e, Vector16(block));
    AtParts(s, 0, a + b + c + d, e);
    AtParts(s, 0, a + b + c, d);
    AtParts(s, 0, a + b, c);
    AtParts(s, 0, a, b);
  }

  lemma SmallVectors()
    ensures U16Bytes(LEGACY_VERSION) == [3, 3] && Vector8([]) == [0] && Vector16([0x13, 3]) == [0, 2, 0x13, 3]
    ensures Vector8([0]) == [1, 0] && U16Values([0x13, 3]) == [CHACHA20_POLY1305_SHA256]
  {
    var none: Bytes := [];
    var pair: Bytes := [0x13, 3];
    var nothing: seq<nat> := [];
    assert pair[2..] == none && U16Values(none) == nothing;
    assert [0] + none == [0];
  }

  lemma MessageRead(code: byte, body: Bytes)
    requires |body| < 0x1_000000
    ensures var m := MessageBytes(code, body);
            m[0] == code && U24(m[1], m[2], m[3]) == |m| - HANDSHAKE_HEADER_SIZE && m[HANDSHAKE_HEADER_SIZE..] == body
  {
  }

  // What the server makes of the hello a client builds.
  function Understood(name: Bytes, random: Bytes, share: Bytes): Hello
    requires |name| <= 253 && |share| == 65
  {
    Hello(random, [], [CHACHA20_POLY1305_SHA256], Some(Lowercase(name)), [TLS_1_3], [SECP256R1], [Share(SECP256R1, share)],
          [ECDSA_SECP256R1_SHA256], [HTTP_1_1], Offered(name, share), false)
  }

  /** Every hello the client builds is accepted, with the same random and share and the name in lower case. */
  lemma ClientHelloRoundTrip(name: Bytes, random: Bytes, share: Bytes, isAddress: Bytes -> bool)
    requires IsServerName(name, isAddress) && |random| == 32 && |share| == 65
    ensures |name| <= 253
    ensures var r := ParseClientHello(ClientHelloBytes(name, random, share), isAddress);
            r.Value? && r.value == Understood(name, random, share)
  {
    ServerNameLength(name, isAddress);
    ClientHelloRead(name, random, share, isAddress);
  }

  lemma ClientHelloRead(name: Bytes, random: Bytes, share: Bytes, isAddress: Bytes -> bool)
    requires IsServerName(name, isAddress) && |random| == 32 && |share| == 65 && |name| <= 253
    ensures var r := ParseClientHello(ClientHelloBytes(name, random, share), isAddress);
            r.Value? && r.value == Understood(name, random, share)
  {
    hide IsServerName, ParseBody, BodyBytes, ExtensionBlock, ExtensionsFrom, MessageBytes, Lowercase, Offered, CheckExtensions;
    OfferedSize(name, share);
    var block := ExtensionBlock(Offered(name, share));
    MessageRead(CLIENT_HELLO, BodyBytes(random, block));
    BodyRead(random, block, isAddress);
    OfferedParsed(name, share, isAddress);
    OfferedChecked(name, share);
    assert Offered(name, share)[..6] == Offered(name, share) by {
      OfferedCount(name, share);
    }
  }

  lemma OfferedCount(name: Bytes, share: Bytes)
    requires |name| <= 253 && |share| == 65
    ensures |Offered(name, share)| == 6
  {
  }

  lemma OfferedChecked(name: Bytes, share: Bytes)
    requires |name| <= 253 && |share| == 65
    ensures CheckExtensions(Progress(name, share, 6)) == None
  {
    hide Lowercase, Offered;
    var one := [Share(SECP256R1, share)];
    var none: seq<Share> := [];
    assert GroupIndex([SECP256R1], SECP256R1, 0) == 0;
    assert one[1..] == none;
    assert CheckShares([SECP256R1], none, Some(0)) == None;
    assert CheckShares([SECP256R1], one, None) == None;
  }

  // ----- the parser and the builder, step by step -----

  method ReadServerName(data: Bytes, isAddress: Bytes -> bool) returns (r: Outcome<Option<Bytes>>)
    ensures r.Reject? ==> r == ParseServerName(data, isAddress)
    ensures r.Value? ==> ParseServerName(data, isAddress).Value? && r.value == ParseServerName(data, isAddress).value
  {
    hide IsServerName, U8At, Vector16At, WholeVector16;
    var list := WholeVector16(data);
    if list.Reject? {
      return Reject(list.error);
    }
    if list.value == [] {
      return Reject(MalformedVector);
    }
    var reader := new HandshakeReader(list.value);
    var seen: seq<byte> := [];
    var name: Option<Bytes> := None;
    while reader.Remaining() != 0
      invariant reader.Valid()
      invariant ParseServerName(data, isAddress) == NamesFrom(list.value, reader.offset, seen, name, isAddress)
      decreases reader.Remaining()
    {
      var nameType := reader.ReadU8();
      if nameType.Reject? {
        return Reject(nameType.error);
      }
      var entry := reader.ReadVector16();
      if entry.Reject? {
        return Reject(entry.error);
      }
      if nameType.value in seen {
        return Reject(DuplicateServerName);
      }
      seen := seen + [nameType.value];
      if nameType.value == 0 {
        if !IsServerName(entry.value, isAddress) {
          return Reject(InvalidServerName);
        }
        name := Some(Lowercase(entry.value));
      }
    }
    r := Value(name, 0);
  }

  method ReadShares(data: Bytes) returns (r: Outcome<seq<Share>>)
    ensures r.Reject? ==> r == ParseShares(data)
    ensures r.Value? ==> ParseShares(data).Value? && r.value == ParseShares(data).value
  {
    hide U16At, Vector16At, WholeVector16;
    var list := WholeVector16(data);
    if list.Reject? {
      return Reject(list.error);
    }
    var reader := new HandshakeReader(list.value);
    var shares: seq<Share> := [];
    while reader.Remaining() != 0
      invariant reader.Valid() && ParseShares(data) == SharesFrom(list.value, reader.offset, shares)
      decreases reader.Remaining()
    {
      var group := reader.ReadU16();
      if group.Reject? {
        return Reject(group.error);
      }
      var keyExchange := reader.ReadVector16();
      if keyExchange.Reject? {
        return Reject(keyExchange.error);
      }
      if keyExchange.value == [] {
        return Reject(MalformedVector);
      }
      if exists k :: 0 <= k < |shares| && shares[k].group == group.value {
        return Reject(DuplicateKeyShareGroup(group.value));
      }
      shares := shares + [Share(group.value, keyExchange.value)];
    }
    r := Value(shares, 0);
  }

  // What the protocols read so far and the rest of the list make.
  function AfterProtocols(protocols: seq<Bytes>, rest: Outcome<seq<Bytes>>): Outcome<seq<Bytes>> {
    if rest.Reject? then rest else Value(protocols + rest.value, rest.next)
  }

  lemma AfterProtocolsStep(protocols: seq<Bytes>, protocol: Bytes, rest: Outcome<seq<Bytes>>)
    requires rest.Value?
    ensures AfterProtocols(protocols, Value([protocol] + rest.value, rest.next)) == AfterProtocols(protocols + [protocol], rest)
    ensures AfterProtocols([], rest) == rest
    ensures AfterProtocols(protocols, Value([], rest.next)) == Value(protocols, rest.next)
  {
    var none: seq<Bytes> := [];
    assert protocols + ([protocol] + rest.value) == protocols + [protocol] + rest.value;
    assert none + rest.value == rest.value && protocols + none == protocols;
  }

  method ReadProtocols(data: Bytes) returns (r: Outcome<seq<Bytes>>)
    ensures r.Reject? ==> r == ParseProtocols(data)
    ensures r.Value? ==> ParseProtocols(data).Value? && r.value == ParseProtocols(data).value
  {
    hide Vector8At, WholeVector16;
    var list := WholeVector16(data);
    if list.Reject? {
      return Reject(list.error);
    }
    if list.value == [] {
      return Reject(InvalidAlpn);
    }
    var reader := new HandshakeReader(list.value);
    var protocols: seq<Bytes> := [];
    ghost var whole := ProtocolsFrom(list.value, 0);
    if whole.Value? {
      AfterProtocolsStep([], [], whole);
    }
    while reader.Remaining() != 0
      invariant reader.Valid() && whole == AfterProtocols(protocols, ProtocolsFrom(list.value, reader.offset))
      decreases reader.Remaining()
    {
      var protocol := reader.ReadVector8();
      if protocol.Reject? {
        return Reject(protocol.error);
      }
      if protocol.value == [] {
        return Reject(InvalidAlpn);
      }
      ghost var rest := ProtocolsFrom(list.value, reader.offset);
      if rest.Value? {
        AfterProtocolsStep(protocols, protocol.value, rest);
      }
      protocols := protocols + [protocol.value];
    }
    AfterProtocolsStep(protocols, [], Value([], |list.value|));
    r := Value(protocols, 0);
  }

  // One extension, through the readers above.
  method ReadExtension(e: Extensions, x: RawExtension, last: bool, isAddress: Bytes -> bool) returns (r: Outcome<Extensions>)
    ensures r == Handle(e, x, last, isAddress)
  {
    hide ParseServerName, ParseShares, ParseProtocols, ParseValues8, ParseValues16;
    if x.extensionType == SERVER_NAME {
      var name := ReadServerName(x.data, isAddress);
      if name.Reject? {
        return Reject(name.error);
      }
      return Value(Extensions(name.value, e.versions, e.groups, e.algorithms, e.protocols, e.shares, e.raw + [x], e.preSharedKey), 0);
    }
    if x.extensionType == APPLICATION_PROTOCOLS {
      var protocols := ReadProtocols(x.data);
      if protocols.Reject? {
        return Reject(protocols.error);
      }
      return Value(Extensions(e.serverName, e.versions, e.groups, e.algorithms, Some(protocols.value), e.shares, e.raw + [x],
                              e.preSharedKey), 0);
    }
    if x.extensionType == KEY_SHARE {
      var shares := ReadShares(x.data);
      if shares.Reject? {
        return Reject(shares.error);
      }
      return Value(Extensions(e.serverName, e.versions, e.groups, e.algorithms, e.protocols, Some(shares.value), e.raw + [x],
                              e.preSharedKey), 0);
    }
    r := Handle(e, x, last, isAddress);
  }

  method ReadExtensions(block: Bytes, isAddress: Bytes -> bool) returns (r: Outcome<Extensions>)
    ensures SameReading(r, ExtensionsFrom(block, 0, NoExtensions(), isAddress))
  {
    hide U16At, Vector16At, Handle, Repeats;
    var reader := new HandshakeReader(block);
    var e := NoExtensions();
    while reader.Remaining() != 0
      invariant reader.Valid()
      invariant ExtensionsFrom(block, 0, NoExtensions(), isAddress) == ExtensionsFrom(block, reader.offset, e, isAddress)
      decreases reader.Remaining()
    {
      var extensionType := reader.ReadU16();
      if extensionType.Reject? {
        return Reject(extensionType.error);
      }
      var data := reader.ReadVector16();
      if data.Reject? {
        return Reject(data.error);
      }
      if Repeats(e.raw, extensionType.value) {
        return Reject(DuplicateExtension(extensionType.value));
      }
      var handled := ReadExtension(e, RawExtension(extensionType.value, data.value), reader.Remaining() == 0, isAddress);
      if handled.Reject? {
        return Reject(handled.error);
      }
      e := handled.value;
    }
    r := Value(e, 0);
  }

  method ReadClientHello(message: Bytes, isAddress: Bytes -> bool) returns (r: Outcome<Hello>)
    ensures r == ParseClientHello(message, isAddress)
  {
    hide ExactAt, U16At, Vector8At, Vector16At, ExtensionsFrom, Assemble, U16Values, U24;
    if |message| < HANDSHAKE_HEADER_SIZE {
      return Reject(Truncated);
    }
    if message[0] != CLIENT_HELLO {
      return Reject(UnexpectedHandshakeType(message[0]));
    }
    var declared := U24(message[1], message[2], message[3]);
    if declared != |message| - HANDSHAKE_HEADER_SIZE {
      return Reject(HandshakeLengthMismatch(declared, |message| - HANDSHAKE_HEADER_SIZE));
    }
    var reader := new HandshakeReader(message[HANDSHAKE_HEADER_SIZE..]);
    var version := reader.ReadU16();
    if version.Reject? {
      return Reject(version.error);
    }
    if version.value != LEGACY_VERSION {
      return Reject(InvalidLegacyVersion(version.value));
    }
    var random := reader.ReadExact(32);
    if random.Reject? {
      return Reject(random.error);
    }
    var session := reader.ReadVector8();
    if session.Reject? {
      return Reject(session.error);
    }
    if |session.value| > 32 {
      return Reject(InvalidSessionIdLength(|session.value|));
    }
    var suites := reader.ReadVector16();
    if suites.Reject? {
      return Reject(suites.error);
    }
    if |suites.value| < 2 || |suites.value| % 2 != 0 {
      return Reject(InvalidCipherSuiteVector(|suites.value|));
    }
    var compression := reader.ReadVector8();
    if compression.Reject? {
      return Reject(compression.error);
    }
    if compression.value != [0] {
      return Reject(InvalidCompressionMethods);
    }
    if reader.Remaining() == 0 {
      return Reject(MissingExtensions);
    }
    var block := reader.ReadVector16();
    if block.Reject? {
      return Reject(block.error);
    }
    var end := reader.Finish();
    if end.Reject? {
      return Reject(end.error);
    }
    var e := ReadExtensions(block.value, isAddress);
    if e.Reject? {
      return Reject(e.error);
    }
    r := Assemble(random.value, session.value, U16Values(suites.value), e.value);
  }

  method AppendExtension(output: Bytes, x: RawExtension) returns (r: Bytes)
    requires x.extensionType < 0x10000 && |x.data| < 0x10000
    ensures r == output + ExtensionBytes(x)
  {
    r := output + U16Bytes(x.extensionType);
    r := r + U16Bytes(|x.data|);
    r := r + x.data;
  }

  // The hello, appended piece by piece.
  method WriteClientHello(name: Bytes, random: Bytes, share: Bytes) returns (message: Bytes)
    requires |name| <= 253 && |random| == 32 && |share| == 65
    ensures message == ClientHelloBytes(name, random, share)
  {
    hide ExtensionBytes, ExtensionBlock, NameData, ShareData, Vector16, U24Bytes;
    var xs := Offered(name, share);
    OfferedSize(name, share);
    var extensions: Bytes := [];
    assert xs[0..] == xs;
    for k := 0 to |xs|
      invariant extensions + ExtensionBlock(xs[k..]) == ExtensionBlock(xs)
    {
      BlockFrom(xs, k);
      ghost var before := extensions;
      extensions := AppendExtension(extensions, xs[k]);
      assert before + (ExtensionBytes(xs[k]) + ExtensionBlock(xs[k + 1..])) == extensions + ExtensionBlock(xs[k + 1..]);
    }
    BlockFrom(xs, |xs|);
    assert extensions == ExtensionBlock(xs);
    var body: Bytes := [3, 3];
    body := body + random;
    body := body + [0];
    body := body + [0, 2, 0x13, 3];
    body := body + [1, 0];
    body := body + Vector16(extensions);
    message := [CLIENT_HELLO];
    message := message + U24Bytes(|body|);
    message := message + body;
  }
}
