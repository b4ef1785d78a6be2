/** The cursor that handshake messages are read with: integers and
    length-prefixed vectors (section 3.4 of RFC 8446). */
module HandshakeReading {
  import opened Words
  import opened TlsRecords

  type Bytes = seq<byte>

  datatype HandshakeError =
    | Truncated | MalformedVector | UnexpectedHandshakeType(code: byte) | HandshakeLengthMismatch(declared: nat, actual: nat)
    | InvalidLegacyVersion(version: nat) | InvalidSessionIdLength(length: nat) | InvalidCipherSuiteVector(length: nat)
    | InvalidCompressionMethods | MissingExtensions | DuplicateExtension(extensionType: nat) | PreSharedKeyNotLast
    | MissingRequiredExtension(extensionType: nat) | Tls13Required | InvalidAlpn | DuplicateServerName | InvalidServerName
    | DuplicateKeyShareGroup(group: nat) | KeyShareGroupNotOffered(group: nat) | KeyShareOrderMismatch
    | HelloRetryRequestUnsupported | UnsupportedCipherSuite(suite: nat) | InvalidCompressionMethod(code: byte)
    | UnexpectedServerHelloExtension(extensionType: nat) | InvalidSelectedVersion(version: nat)
    | InvalidServerKeyShareGroup(group: nat)

  /** What is read and where the reading stopped. */
  datatype Outcome<+T> = Value(value: T, next: nat) | Reject(error: HandshakeError) {
    predicate IsFailure() {
      Reject?
    }

    function PropagateFailure<U>(): Outcome<U>
      requires Reject?
    {
      Reject(error)
    }

    function Extract(): Outcome<T>
      requires Value?
    {
      this
    }
  }

  // ----- what stands at a position -----

  function ExactAt(s: Bytes, i: nat, length: nat): (r: Outcome<Bytes>)
    ensures r.Value? ==> r.next == i + length <= |s| && |r.value| == length
  {
    if i + length > |s| then Reject(Truncated) else Value(s[i..i + length], i + length)
  }

  function U8At(s: Bytes, i: nat): (r: Outcome<byte>)
    ensures r.Value? ==> r.next == i + 1 <= |s|
  {
    var bytes :- ExactAt(s, i, 1);
    Value(bytes.value[0], bytes.next)
  }

  function U16At(s: Bytes, i: nat): (r: Outcome<nat>)
    ensures r.Value? ==> r.next == i + 2 <= |s|
  {
    var bytes :- ExactAt(s, i, 2);
    Value(U16(bytes.value[0], bytes.value[1]), bytes.next)
  }

  function Vector8At(s: Bytes, i: nat): (r: Outcome<Bytes>)
    ensures r.Value? ==> i + 1 <= r.next <= |s|
  {
    var length :- U8At(s, i);
    var data := ExactAt(s, length.next, length.value);
    if data.Reject? then Reject(MalformedVector) else data
  }

  function Vector16At(s: Bytes, i: nat): (r: Outcome<Bytes>)
    ensures r.Value? ==> i + 2 <= r.next <= |s|
  {
    var length :- U16At(s, i);
    var data := ExactAt(s, length.next, length.value);
    if data.Reject? then Reject(MalformedVector) else data
  }

  // A vector that makes up all of s.
  function WholeVector8(s: Bytes): Outcome<Bytes> {
    var data :- Vector8At(s, 0);
    if data.next != |s| then Reject(MalformedVector) else data
  }

  function WholeVector16(s: Bytes): Outcome<Bytes> {
    var data :- Vector16At(s, 0);
    if data.next != |s| then Reject(MalformedVector) else data
  }

  // ----- what is written reads back -----

  lemma ReadsExact(s: Bytes, i: nat, piece: Bytes)
    requires At(s, i, piece)
    ensures ExactAt(s, i, |piece|) == Value(piece, i + |piece|)
  {
  }

  lemma ReadsU8(s: Bytes, i: nat, v: byte)
    requires At(s, i, [v])
    ensures U8At(s, i) == Value(v, i + 1)
  {
    ReadsExact(s, i, [v]);
  }

  lemma ReadsU16(s: Bytes, i: nat, v: nat)
    requires v < 0x10000 && At(s, i, U16Bytes(v))
    ensures U16At(s, i) == Value(v, i + 2)
  {
    ReadsExact(s, i, U16Bytes(v));
  }

  function Vector8(data: Bytes): Bytes
    requires |data| < 0x100
  {
    [|data|] + data
  }

  function Vector16(data: Bytes): (r: Bytes)
    requires |data| < 0x10000
    ensures |r| == |data| + 2
  {
    U16Bytes(|data|) + data
  }

  lemma ReadsVector8(s: Bytes, i: nat, data: Bytes)
    requires |data| < 0x100 && At(s, i, Vector8(data))
    ensures Vector8At(s, i) == Value(data, i + |data| + 1)
  {
    hide ExactAt, U8At;
    AtParts(s, i, [|data|], data);
    ReadsU8(s, i, |data|);
    ReadsExact(s, i + 1, data);
  }

  lemma ReadsVector16(s: Bytes, i: nat, data: Bytes)
    requires |data| < 0x10000 && At(s, i, Vector16(data))
    ensures Vector16At(s, i) == Value(data, i + |data| + 2)
  {
    hide ExactAt, U16At, U16Bytes;
    AtParts(s, i, U16Bytes(|data|), data);
    ReadsU16(s, i, |data|);
    ReadsExact(s, i + 2, data);
  }

  lemma AtWhole(s: Bytes)
    ensures At(s, 0, s)
  {
  }

  lemma ReadsWhole(data: Bytes)
    ensures |data| < 0x100 ==> WholeVector8(Vector8(data)) == Value(data, |data| + 1)
    ensures |data| < 0x10000 ==> WholeVector16(Vector16(data)) == Value(data, |data| + 2)
  {
    hide Vector8At, Vector16At;
    if |data| < 0x100 {
      AtWhole(Vector8(data));
      ReadsVector8(Vector8(data), 0, data);
    }
    if |data| < 0x10000 {
      AtWhole(Vector16(data));
      ReadsVector16(Vector16(data), 0, data);
    }
  }

  /** Whatever vector is accepted is the encoding of what it is read as. */
  lemma Vector16Canonical(s: Bytes, i: nat)
    requires Vector16At(s, i).Value?
    ensures var r := Vector16At(s, i);
            |r.value| < 0x10000 && At(s, i, Vector16(r.value)) && r.next == i + |Vector16(r.value)|
  {
    var data := Vector16At(s, i).value;
    assert U16Bytes(U16(s[i], s[i + 1])) == [s[i], s[i + 1]];
    AtParts(s, i, U16Bytes(|data|), data);
  }

  // ----- the cursor -----

  class HandshakeReader {
    const input: Bytes
    var offset: nat

    ghost predicate Valid()
      reads this
    {
      offset <= |input|
    }

    constructor (input: Bytes)
      ensures Valid() && this.input == input && offset == 0
    {
      this.input := input;
      offset := 0;
    }

    function Remaining(): nat
      requires Valid()
      reads this
    {
      |input| - offset
    }

    method ReadExact(length: nat) returns (r: Outcome<Bytes>)
      requires Valid()
      modifies this
      ensures Valid() && r == ExactAt(input, old(offset), length)
      ensures offset == if r.Value? then r.next else old(offset)
    {
      if offset + length > |input| {
        return Reject(Truncated);
      }
      r := Value(input[offset..offset + length], offset + length);
      offset := offset + length;
    }

    method ReadU8() returns (r: Outcome<byte>)
      requires Valid()
      modifies this
      ensures Valid() && r == U8At(input, old(offset)) && (r.Value? ==> offset == r.next)
    {
      var bytes := ReadExact(1);
      if bytes.Reject? {
        return Reject(bytes.error);
      }
      r := Value(bytes.value[0], offset);
    }

    method ReadU16() returns (r: Outcome<nat>)
      requires Valid()
      modifies this
      ensures Valid() && r == U16At(input, old(offset)) && (r.Value? ==> offset == r.next)
    {
      var bytes := ReadExact(2);
      if bytes.Reject? {
        return Reject(bytes.error);
      }
      r := Value(U16(bytes.value[0], bytes.value[1]), offset);
    }

    method ReadVector8() returns (r: Outcome<Bytes>)
      requires Valid()
      modifies this
      ensures Valid() && r == Vector8At(input, old(offset)) && (r.Value? ==> offset == r.next)
    {
      var length := ReadU8();
      if length.Reject? {
        return Reject(length.error);
      }
      r := ReadExact(length.value);
      if r.Reject? {
        return Reject(MalformedVector);
      }
    }

    method ReadVector16() returns (r: Outcome<Bytes>)
      requires Valid()
      modifies this
      ensures Valid() && r == Vector16At(input, old(offset)) && (r.Value? ==> offset == r.next)
    {
      var length := ReadU16();
      if length.Reject? {
        return Reject(length.error);
      }
      r := ReadExact(length.value);
      if r.Reject? {
        return Reject(MalformedVector);
      }
    }

    method Finish() returns (r: Outcome<()>)
      requires Valid()
      ensures r == if offset == |input| then Value((), offset) else Reject(MalformedVector)
    {
      r := if Remaining() == 0 then Value((), offset) else Reject(MalformedVector);
    }
  }
}
