/** The ChaCha20 stream cipher over any block function, and the
    ChaCha20-Poly1305 construction (sections 2.4 and 2.8 of RFC 8439). */
module Aead {
  import opened Words
  import opened Poly1305

  type Nonce = s: seq<byte> | |s| == 12 witness seq(12, _ => 0)
  type KeyBlock = s: seq<byte> | |s| == 64 witness seq(64, _ => 0)
  // Key, counter and nonce to one block of key stream.
  type BlockFunction = (Key, u32, Nonce) -> KeyBlock

  datatype AeadError = CounterExhausted(counter: u32, blocks: nat) | AuthenticationFailed

  const MAX_U64: int := 0xffff_ffff_ffff_ffff

  // ----- the stream cipher -----

  function BlockCount(length: nat): nat {
    (length + 63) / 64
  }

  predicate CounterCovers(counter: u32, length: nat) {
    BlockCount(length) <= 0x1_0000_0000 - counter
  }

  function StreamByte(block: BlockFunction, key: Key, counter: u32, nonce: Nonce, i: nat): byte
    requires counter + i / 64 < 0x1_0000_0000
  {
    block(key, counter + i / 64, nonce)[i % 64]
  }

  function XorStream(block: BlockFunction, key: Key, counter: u32, nonce: Nonce, input: seq<byte>): (output: seq<byte>)
    requires CounterCovers(counter, |input|)
    ensures |output| == |input|
  {
    seq(|input|, i requires 0 <= i < |input| => XorByte(input[i], StreamByte(block, key, counter, nonce, i)))
  }

  /** Encryption and decryption are the same operation. */
  lemma XorStreamInvolution(block: BlockFunction, key: Key, counter: u32, nonce: Nonce, input: seq<byte>)
    requires CounterCovers(counter, |input|)
    ensures XorStream(block, key, counter, nonce, XorStream(block, key, counter, nonce, input)) == input
  {
    var once := XorStream(block, key, counter, nonce, input);
    forall i | 0 <= i < |input| ensures XorByte(once[i], StreamByte(block, key, counter, nonce, i)) == input[i] {
      XorByteCancels(input[i], StreamByte(block, key, counter, nonce, i));
    }
  }

  method ChaCha20Xor(block: BlockFunction, key: Key, counter: u32, nonce: Nonce, input: seq<byte>)
      returns (r: Result<seq<byte>, AeadError>)
    ensures r == if CounterCovers(counter, |input|) then Ok(XorStream(block, key, counter, nonce, input))
                 else Err(CounterExhausted(counter, BlockCount(|input|)))
  {
    hide XorByte;
    var blockCount := BlockCount(|input|);
    var available := 0xffff_ffff - counter + 1;
    if blockCount > available {
      return Err(CounterExhausted(counter, blockCount));
    }
    var output := new byte[|input|](i requires 0 <= i < |input| => input[i]);
    var index := 0;
    while index < blockCount
      invariant 0 <= index <= blockCount
      invariant forall i :: 0 <= i < Min(64 * index, |input|) ==>
                  output[i] == XorByte(input[i], StreamByte(block, key, counter, nonce, i))
      invariant forall i :: Min(64 * index, |input|) <= i < |input| ==> output[i] == input[i]
    {
      var keyStream := block(key, counter + index, nonce);
      var start := 64 * index;
      var end := Min(start + 64, |input|);
      forall i | start <= i < end {
        output[i] := XorByte(output[i], keyStream[i - start]);
      }
      forall i | start <= i < end ensures output[i] == XorByte(input[i], StreamByte(block, key, counter, nonce, i)) {
        assert i / 64 == index && i % 64 == i - start;
      }
      index := index + 1;
    }
    assert output[..] == XorStream(block, key, counter, nonce, input);
    r := Ok(output[..]);
  }

  // ----- the authenticated data -----

  function Pad16(length: nat): (p: seq<byte>)
    ensures (length + |p|) % 16 == 0 && |p| < 16
  {
    seq((16 - length % 16) % 16, _ => 0)
  }

  function MacData(aad: seq<byte>, ciphertext: seq<byte>): seq<byte> {
    aad + Pad16(|aad|) + ciphertext + Pad16(|ciphertext|) + ToLE(|aad|, 8) + ToLE(|ciphertext|, 8)
  }

  lemma SplitTail(a: seq<byte>, x: seq<byte>, b: seq<byte>, y: seq<byte>)
    requires a + x == b + y && |x| == |y|
    ensures a == b && x == y
  {
    assert |a| == |b|;
    assert a == (a + x)[..|a|] && b == (b + y)[..|b|];
    assert x == (a + x)[|a|..] && y == (b + y)[|b|..];
  }

  lemma ToLEInjective(v: nat, w: nat)
    requires v <= MAX_U64 && w <= MAX_U64 && ToLE(v, 8) == ToLE(w, 8)
    ensures v == w
  {
    assert Pow256(8) == MAX_U64 + 1;
    LEOfToLE(v, 8);
    LEOfToLE(w, 8);
  }

  /** The authenticated bytes determine both inputs: no two (aad, ciphertext) pairs share them. */
  lemma MacDataInjective(a: seq<byte>, c: seq<byte>, a': seq<byte>, c': seq<byte>)
    requires |a| <= MAX_U64 && |c| <= MAX_U64 && |a'| <= MAX_U64 && |c'| <= MAX_U64
    requires MacData(a, c) == MacData(a', c')
    ensures a == a' && c == c'
  {
    hide ToLE, Pad16;
    var p, q, p', q' := Pad16(|a|), Pad16(|c|), Pad16(|a'|), Pad16(|c'|);
    SplitTail(a + p + c + q + ToLE(|a|, 8), ToLE(|c|, 8), a' + p' + c' + q' + ToLE(|a'|, 8), ToLE(|c'|, 8));
    SplitTail(a + p + c + q, ToLE(|a|, 8), a' + p' + c' + q', ToLE(|a'|, 8));
    ToLEInjective(|a|, |a'|);
    ToLEInjective(|c|, |c'|);
    SplitTail(a + p + c, q, a' + p' + c', q');
    SplitTail(a + p, c, a' + p', c');
    SplitTail(a, p, a', p');
  }

  // ----- the construction -----

  datatype Sealed = Sealed(ciphertext: seq<byte>, tag: seq<byte>)

  function OneTimeKey(block: BlockFunction, key: Key, nonce: Nonce): Key {
    block(key, 0, nonce)[..32]
  }

  function TagOf(block: BlockFunction, key: Key, nonce: Nonce, aad: seq<byte>, ciphertext: seq<byte>): (tag: seq<byte>)
    ensures |tag| == 16
  {
    TagSpec(OneTimeKey(block, key, nonce), MacData(aad, ciphertext))
  }

  function Encrypt(block: BlockFunction, key: Key, nonce: Nonce, aad: seq<byte>, plaintext: seq<byte>): Result<Sealed, AeadError> {
    if !CounterCovers(1, |plaintext|) then Err(CounterExhausted(1, BlockCount(|plaintext|)))
    else
      var ciphertext := XorStream(block, key, 1, nonce, plaintext);
      Ok(Sealed(ciphertext, TagOf(block, key, nonce, aad, ciphertext)))
  }

  function Decrypt(block: BlockFunction, key: Key, nonce: Nonce, aad: seq<byte>, ciphertext: seq<byte>, tag: seq<byte>):
    Result<seq<byte>, AeadError>
  {
    if TagOf(block, key, nonce, aad, ciphertext) != tag then Err(AuthenticationFailed)
    else if !CounterCovers(1, |ciphertext|) then Err(CounterExhausted(1, BlockCount(|ciphertext|)))
    else Ok(XorStream(block, key, 1, nonce, ciphertext))
  }

  /** Decrypting what was encrypted, under the same key, nonce and associated data, returns the plaintext. */
  lemma AeadRoundTrip(block: BlockFunction, key: Key, nonce: Nonce, aad: seq<byte>, plaintext: seq<byte>)
    requires CounterCovers(1, |plaintext|)
    ensures var e := Encrypt(block, key, nonce, aad, plaintext);
            && e.Ok? && |e.value.ciphertext| == |plaintext| && |e.value.tag| == 16
            && Decrypt(block, key, nonce, aad, e.value.ciphertext, e.value.tag) == Ok(plaintext)
  {
    XorStreamInvolution(block, key, 1, nonce, plaintext);
  }

  /** Conversely, whatever decrypts is what encrypting its plaintext produces. */
  lemma DecryptedWasEncrypted(block: BlockFunction, key: Key, nonce: Nonce, aad: seq<byte>, ciphertext: seq<byte>, tag: seq<byte>)
    requires Decrypt(block, key, nonce, aad, ciphertext, tag).Ok?
    ensures Encrypt(block, key, nonce, aad, Decrypt(block, key, nonce, aad, ciphertext, tag).value) == Ok(Sealed(ciphertext, tag))
  {
    XorStreamInvolution(block, key, 1, nonce, ciphertext);
  }

  lemma {:induction false} OrIsZero(a: nat, b: nat)
    ensures Or(a, b) == 0 <==> a == 0 && b == 0
    decreases a + b
  {
    if a != 0 && b != 0 {
      OrIsZero(a / 2, b / 2);
    }
  }

  lemma XorIsZero(a: nat, b: nat)
    ensures Xor(a, b) == 0 <==> a == b
  {
    XorCancels(a, b);
    XorCancels(0, b);
  }

  /** Comparison without early exit: every difference is folded into one byte. */
  method ConstantTimeEq(left: seq<byte>, right: seq<byte>) returns (equal: bool)
    ensures equal <==> left == right
  {
    if |left| != |right| {
      return false;
    }
    var difference: nat := 0;
    var i := 0;
    while i < |left|
      invariant 0 <= i <= |left|
      invariant difference == 0 <==> left[..i] == right[..i]
    {
      XorIsZero(left[i], right[i]);
      OrIsZero(difference, XorByte(left[i], right[i]));
      assert left[..i + 1] == left[..i] + [left[i]] && right[..i + 1] == right[..i] + [right[i]];
      difference := Or(difference, XorByte(left[i], right[i]));
      i := i + 1;
    }
    assert left[..i] == left && right[..i] == right;
    return difference == 0;
  }

  method EncryptImpl(block: BlockFunction, key: Key, nonce: Nonce, aad: seq<byte>, plaintext: seq<byte>)
      returns (r: Result<Sealed, AeadError>)
    ensures r == Encrypt(block, key, nonce, aad, plaintext)
  {
    hide XorStream, TagSpec, MacData;
    var oneTimeKey := OneTimeKey(block, key, nonce);
    var ciphertext := ChaCha20Xor(block, key, 1, nonce, plaintext);
    match ciphertext
    case Err(error) => return Err(error);
    case Ok(bytes) =>
      var tag := Authenticate(oneTimeKey, MacData(aad, bytes));
      return Ok(Sealed(bytes, tag));
  }

  method DecryptImpl(block: BlockFunction, key: Key, nonce: Nonce, aad: seq<byte>, ciphertext: seq<byte>, tag: seq<byte>)
      returns (r: Result<seq<byte>, AeadError>)
    ensures r == Decrypt(block, key, nonce, aad, ciphertext, tag)
  {
    hide XorStream, TagSpec, MacData;
    var expected := Authenticate(OneTimeKey(block, key, nonce), MacData(aad, ciphertext));
    var authenticated := ConstantTimeEq(expected, tag);
    if !authenticated {
      return Err(AuthenticationFailed);
    }
    r := ChaCha20Xor(block, key, 1, nonce, ciphertext);
  }
}
