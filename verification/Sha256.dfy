/** Streaming SHA-256, HMAC and HKDF-Expand over any compression function.
    The hasher buffers a partial block; its digest is the fold of the
    compression function over the padded message (section 5.1.1 of
    FIPS 180-4), however the message was split into updates. */
module Sha256 {
  import opened Words

  type State = s: seq<u32> | |s| == 8 witness [0, 0, 0, 0, 0, 0, 0, 0]
  type Block = s: seq<byte> | |s| == 64 witness seq(64, _ => 0)
  type Digest = s: seq<byte> | |s| == 32 witness seq(32, _ => 0)
  type Compress = (State, Block) -> State

  const BLOCK_SIZE: int := 64
  const LENGTH_OFFSET: int := 56
  const MAX_LENGTH: int := 0x1fff_ffff_ffff_ffff  // 2^64 bits, in whole bytes

  const INITIAL_STATE: State :=
    [0x6a09e667, 0xbb67ae85, 0x3c6ef372, 0xa54ff53a, 0x510e527f, 0x9b05688c, 0x1f83d9ab, 0x5be0cd19]

  // ----- the specification -----

  // Compression folded over the 64-byte blocks of data.
  function Fold(compress: Compress, state: State, data: seq<byte>): State
    requires |data| % 64 == 0
    decreases |data|
  {
    if data == [] then state else Fold(compress, compress(state, data[..64]), data[64..])
  }

  function Zeros(n: nat): (z: seq<byte>)
    ensures |z| == n
  {
    seq(n, _ => 0)
  }

  function PadZeros(length: nat): (k: nat)
    ensures (length + 1 + k + 8) % 64 == 0 && k < 64
  {
    (55 - length) % 64
  }

  // The message, a one bit, the fewest zero bits that fill up to the length field, and the bit length.
  function Pad(message: seq<byte>): (p: seq<byte>)
    ensures |p| % 64 == 0
  {
    message + [0x80] + Zeros(PadZeros(|message|)) + ToBE(8 * |message|, 8)
  }

  function WordBytes(words: seq<u32>): (b: seq<byte>)
    ensures |b| == 4 * |words|
  {
    if words == [] then [] else ToBE(words[0], 4) + WordBytes(words[1..])
  }

  function Hash(compress: Compress, message: seq<byte>): Digest {
    WordBytes(Fold(compress, INITIAL_STATE, Pad(message)))
  }

  lemma {:induction false} FoldAppend(compress: Compress, state: State, a: seq<byte>, b: seq<byte>)
    requires |a| % 64 == 0 && |b| % 64 == 0
    ensures Fold(compress, state, a + b) == Fold(compress, Fold(compress, state, a), b)
    decreases |a|
  {
    if a == [] {
      assert a + b == b;
    } else {
      assert (a + b)[..64] == a[..64] && (a + b)[64..] == a[64..] + b;
      FoldAppend(compress, compress(state, a[..64]), a[64..], b);
    }
  }

  lemma FoldBlock(compress: Compress, state: State, a: seq<byte>, block: Block)
    requires |a| % 64 == 0
    ensures Fold(compress, state, a + block) == compress(Fold(compress, state, a), block)
  {
    FoldAppend(compress, state, a, block);
    assert block[..64] == block && block[64..] == [];
  }

  // ----- the hasher -----

  // state and the buffered tail stand for the message fed so far.
  ghost predicate Holds(compress: Compress, state: State, tail: seq<byte>, message: seq<byte>) {
    && |tail| == |message| % 64
    && var done := |message| - |tail|;
       message[done..] == tail && state == Fold(compress, INITIAL_STATE, message[..done])
  }

  lemma HoldsAppend(compress: Compress, state: State, tail: seq<byte>, message: seq<byte>, more: seq<byte>)
    requires Holds(compress, state, tail, message) && |tail| + |more| < 64
    ensures Holds(compress, state, tail + more, message + more)
  {
    var done := |message| - |tail|;
    assert (message + more)[..done] == message[..done];
    assert (message + more)[done..] == tail + more;
  }

  lemma HoldsBlock(compress: Compress, state: State, tail: seq<byte>, message: seq<byte>, more: seq<byte>)
    requires Holds(compress, state, tail, message) && |tail| + |more| == 64
    ensures Holds(compress, compress(state, tail + more), [], message + more)
  {
    var done := |message| - |tail|;
    assert message + more == message[..done] + (tail + more);
    FoldBlock(compress, INITIAL_STATE, message[..done], tail + more);
    assert (message + more)[..|message + more|] == message + more;
  }

  class Hasher {
    const compress: Compress
    var state: State
    const buffer: array<byte>
    var bufferLen: nat
    var messageLen: nat
    ghost var message: seq<byte>

    ghost predicate Valid()
      reads this, buffer
    {
      && buffer.Length == 64 && bufferLen < 64 && messageLen == |message| <= MAX_LENGTH
      && Holds(compress, state, buffer[..bufferLen], message)
    }

    constructor (compress: Compress)
      ensures Valid() && fresh(buffer) && message == [] && this.compress == compress
    {
      this.compress := compress;
      state := INITIAL_STATE;
      buffer := new byte[64](_ => 0);
      bufferLen := 0;
      messageLen := 0;
      message := [];
    }

    method Update(input: seq<byte>)
      requires Valid() && |message| + |input| <= MAX_LENGTH
      modifies this, buffer
      ensures Valid() && message == old(message) + input
    {
      hide Holds;
      messageLen := messageLen + |input|;
      var rest := input;
      ghost var fed := message;
      if bufferLen != 0 {
        var available := 64 - bufferLen;
        var count := Min(available, |rest|);
        ghost var tail, piece := buffer[..bufferLen], rest[..count];
        FillBuffer(rest[..count]);
        rest := rest[count..];
        assert input == piece + rest;
        if bufferLen != 64 {
          assert rest == [] && piece == input;
          message := message + input;
          HoldsAppend(compress, state, tail, fed, piece);
          return;
        }
        HoldsBlock(compress, state, tail, fed, piece);
        assert buffer[..64] == buffer[..];
        state := compress(state, buffer[..]);
        bufferLen := 0;
        fed := fed + piece;
      } else {
        assert buffer[..bufferLen] == [];
      }
      assert fed + rest == message + input;
      rest, fed := CompressBlocks(rest, fed);
      assert buffer[..bufferLen] == [];
      FillBuffer(rest);
      HoldsAppend(compress, state, [], fed, rest);
      message := message + input;
    }

    // Compresses the whole blocks of input straight from it, and returns what is left over.
    method CompressBlocks(input: seq<byte>, ghost fed: seq<byte>) returns (rest: seq<byte>, ghost fed': seq<byte>)
      requires Holds(compress, state, [], fed)
      modifies `state
      ensures Holds(compress, state, [], fed') && |rest| < 64 && fed' + rest == fed + input
    {
      hide Holds;
      rest, fed' := input, fed;
      while |rest| >= 64
        invariant fed' + rest == fed + input && Holds(compress, state, [], fed')
        decreases |rest|
      {
        HoldsBlock(compress, state, [], fed', rest[..64]);
        assert [] + rest[..64] == rest[..64];
        state := compress(state, rest[..64]);
        fed' := fed' + rest[..64];
        assert rest == rest[..64] + rest[64..];
        rest := rest[64..];
      }
    }

    // Copies bytes in after those already buffered.
    method FillBuffer(piece: seq<byte>)
      requires bufferLen + |piece| <= buffer.Length
      modifies `bufferLen, buffer
      ensures bufferLen == old(bufferLen) + |piece|
      ensures buffer[..bufferLen] == old(buffer[..bufferLen]) + piece
    {
      forall i | bufferLen <= i < bufferLen + |piece| {
        buffer[i] := piece[i - bufferLen];
      }
      bufferLen := bufferLen + |piece|;
    }

    // Consumes the hasher: afterwards the object holds no message.
    method Finalize() returns (digest: Digest)
      requires Valid()
      modifies this, buffer
      ensures digest == Hash(compress, old(message))
    {
      hide Fold, ToBE, WordBytes;
      var bits: u64 := messageLen * 8;
      ghost var done := message[..|message| - bufferLen];
      ghost var tail := buffer[..bufferLen];
      ghost var len := bufferLen;
      assert message == done + tail;
      buffer[bufferLen] := 0x80;
      bufferLen := bufferLen + 1;
      assert buffer[..bufferLen] == tail + [0x80];
      ghost var first: seq<byte> := [];
      if bufferLen > LENGTH_OFFSET {
        forall i | bufferLen <= i < 64 {
          buffer[i] := 0;
        }
        first := buffer[..];
        assert first == tail + [0x80] + Zeros(63 - len);
        FoldBlock(compress, INITIAL_STATE, done, first);
        state := compress(state, buffer[..]);
        forall i | 0 <= i < 64 {
          buffer[i] := 0;
        }
        bufferLen := 0;
      } else {
        assert done + first == done;
      }
      ghost var kept := buffer[..bufferLen];
      forall i | bufferLen <= i < LENGTH_OFFSET {
        buffer[i] := 0;
      }
      var length := ToBE(bits, 8);
      forall i | LENGTH_OFFSET <= i < 64 {
        buffer[i] := length[i - LENGTH_OFFSET];
      }
      ghost var last := buffer[..];
      assert last == kept + Zeros(56 - |kept|) + length;
      PaddedBlocks(message, done, tail, first, last);
      FoldBlock(compress, INITIAL_STATE, done + first, last);
      state := compress(state, buffer[..]);
      digest := WordBytes(state);
    }
  }

  lemma Regroup(d: seq<byte>, t: seq<byte>, m: seq<byte>, y: seq<byte>, z: seq<byte>, l: seq<byte>)
    ensures d + (t + m + y) + (z + l) == (d + t) + m + (y + z) + l
  {
    assert (t + m + y) + (z + l) == t + (m + (y + z) + l);
    assert d + (t + (m + (y + z) + l)) == (d + t) + (m + (y + z) + l);
  }

  lemma RegroupShort(d: seq<byte>, t: seq<byte>, m: seq<byte>, z: seq<byte>, l: seq<byte>)
    ensures d + (t + m + z + l) == (d + t) + m + z + l
  {
  }

  lemma ZerosAdd(m: nat, n: nat)
    ensures Zeros(m) + Zeros(n) == Zeros(m + n)
  {
  }

  lemma PadCount(done: nat, tail: nat)
    requires done % 64 == 0 && tail < 64
    ensures PadZeros(done + tail) == if tail >= 56 then 63 - tail + 56 else 55 - tail
  {
  }

  lemma PadIs(message: seq<byte>, k: nat)
    requires k == PadZeros(|message|)
    ensures Pad(message) == message + [0x80] + Zeros(k) + ToBE(8 * |message|, 8)
  {
    hide ToBE;
  }

  // The blocks that finishing produces are the padding of the message.
  lemma PaddedBlocks(message: seq<byte>, done: seq<byte>, tail: seq<byte>, first: seq<byte>, last: seq<byte>)
    requires |done| % 64 == 0 && |tail| < 64 && message == done + tail
    requires if |tail| >= 56 then first == tail + [0x80] + Zeros(63 - |tail|) && last == Zeros(56) + ToBE(8 * |message|, 8)
             else first == [] && last == tail + [0x80] + Zeros(55 - |tail|) + ToBE(8 * |message|, 8)
    ensures done + first + last == Pad(message)
  {
    hide Zeros, ToBE, PadZeros, Pad;
    PadCount(|done|, |tail|);
    PadIs(message, if |tail| >= 56 then 63 - |tail| + 56 else 55 - |tail|);
    var length := ToBE(8 * |message|, 8);
    if |tail| >= 56 {
      ZerosAdd(63 - |tail|, 56);
      Regroup(done, tail, [0x80], Zeros(63 - |tail|), Zeros(56), length);
    } else {
      assert done + first == done;
      RegroupShort(done, tail, [0x80], Zeros(55 - |tail|), length);
    }
  }

  // ----- many updates -----

  function Concat(parts: seq<seq<byte>>): (c: seq<byte>) {
    if parts == [] then [] else Concat(parts[..|parts| - 1]) + parts[|parts| - 1]
  }

  /** Every way of splitting a message into updates gives the digest of the message. */
  method HashParts(compress: Compress, parts: seq<seq<byte>>) returns (digest: Digest)
    requires |Concat(parts)| <= MAX_LENGTH
    ensures digest == Hash(compress, Concat(parts))
  {
    hide Hash, Holds, Concat;
    var hasher := new Hasher(compress);
    UpdateAll(hasher, parts);
    assert [] + Concat(parts) == Concat(parts);
    digest := hasher.Finalize();
  }

  lemma {:induction false} ConcatPrefix(parts: seq<seq<byte>>, i: nat)
    requires i <= |parts|
    ensures |Concat(parts[..i])| <= |Concat(parts)|
    ensures i < |parts| ==> Concat(parts[..i + 1]) == Concat(parts[..i]) + parts[i]
    decreases |parts| - i
  {
    if i == |parts| {
      assert parts[..i] == parts;
    } else {
      assert parts[..i + 1][..i] == parts[..i];
      ConcatPrefix(parts, i + 1);
    }
  }

  lemma ConcatNone(parts: seq<seq<byte>>)
    ensures Concat(parts[..0]) == []
  {
  }

  method UpdateAll(hasher: Hasher, parts: seq<seq<byte>>)
    requires hasher.Valid() && |hasher.message| + |Concat(parts)| <= MAX_LENGTH
    modifies hasher, hasher.buffer
    ensures hasher.Valid() && hasher.message == old(hasher.message) + Concat(parts)
  {
    hide Concat, Holds;
    var i := 0;
    ConcatNone(parts);
    while i < |parts|
      invariant 0 <= i <= |parts| && hasher.Valid()
      invariant hasher.message == old(hasher.message) + Concat(parts[..i])
    {
      ConcatPrefix(parts, i);
      ConcatPrefix(parts, i + 1);
      hasher.Update(parts[i]);
      i := i + 1;
    }
    assert parts[..i] == parts;
  }

  // ----- HMAC -----

  function KeyBlock(compress: Compress, key: seq<byte>): (b: Block)
  {
    if |key| > 64 then Hash(compress, key) + Zeros(32) else key + Zeros(64 - |key|)
  }

  function XorAll(s: seq<byte>, b: byte): (r: seq<byte>)
    ensures |r| == |s|
  {
    seq(|s|, i requires 0 <= i < |s| => XorByte(s[i], b))
  }

  // H((K xor opad) || H((K xor ipad) || data)), as in RFC 2104.
  function Hmac(compress: Compress, key: seq<byte>, data: seq<byte>): Digest {
    var block := KeyBlock(compress, key);
    Hash(compress, XorAll(block, 0x5c) + Hash(compress, XorAll(block, 0x36) + data))
  }

  method XorInPlace(pad: array<byte>, b: byte)
    modifies pad
    ensures pad[..] == XorAll(old(pad[..]), b)
  {
    var i := 0;
    while i < pad.Length
      invariant 0 <= i <= pad.Length
      invariant forall k :: 0 <= k < i ==> pad[k] == XorByte(old(pad[k]), b)
      invariant forall k :: i <= k < pad.Length ==> pad[k] == old(pad[k])
    {
      pad[i] := XorByte(pad[i], b);
      i := i + 1;
    }
  }

  method MakePad(block: Block, b: byte) returns (pad: array<byte>)
    ensures fresh(pad) && pad[..] == XorAll(block, b)
  {
    hide XorAll;
    pad := new byte[64](i requires 0 <= i < 64 => block[i]);
    assert pad[..] == block;
    XorInPlace(pad, b);
  }

  method PrepareKey(compress: Compress, key: seq<byte>) returns (block: Block)
    requires |key| <= MAX_LENGTH
    ensures block == KeyBlock(compress, key)
  {
    hide Hash, Holds;
    if |key| > BLOCK_SIZE {
      var hasher := new Hasher(compress);
      hasher.Update(key);
      assert [] + key == key;
      var hashed := hasher.Finalize();
      block := hashed + Zeros(32);
    } else {
      block := key + Zeros(64 - |key|);
    }
  }

  /** HMAC over parts is HMAC over their concatenation. */
  method HmacParts(compress: Compress, key: seq<byte>, parts: seq<seq<byte>>) returns (tag: Digest)
    requires |key| <= MAX_LENGTH && 64 + |Concat(parts)| <= MAX_LENGTH
    ensures tag == Hmac(compress, key, Concat(parts))
  {
    hide Hash, Holds, Concat, XorAll, KeyBlock;
    var block := PrepareKey(compress, key);
    var innerPad := MakePad(block, 0x36);
    var outerPad := MakePad(block, 0x5c);
    var inner := new Hasher(compress);
    inner.Update(innerPad[..]);
    UpdateAll(inner, parts);
    assert inner.message == XorAll(block, 0x36) + Concat(parts);
    var innerDigest := inner.Finalize();
    var outer := new Hasher(compress);
    outer.Update(outerPad[..]);
    outer.Update(innerDigest);
    assert outer.message == XorAll(block, 0x5c) + innerDigest;
    tag := outer.Finalize();
  }

  // ----- HKDF-Expand -----

  const MAX_OUTPUT: int := 8160

  datatype HkdfError = PrkTooShort(length: nat) | OutputTooLong(length: nat)

  // T(1) || ... || T(n), where T(i) is the HMAC of T(i-1) || info || i.
  function Blocks(compress: Compress, prk: seq<byte>, info: seq<byte>, n: nat): (t: seq<byte>)
    requires n <= 255
    ensures |t| == 32 * n
  {
    if n == 0 then []
    else
      var before := Blocks(compress, prk, info, n - 1);
      before + Hmac(compress, prk, (if n == 1 then [] else before[32 * (n - 2)..]) + info + [n])
  }

  lemma {:induction false} BlocksPrefix(compress: Compress, prk: seq<byte>, info: seq<byte>, m: nat, n: nat)
    requires m <= n <= 255
    ensures Blocks(compress, prk, info, m) == Blocks(compress, prk, info, n)[..32 * m]
  {
    hide Hmac;
    if m < n {
      BlocksPrefix(compress, prk, info, m, n - 1);
    } else {
      assert Blocks(compress, prk, info, m)[..32 * m] == Blocks(compress, prk, info, m);
    }
  }

  function Expand(compress: Compress, prk: seq<byte>, info: seq<byte>, length: nat): Result<seq<byte>, HkdfError> {
    if |prk| < 32 then Err(PrkTooShort(|prk|))
    else if length > MAX_OUTPUT then Err(OutputTooLong(length))
    else Ok(Blocks(compress, prk, info, (length + 31) / 32)[..length])
  }

  // Asking for less returns a prefix of what asking for more returns.
  lemma ExpandPrefix(compress: Compress, prk: seq<byte>, info: seq<byte>, shorter: nat, longer: nat)
    requires |prk| >= 32 && shorter <= longer <= MAX_OUTPUT
    ensures Expand(compress, prk, info, shorter).Ok? && Expand(compress, prk, info, longer).Ok?
    ensures Expand(compress, prk, info, shorter).value == Expand(compress, prk, info, longer).value[..shorter]
  {
    hide Blocks;
    BlocksPrefix(compress, prk, info, (shorter + 31) / 32, (longer + 31) / 32);
  }

  method HkdfExpand(compress: Compress, prk: seq<byte>, info: seq<byte>, length: nat) returns (r: Result<seq<byte>, HkdfError>)
    requires |prk| <= MAX_LENGTH && |info| + 97 <= MAX_LENGTH
    ensures r == Expand(compress, prk, info, length)
  {
    hide Hmac, Concat, Blocks;
    if |prk| < 32 {
      return Err(PrkTooShort(|prk|));
    }
    if length > MAX_OUTPUT {
      return Err(OutputTooLong(length));
    }
    var blockCount := (length + 31) / 32;
    var output: seq<byte> := [];
    var previous: seq<byte> := [];
    var index := 1;
    while index <= blockCount
      invariant 1 <= index <= blockCount + 1
      invariant output == Blocks(compress, prk, info, index - 1)[..Min(32 * (index - 1), length)]
      invariant previous == LastBlock(compress, prk, info, index - 1)
    {
      var counter: byte := index;
      ghost var before := Blocks(compress, prk, info, index - 1);
      var parts := if index == 1 then [info, [counter]] else [previous, info, [counter]];
      ConcatPieces(previous, info, [counter]);
      assert [] + info == info;
      var next := HmacParts(compress, prk, parts);
      BlocksNext(compress, prk, info, index);
      previous := next;
      var count := Min(length - |output|, 32);
      output := output + previous[..count];
      index := index + 1;
    }
    r := Ok(output);
  }

  function LastBlock(compress: Compress, prk: seq<byte>, info: seq<byte>, n: nat): (t: seq<byte>)
    requires n <= 255
    ensures |t| <= 32
  {
    if n == 0 then [] else Blocks(compress, prk, info, n)[32 * (n - 1)..]
  }

  lemma BlocksNext(compress: Compress, prk: seq<byte>, info: seq<byte>, n: nat)
    requires 1 <= n <= 255
    ensures var next := Hmac(compress, prk, LastBlock(compress, prk, info, n - 1) + info + [n]);
            && Blocks(compress, prk, info, n) == Blocks(compress, prk, info, n - 1) + next
            && LastBlock(compress, prk, info, n) == next
  {
    hide Hmac;
  }

  lemma ConcatSnoc(parts: seq<seq<byte>>, last: seq<byte>)
    ensures Concat(parts + [last]) == Concat(parts) + last
  {
    assert (parts + [last])[..|parts|] == parts;
  }

  lemma ConcatPieces(a: seq<byte>, b: seq<byte>, c: seq<byte>)
    ensures Concat([b, c]) == b + c && Concat([a, b, c]) == a + b + c
  {
    assert Concat([]) == [];
    hide Concat;
    ConcatSnoc([], b);
    ConcatSnoc([b], c);
    ConcatSnoc([], a);
    ConcatSnoc([a], b);
    ConcatSnoc([a, b], c);
    assert [] + [b] == [b] && [b] + [c] == [b, c];
    assert [] + [a] == [a] && [a] + [b] == [a, b] && [a, b] + [c] == [a, b, c];
  }
}
