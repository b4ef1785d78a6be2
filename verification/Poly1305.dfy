/** The Poly1305 authenticator in five 26-bit limbs with delayed carries,
    proved equal to polynomial evaluation modulo 2^130 - 5 (section 2.5 of
    RFC 8439). Variables declared u64 carry the no-overflow obligations. */
module Poly1305 {
  import opened Words
  import opened NumberTheory

  const LIMB_BASE: int := 0x400_0000
  const WORD: int := 0x1_0000_0000
  const TWO_TO_128: int := 0x1_00000000_00000000_00000000_00000000
  const MASK: int := 0x3ff_ffff
  const PRIME: int := 0x3_ffffffff_ffffffff_ffffffff_fffffffb
  const BLOCK_SIZE: int := 16

  type Key = s: seq<byte> | |s| == 32 witness seq(32, _ => 0)

  // ----- the specification -----

  function ClampByte(index: nat, b: byte): byte {
    if index % 4 == 3 then b % 16 else if index % 4 == 0 && index > 0 then b / 4 * 4 else b
  }

  function Clamp(r: seq<byte>): (c: seq<byte>)
    ensures |c| == |r|
  {
    seq(|r|, i requires 0 <= i < |r| => ClampByte(i, r[i]))
  }

  function Chunk(message: seq<byte>): (c: seq<byte>)
    ensures |c| <= 16 && (message != [] ==> c != [])
  {
    if |message| < 16 then message else message[..16]
  }

  function Rest(message: seq<byte>): (r: seq<byte>)
    ensures message != [] ==> |r| < |message|
    ensures Chunk(message) + r == message
  {
    if |message| < 16 then [] else message[16..]
  }

  // A block as a number, with the marker bit above its last byte.
  function BlockValue(chunk: seq<byte>): nat {
    LE(chunk + [1])
  }

  function Accumulate(r: nat, message: seq<byte>, a: int): int
    decreases |message|
  {
    if message == [] then a
    else Accumulate(r, Rest(message), ((a + BlockValue(Chunk(message))) * r) % PRIME)
  }

  function TagSpec(key: Key, message: seq<byte>): seq<byte> {
    ToLE((Accumulate(LE(Clamp(key[..16])), message, 0) + LE(key[16..])) % Pow256(16), 16)
  }

  // The polynomial c_1 r^q + c_2 r^(q-1) + ... + c_q r of a message of q blocks.
  function Blocks(message: seq<byte>): nat
    decreases |message|
  {
    if message == [] then 0 else 1 + Blocks(Rest(message))
  }

  function Polynomial(r: nat, message: seq<byte>): int
    decreases |message|
  {
    if message == [] then 0
    else BlockValue(Chunk(message)) * Pow(r, Blocks(message)) + Polynomial(r, Rest(message))
  }

  /** The accumulator is the message polynomial at r, modulo 2^130 - 5. */
  lemma {:induction false} AccumulateIsPolynomial(r: nat, message: seq<byte>, a: int)
    requires a % PRIME == a
    ensures Accumulate(r, message, a) == (a * Pow(r, Blocks(message)) + Polynomial(r, message)) % PRIME
    decreases |message|
  {
    if message == [] {
      assert Pow(r, 0) == 1 && a * 1 + 0 == a;
    } else {
      var c, rest := BlockValue(Chunk(message)), Rest(message);
      var w := Pow(r, Blocks(rest));
      var a' := ((a + c) * r) % PRIME;
      ModIdempotent((a + c) * r, PRIME);
      AccumulateIsPolynomial(r, rest, a');
      ModMulCong(a', (a + c) * r, w, w, PRIME);
      ModAddCong(a' * w, (a + c) * r * w, Polynomial(r, rest), Polynomial(r, rest), PRIME);
      HornerStep(a, c, r, w);
    }
  }

  lemma HornerStep(a: int, c: int, r: int, w: int)
    ensures (a + c) * r * w == a * (r * w) + c * (r * w)
  {
    assert (a + c) * r * w == (a + c) * (r * w);
  }

  // ----- little-endian words -----

  lemma {:induction false} LEAppend(s: seq<byte>, t: seq<byte>)
    ensures LE(s + t) == LE(s) + Pow256(|s|) * LE(t)
  {
    if s == [] {
      assert s + t == t;
    } else {
      LEAppend(s[1..], t);
      assert (s + t)[1..] == s[1..] + t;
      assert 256 * (Pow256(|s| - 1) * LE(t)) == Pow256(|s|) * LE(t);
    }
  }

  lemma {:induction false} LEZeros(s: seq<byte>)
    requires forall i :: 0 <= i < |s| ==> s[i] == 0
    ensures LE(s) == 0
  {
    if s != [] {
      LEZeros(s[1..]);
    }
  }

  function Word(a: int, b: int, c: int, d: int): int {
    a + 0x100 * b + 0x1_0000 * c + 0x100_0000 * d
  }

  lemma LE4(s: seq<byte>)
    requires |s| == 4
    ensures LE(s) == Word(s[0], s[1], s[2], s[3])
  {
    var t1, t2, t3 := s[1..], s[1..][1..], s[1..][1..][1..];
    assert LE(t3) == t3[0] + 256 * LE(t3[1..]) && t3[1..] == [];
    assert LE(t2) == t2[0] + 256 * LE(t3);
    assert LE(t1) == t1[0] + 256 * LE(t2);
  }

  lemma Pow256Values()
    ensures Pow256(4) == 0x1_0000_0000 && Pow256(16) == 0x1_00000000_00000000_00000000_00000000
  {
    assert Pow256(8) == 0x1_00000000_00000000;
    assert Pow256(12) == 0x1_0000_0000 * Pow256(8);
    assert Pow256(16) == 0x1_0000_0000 * Pow256(12);
  }

  lemma LE16(s: seq<byte>)
    requires |s| == 16
    ensures LE(s) == LE(s[0..4]) + 0x1_00000000 * LE(s[4..8]) + 0x1_00000000_00000000 * LE(s[8..12])
                     + 0x1_00000000_00000000_00000000 * LE(s[12..16])
  {
    hide LE, Pow256;
    Pow256Values();
    LESplit4(s);
    LESplit4(s[4..]);
    LESplit4(s[8..]);
    assert s[4..][..4] == s[4..8] && s[4..][4..] == s[8..];
    assert s[8..][..4] == s[8..12] && s[8..][4..] == s[12..16];
  }

  lemma LESplit4(s: seq<byte>)
    requires |s| >= 4
    ensures LE(s) == LE(s[..4]) + 0x1_00000000 * LE(s[4..])
  {
    hide LE, Pow256;
    Pow256Values();
    LEAppend(s[..4], s[4..]);
    assert s == s[..4] + s[4..];
  }

  // The low 26 bits.
  function Low26(x: nat): (r: nat)
    ensures r == x % LIMB_BASE
  {
    Pow2Values();
    AndMask(x, 26);
    And(x, MASK)
  }

  function Low32(x: nat): (r: nat)
    ensures r == x % 0x1_0000_0000
  {
    Pow2Values();
    AndMask(x, 32);
    And(x, 0xffff_ffff)
  }

  lemma Pow2Values()
    ensures Pow2(8) == 0x100 && Pow2(14) == 0x4000 && Pow2(20) == 0x10_0000 && Pow2(24) == 0x100_0000
    ensures Pow2(26) == LIMB_BASE && Pow2(32) == 0x1_0000_0000 && Pow2(64) == 0x1_0000_0000_0000_0000
  {
    assert Pow2(8) == 0x100;
    assert Pow2(14) == 0x40 * Pow2(8);
    assert Pow2(20) == 0x40 * Pow2(14);
    assert Pow2(24) == 0x10 * Pow2(20);
    assert Pow2(26) == 4 * Pow2(24);
    assert Pow2(32) == 0x40 * Pow2(26);
    hide Pow2;
    Pow2Adds(32, 32);
  }

  // ----- splitting sixteen bytes into 26-bit limbs -----

  function Value(h0: int, h1: int, h2: int, h3: int, h4: int): int {
    h0 + 0x400_0000 * h1 + 0x10_0000_0000_0000 * h2 + 0x4000_0000_0000_0000_0000 * h3
    + 0x100_0000_0000_0000_0000_0000_0000 * h4
  }

  function Limb0(s: seq<byte>): nat requires |s| == 16 { Low26(LE(s[0..4])) }
  function Limb1(s: seq<byte>): nat requires |s| == 16 { Low26(LE(s[3..7]) / 4) }
  function Limb2(s: seq<byte>): nat requires |s| == 16 { Low26(LE(s[6..10]) / 16) }
  function Limb3(s: seq<byte>): nat requires |s| == 16 { Low26(LE(s[9..13]) / 64) }
  function Limb4(s: seq<byte>): nat requires |s| == 16 { LE(s[12..16]) / 256 }

  // Bits of a word above a cut, up to 26 of them: the low bits of the last byte come along.
  lemma SplitWord1(a: int, b: int, c: int, d: int)
    requires 0 <= a < 256 && 0 <= b < 256 && 0 <= c < 256 && 0 <= d < 256
    ensures Word(a, b, c, d) / 1 % LIMB_BASE == a / 1 + 256 * b + 65536 * c + 16777216 * (d % 4)
  {
    var low := a / 1 + 256 * b + 65536 * c;
    DivModUnique(low + 16777216 * d, a % 1, 1);
    DivModUnique(d / 4, low + 16777216 * (d % 4), LIMB_BASE);
  }

  lemma SplitWord4(a: int, b: int, c: int, d: int)
    requires 0 <= a < 256 && 0 <= b < 256 && 0 <= c < 256 && 0 <= d < 256
    ensures Word(a, b, c, d) / 4 % LIMB_BASE == a / 4 + 64 * b + 16384 * c + 4194304 * (d % 16)
  {
    var low := a / 4 + 64 * b + 16384 * c;
    DivModUnique(low + 4194304 * d, a % 4, 4);
    DivModUnique(d / 16, low + 4194304 * (d % 16), LIMB_BASE);
  }

  lemma SplitWord16(a: int, b: int, c: int, d: int)
    requires 0 <= a < 256 && 0 <= b < 256 && 0 <= c < 256 && 0 <= d < 256
    ensures Word(a, b, c, d) / 16 % LIMB_BASE == a / 16 + 16 * b + 4096 * c + 1048576 * (d % 64)
  {
    var low := a / 16 + 16 * b + 4096 * c;
    DivModUnique(low + 1048576 * d, a % 16, 16);
    DivModUnique(d / 64, low + 1048576 * (d % 64), LIMB_BASE);
  }

  lemma SplitWord64(a: int, b: int, c: int, d: int)
    requires 0 <= a < 256 && 0 <= b < 256 && 0 <= c < 256 && 0 <= d < 256
    ensures Word(a, b, c, d) / 64 % LIMB_BASE == a / 64 + 4 * b + 1024 * c + 262144 * (d % 256)
  {
    var low := a / 64 + 4 * b + 1024 * c;
    DivModUnique(low + 262144 * d, a % 64, 64);
    DivModUnique(d / 256, low + 262144 * (d % 256), LIMB_BASE);
  }

  lemma DropByte(a: int, b: int, c: int, d: int)
    requires 0 <= a < 256
    ensures Word(a, b, c, d) / 256 == b + 0x100 * c + 0x1_0000 * d
  {
  }

  // Each limb, byte by byte.
  lemma LimbBytesLow(s: seq<byte>)
    requires |s| == 16
    ensures var b: seq<int> := s;
            && Limb0(s) == b[0] + 0x100 * b[1] + 0x1_0000 * b[2] + 0x100_0000 * (b[3] % 4)
            && Limb1(s) == b[3] / 4 + 0x40 * b[4] + 0x4000 * b[5] + 0x40_0000 * (b[6] % 16)
  {
    hide LE, Word;
    LE4(s[0..4]);
    LE4(s[3..7]);
    SplitWord1(s[0], s[1], s[2], s[3]);
    SplitWord4(s[3], s[4], s[5], s[6]);
  }

  lemma LimbBytesHigh(s: seq<byte>)
    requires |s| == 16
    ensures var b: seq<int> := s;
            && Limb2(s) == b[6] / 16 + 0x10 * b[7] + 0x1000 * b[8] + 0x10_0000 * (b[9] % 64)
            && Limb3(s) == b[9] / 64 + 4 * b[10] + 0x400 * b[11] + 0x4_0000 * b[12]
  {
    hide LE, Word;
    LE4(s[6..10]);
    LE4(s[9..13]);
    SplitWord16(s[6], s[7], s[8], s[9]);
    SplitWord64(s[9], s[10], s[11], s[12]);
  }

  lemma LimbBytesTop(s: seq<byte>)
    requires |s| == 16
    ensures var b: seq<int> := s; Limb4(s) == b[13] + 0x100 * b[14] + 0x1_0000 * b[15]
  {
    hide LE, Word;
    LE4(s[12..16]);
    DropByte(s[12], s[13], s[14], s[15]);
  }

  lemma ValueOfBytes(s: seq<byte>)
    requires |s| == 16
    ensures var b: seq<int> := s;
            LE(s) == Word(b[0], b[1], b[2], b[3]) + 0x1_00000000 * Word(b[4], b[5], b[6], b[7])
                     + 0x1_00000000_00000000 * Word(b[8], b[9], b[10], b[11])
                     + 0x1_00000000_00000000_00000000 * Word(b[12], b[13], b[14], b[15])
  {
    hide LE;
    LE16(s);
    LE4(s[0..4]);
    LE4(s[4..8]);
    LE4(s[8..12]);
    LE4(s[12..16]);
  }

  lemma LimbsOfBytes(s: seq<byte>)
    requires |s| == 16
    ensures Limb0(s) < LIMB_BASE && Limb1(s) < LIMB_BASE && Limb2(s) < LIMB_BASE && Limb3(s) < LIMB_BASE
    ensures Limb4(s) < 0x100_0000
    ensures Value(Limb0(s), Limb1(s), Limb2(s), Limb3(s), Limb4(s)) == LE(s)
  {
    hide LE, Limb0, Limb1, Limb2, Limb3, Limb4;
    LimbBytesLow(s);
    LimbBytesHigh(s);
    LimbBytesTop(s);
    ValueOfBytes(s);
    var b: seq<int> := s;
    assert b[3] == 4 * (b[3] / 4) + b[3] % 4;
    assert b[6] == 16 * (b[6] / 16) + b[6] % 16;
    assert b[9] == 64 * (b[9] / 64) + b[9] % 64;
  }

  // ----- one block: multiplication and carries -----

  lemma RowProduct(h: int, r0: int, r1: int, r2: int, r3: int, r4: int)
    ensures h * Value(r0, r1, r2, r3, r4) == Value(h * r0, h * r1, h * r2, h * r3, h * r4)
  {
    var w1, w2, w3, w4 := 0x400_0000 * r1, 0x10_0000_0000_0000 * r2, 0x4000_0000_0000_0000_0000 * r3,
                          0x100_0000_0000_0000_0000_0000_0000 * r4;
    assert h * (r0 + w1 + w2 + w3 + w4) == h * r0 + h * w1 + h * w2 + h * w3 + h * w4;
  }

  lemma ColumnProduct(h0: int, h1: int, h2: int, h3: int, h4: int, r: int)
    ensures Value(h0, h1, h2, h3, h4) * r == Value(h0 * r, h1 * r, h2 * r, h3 * r, h4 * r)
  {
    RowProduct(r, h0, h1, h2, h3, h4);
    assert Value(h0, h1, h2, h3, h4) * r == r * Value(h0, h1, h2, h3, h4);
  }

  // The five column sums of the schoolbook product, with the columns above 2^130 folded back.
  function D0(h0: int, h1: int, h2: int, h3: int, h4: int, r0: int, r1: int, r2: int, r3: int, r4: int): int {
    h0 * r0 + h1 * (r4 * 5) + h2 * (r3 * 5) + h3 * (r2 * 5) + h4 * (r1 * 5)
  }

  function D1(h0: int, h1: int, h2: int, h3: int, h4: int, r0: int, r1: int, r2: int, r3: int, r4: int): int {
    h0 * r1 + h1 * r0 + h2 * (r4 * 5) + h3 * (r3 * 5) + h4 * (r2 * 5)
  }

  function D2(h0: int, h1: int, h2: int, h3: int, h4: int, r0: int, r1: int, r2: int, r3: int, r4: int): int {
    h0 * r2 + h1 * r1 + h2 * r0 + h3 * (r4 * 5) + h4 * (r3 * 5)
  }

  function D3(h0: int, h1: int, h2: int, h3: int, h4: int, r0: int, r1: int, r2: int, r3: int, r4: int): int {
    h0 * r3 + h1 * r2 + h2 * r1 + h3 * r0 + h4 * (r4 * 5)
  }

  function D4(h0: int, h1: int, h2: int, h3: int, h4: int, r0: int, r1: int, r2: int, r3: int, r4: int): int {
    h0 * r4 + h1 * r3 + h2 * r2 + h3 * r1 + h4 * r0
  }

  // Limbs of the accumulator between blocks.
  ghost predicate Bounded(h0: int, h1: int, h2: int, h3: int, h4: int) {
    0 <= h0 < LIMB_BASE && 0 <= h1 < LIMB_BASE + 64 && 0 <= h2 < LIMB_BASE && 0 <= h3 < LIMB_BASE && 0 <= h4 < LIMB_BASE
  }

  ghost predicate Loaded(h0: int, h1: int, h2: int, h3: int, h4: int) {
    0 <= h0 <= 0x800_0040 && 0 <= h1 <= 0x800_0040 && 0 <= h2 <= 0x800_0040 && 0 <= h3 <= 0x800_0040 && 0 <= h4 <= 0x800_0040
  }

  ghost predicate KeyLimbs(r0: int, r1: int, r2: int, r3: int, r4: int) {
    0 <= r0 < LIMB_BASE && 0 <= r1 < LIMB_BASE && 0 <= r2 < LIMB_BASE && 0 <= r3 < LIMB_BASE && 0 <= r4 < LIMB_BASE
  }

  lemma RowBound(h: int, r0: int, r1: int, r2: int, r3: int, r4: int)
    requires 0 <= h <= 0x800_0040 && KeyLimbs(r0, r1, r2, r3, r4)
    ensures 0 <= h * r0 <= 0x800_0040 * MASK && 0 <= h * r1 <= 0x800_0040 * MASK && 0 <= h * r2 <= 0x800_0040 * MASK
    ensures 0 <= h * r3 <= 0x800_0040 * MASK && 0 <= h * r4 <= 0x800_0040 * MASK
    ensures h * (r1 * 5) == 5 * (h * r1) && h * (r2 * 5) == 5 * (h * r2)
    ensures h * (r3 * 5) == 5 * (h * r3) && h * (r4 * 5) == 5 * (h * r4)
  {
    ProductBound(h, r0, 0x800_0040, MASK);
    ProductBound(h, r1, 0x800_0040, MASK);
    ProductBound(h, r2, 0x800_0040, MASK);
    ProductBound(h, r3, 0x800_0040, MASK);
    ProductBound(h, r4, 0x800_0040, MASK);
  }

  /** The folded product is the product modulo 2^130 - 5, and its columns stay far below 2^64. */
  lemma FoldedProduct(h0: int, h1: int, h2: int, h3: int, h4: int, r0: int, r1: int, r2: int, r3: int, r4: int)
      returns (k: int)
    requires Loaded(h0, h1, h2, h3, h4) && KeyLimbs(r0, r1, r2, r3, r4)
    ensures 0 <= D0(h0, h1, h2, h3, h4, r0, r1, r2, r3, r4) <= 25 * (0x800_0040 * MASK)
    ensures 0 <= D1(h0, h1, h2, h3, h4, r0, r1, r2, r3, r4) <= 25 * (0x800_0040 * MASK)
    ensures 0 <= D2(h0, h1, h2, h3, h4, r0, r1, r2, r3, r4) <= 25 * (0x800_0040 * MASK)
    ensures 0 <= D3(h0, h1, h2, h3, h4, r0, r1, r2, r3, r4) <= 25 * (0x800_0040 * MASK)
    ensures 0 <= D4(h0, h1, h2, h3, h4, r0, r1, r2, r3, r4) <= 5 * (0x800_0040 * MASK)
    ensures Value(h0, h1, h2, h3, h4) * Value(r0, r1, r2, r3, r4)
         == Value(D0(h0, h1, h2, h3, h4, r0, r1, r2, r3, r4), D1(h0, h1, h2, h3, h4, r0, r1, r2, r3, r4),
                  D2(h0, h1, h2, h3, h4, r0, r1, r2, r3, r4), D3(h0, h1, h2, h3, h4, r0, r1, r2, r3, r4),
                  D4(h0, h1, h2, h3, h4, r0, r1, r2, r3, r4)) + PRIME * k
  {
    RowBound(h0, r0, r1, r2, r3, r4);
    RowBound(h1, r0, r1, r2, r3, r4);
    RowBound(h2, r0, r1, r2, r3, r4);
    RowBound(h3, r0, r1, r2, r3, r4);
    RowBound(h4, r0, r1, r2, r3, r4);
    k := (h4 * r1 + h3 * r2 + h2 * r3 + h1 * r4) + 0x400_0000 * (h4 * r2 + h3 * r3 + h2 * r4)
         + 0x10_0000_0000_0000 * (h4 * r3 + h3 * r4) + 0x4000_0000_0000_0000_0000 * (h4 * r4);
    var r := Value(r0, r1, r2, r3, r4);
    ColumnProduct(h0, h1, h2, h3, h4, r);
    RowProduct(h0, r0, r1, r2, r3, r4);
    RowProduct(h1, r0, r1, r2, r3, r4);
    RowProduct(h2, r0, r1, r2, r3, r4);
    RowProduct(h3, r0, r1, r2, r3, r4);
    RowProduct(h4, r0, r1, r2, r3, r4);
  }

  // Limbs and value after the carry chain of one block.
  lemma CarryChain(d0: int, d1: int, d2: int, d3: int, d4: int)
    requires 0 <= d0 <= 25 * (0x800_0040 * MASK) && 0 <= d1 <= 25 * (0x800_0040 * MASK)
    requires 0 <= d2 <= 25 * (0x800_0040 * MASK) && 0 <= d3 <= 25 * (0x800_0040 * MASK)
    requires 0 <= d4 <= 5 * (0x800_0040 * MASK)
    ensures var e1 := d1 + d0 / LIMB_BASE; var e2 := d2 + e1 / LIMB_BASE; var e3 := d3 + e2 / LIMB_BASE;
            var e4 := d4 + e3 / LIMB_BASE; var c := e4 / LIMB_BASE; var f0 := d0 % LIMB_BASE + c * 5;
            && Bounded(f0 % LIMB_BASE, e1 % LIMB_BASE + f0 / LIMB_BASE, e2 % LIMB_BASE, e3 % LIMB_BASE, e4 % LIMB_BASE)
            && e1 < 0x1_0000_0000_0000_0000 && e2 < 0x1_0000_0000_0000_0000 && e3 < 0x1_0000_0000_0000_0000
            && e4 < 0x1_0000_0000_0000_0000 && 0 <= c * 5 < 0x1_0000_0000 && f0 < 0x1_0000_0000_0000_0000
            && Value(f0 % LIMB_BASE, e1 % LIMB_BASE + f0 / LIMB_BASE, e2 % LIMB_BASE, e3 % LIMB_BASE, e4 % LIMB_BASE)
               == Value(d0, d1, d2, d3, d4) - PRIME * c
  {
  }

  // ----- clamping the key and loading a block -----

  lemma AndNibble(b: byte)
    ensures And(b, 0x0f) == b % 16
  {
    hide And, Pow2;
    Pow2Small();
    AndMask(b, 4);
  }

  lemma Pow2Small()
    ensures Pow2(4) == 16 && Pow2(6) == 64
  {
  }

  lemma AndHalf(a: nat, b: nat)
    requires b % 2 == 0
    ensures And(a, b) == 2 * And(a / 2, b / 2)
  {
  }

  lemma AndSixBits(x: nat)
    requires x < 64
    ensures And(x, 0x3f) == x
  {
    hide And, Pow2;
    Pow2Small();
    AndMask(x, 6);
    ModSmall(x, 64);
  }

  lemma AndHighBits(b: byte)
    ensures And(b, 0xfc) == b / 4 * 4
  {
    hide And;
    AndHalf(b, 0xfc);
    AndHalf(b / 2, 0x7e);
    assert b / 2 / 2 == b / 4;
    AndSixBits(b / 4);
  }

  method ClampKey(key: Key) returns (rBytes: seq<byte>)
    ensures rBytes == Clamp(key[..16])
  {
    hide And;
    var r := new byte[16](i requires 0 <= i < 16 => key[i]);
    var index := 3;
    while index < 16
      invariant 3 <= index <= 19 && index % 4 == 3
      invariant forall i :: 0 <= i < 16 ==> r[i] == if i % 4 == 3 && i < index then key[i] % 16 else key[i]
    {
      AndNibble(r[index]);
      r[index] := And(r[index], 0x0f);
      index := index + 4;
    }
    index := 4;
    while index < 16
      invariant 4 <= index <= 16 && index % 4 == 0
      invariant forall i :: 0 <= i < 16 ==>
                  r[i] == if i % 4 == 3 then key[i] % 16 else if i % 4 == 0 && 0 < i < index then key[i] / 4 * 4 else key[i]
    {
      AndHighBits(r[index]);
      r[index] := And(r[index], 0xfc);
      index := index + 4;
    }
    rBytes := r[..];
  }

  const FULL_BLOCK_HIGH_BIT: int := 0x100_0000

  lemma MarkerByte()
    ensures LE([1]) == 1
  {
    assert [1][1..] == [];
  }

  lemma FullBlock(chunk: seq<byte>)
    requires |chunk| == 16
    ensures LE(chunk) + Value(0, 0, 0, 0, FULL_BLOCK_HIGH_BIT) == BlockValue(chunk)
  {
    hide LE, Pow256;
    LEAppend(chunk, [1]);
    MarkerByte();
    Pow256Values();
  }

  lemma PartialBlock(chunk: seq<byte>, zeros: seq<byte>)
    requires forall i :: 0 <= i < |zeros| ==> zeros[i] == 0
    ensures LE(chunk + [1] + zeros) == BlockValue(chunk)
  {
    LEAppend(chunk + [1], zeros);
    LEZeros(zeros);
  }

  method LoadBlock(chunk: seq<byte>) returns (block: seq<byte>, highBit: int)
    requires 1 <= |chunk| <= 16
    ensures |block| == 16 && (highBit == 0 || highBit == FULL_BLOCK_HIGH_BIT)
    ensures LE(block) + Value(0, 0, 0, 0, highBit) == BlockValue(chunk)
  {
    hide LE, BlockValue, Value;
    var padded := new byte[16](_ => 0);
    forall i | 0 <= i < |chunk| {
      padded[i] := chunk[i];
    }
    if |chunk| == BLOCK_SIZE {
      highBit := FULL_BLOCK_HIGH_BIT;
      block := padded[..];
      assert block == chunk;
      FullBlock(chunk);
    } else {
      padded[|chunk|] := 1;
      highBit := 0;
      block := padded[..];
      ghost var zeros: seq<byte> := seq(15 - |chunk|, _ => 0);
      assert block == chunk + [1] + zeros;
      PartialBlock(chunk, zeros);
      ZeroValue();
    }
  }

  lemma OrHighBit(x: nat, highBit: int)
    requires x < 0x100_0000 && (highBit == 0 || highBit == FULL_BLOCK_HIGH_BIT)
    ensures Or(x, highBit) == x + highBit
  {
    hide Or, Pow2;
    Pow2Values();
    OrDisjoint(x, highBit, 24);
  }

  lemma AddLimbs(h0: int, h1: int, h2: int, h3: int, h4: int, n0: int, n1: int, n2: int, n3: int, n4: int, top: int)
    ensures Value(h0 + n0, h1 + n1, h2 + n2, h3 + n3, h4 + (n4 + top))
         == Value(h0, h1, h2, h3, h4) + Value(n0, n1, n2, n3, n4) + Value(0, 0, 0, 0, top)
  {
  }

  lemma AddBlock(h0: int, h1: int, h2: int, h3: int, h4: int, block: seq<byte>, highBit: int)
    requires Bounded(h0, h1, h2, h3, h4) && |block| == 16 && (highBit == 0 || highBit == FULL_BLOCK_HIGH_BIT)
    ensures Loaded(h0 + Limb0(block), h1 + Limb1(block), h2 + Limb2(block), h3 + Limb3(block), h4 + Or(Limb4(block), highBit))
    ensures Value(h0 + Limb0(block), h1 + Limb1(block), h2 + Limb2(block), h3 + Limb3(block), h4 + Or(Limb4(block), highBit))
         == Value(h0, h1, h2, h3, h4) + LE(block) + Value(0, 0, 0, 0, highBit)
  {
    hide LE, Limb0, Limb1, Limb2, Limb3, Limb4, Or, Value;
    LimbsOfBytes(block);
    OrHighBit(Limb4(block), highBit);
    AddLimbs(h0, h1, h2, h3, h4, Limb0(block), Limb1(block), Limb2(block), Limb3(block), Limb4(block), highBit);
  }

  // ----- final reduction -----

  lemma WithZero(x: nat)
    ensures And(x, 0) == 0 && Or(x, 0) == x && Or(0, x) == x
  {
  }

  const ALL_ONES: int := 0xffff_ffff_ffff_ffff

  lemma SelectAll(x: u64)
    ensures And(x, ALL_ONES) == x && And(x, 0) == 0 && Or(x, 0) == x && Or(0, x) == x
  {
    hide And, Or;
    WithZero(x);
    KeepAll(x);
  }

  lemma KeepAll(x: nat)
    requires x <= ALL_ONES
    ensures And(x, ALL_ONES) == x
  {
    hide And, Pow2;
    Pow2Values();
    AndMask(x, 64);
    ModSmall(x, Pow2(64));
  }

  // The limbs above the first, carried up once.
  lemma CarriesUp(h1: int, h2: int, h3: int, h4: int)
    requires Bounded(0, h1, h2, h3, h4)
    ensures var e2 := h2 + h1 / LIMB_BASE; var e3 := h3 + e2 / LIMB_BASE; var e4 := h4 + e3 / LIMB_BASE;
            && 0 <= e2 <= LIMB_BASE && 0 <= e3 <= LIMB_BASE && 0 <= e4 <= LIMB_BASE && 0 <= e4 / LIMB_BASE <= 1
            && Value(0, h1 % LIMB_BASE, e2 % LIMB_BASE, e3 % LIMB_BASE, e4 % LIMB_BASE)
               == Value(0, h1, h2, h3, h4) - LIMB_BASE * LIMB_BASE * LIMB_BASE * LIMB_BASE * LIMB_BASE * (e4 / LIMB_BASE)
            && (e4 / LIMB_BASE == 1 ==> h1 % LIMB_BASE <= 64)
  {
  }

  // The last carry pass leaves every limb below 2^26, because a carry out of the top limb
  // means that the limbs below it have wrapped to almost nothing.
  lemma LastCarries(h0: int, g1: int, g2: int, g3: int, g4: int, v: int, c: int)
    requires 0 <= h0 < LIMB_BASE && 0 <= g1 < LIMB_BASE && 0 <= c <= 1 && (c == 1 ==> g1 <= 64)
    requires Value(0, g1, g2, g3, g4) == v - LIMB_BASE * LIMB_BASE * LIMB_BASE * LIMB_BASE * LIMB_BASE * c
    ensures var f0 := h0 + c * 5; var f1 := g1 + f0 / LIMB_BASE;
            && f0 <= LIMB_BASE + 4 && 0 <= f1 < LIMB_BASE && Value(f0 % LIMB_BASE, f1, g2, g3, g4) == h0 + v - PRIME * c
  {
  }

  // Adding five overflows 2^130 exactly when the value is at least 2^130 - 5.
  lemma Compared(h0: int, h1: int, h2: int, h3: int, h4: int)
    requires 0 <= h0 < LIMB_BASE && 0 <= h1 < LIMB_BASE && 0 <= h2 < LIMB_BASE && 0 <= h3 < LIMB_BASE && 0 <= h4 < LIMB_BASE
    ensures var a0 := h0 + 5; var a1 := h1 + a0 / LIMB_BASE; var a2 := h2 + a1 / LIMB_BASE; var a3 := h3 + a2 / LIMB_BASE;
            var top := h4 + a3 / LIMB_BASE - LIMB_BASE;
            && a0 <= LIMB_BASE + 4 && a1 <= LIMB_BASE && a2 <= LIMB_BASE && a3 <= LIMB_BASE && top <= 0
            && (top >= 0 <==> Value(h0, h1, h2, h3, h4) >= PRIME)
            && (top >= 0 ==> top == 0 && Value(a0 % LIMB_BASE, a1 % LIMB_BASE, a2 % LIMB_BASE, a3 % LIMB_BASE, top)
                                         == Value(h0, h1, h2, h3, h4) - PRIME)
            && -LIMB_BASE <= top
  {
  }

  method CarryUp(h1': u64, h2': u64, h3': u64, h4': u64) returns (h1: u64, h2: u64, h3: u64, h4: u64, carry: u64)
    requires Bounded(0, h1', h2', h3', h4')
    ensures h1 < LIMB_BASE && h2 < LIMB_BASE && h3 < LIMB_BASE && h4 < LIMB_BASE && carry <= 1 && (carry == 1 ==> h1 <= 64)
    ensures Value(0, h1, h2, h3, h4)
         == Value(0, h1', h2', h3', h4') - LIMB_BASE * LIMB_BASE * LIMB_BASE * LIMB_BASE * LIMB_BASE * carry
  {
    hide And, Value, Low26;
    CarriesUp(h1', h2', h3', h4');
    h1, h2, h3, h4 := h1', h2', h3', h4';
    carry := h1 / LIMB_BASE;
    h1 := Low26(h1);
    h2 := h2 + carry;
    carry := h2 / LIMB_BASE;
    h2 := Low26(h2);
    h3 := h3 + carry;
    carry := h3 / LIMB_BASE;
    h3 := Low26(h3);
    h4 := h4 + carry;
    carry := h4 / LIMB_BASE;
    h4 := Low26(h4);
  }

  method LastCarryPass(h0': u64, h1': u64, h2': u64, h3': u64, h4': u64) returns (h0: u64, h1: u64, h2: u64, h3: u64, h4: u64)
    requires Bounded(h0', h1', h2', h3', h4')
    ensures h0 < LIMB_BASE && h1 < LIMB_BASE && h2 < LIMB_BASE && h3 < LIMB_BASE && h4 < LIMB_BASE
    ensures Value(h0, h1, h2, h3, h4) % PRIME == Value(h0', h1', h2', h3', h4') % PRIME
  {
    hide And, Value, Low26;
    var carry: u64;
    h1, h2, h3, h4, carry := CarryUp(h1', h2', h3', h4');
    LastCarries(h0', h1, h2, h3, h4, Value(0, h1', h2', h3', h4'), carry);
    ghost var c := carry;
    h0 := h0' + carry * 5;
    carry := h0 / LIMB_BASE;
    h0 := Low26(h0);
    h1 := h1 + carry;
    FirstLimb(h0', h1', h2', h3', h4');
    ModFromMultiple(Value(h0', h1', h2', h3', h4'), Value(h0, h1, h2, h3, h4), c, PRIME);
  }

  lemma FirstLimb(h0: int, h1: int, h2: int, h3: int, h4: int)
    ensures Value(h0, h1, h2, h3, h4) == h0 + Value(0, h1, h2, h3, h4)
  {
  }

  // Picks h or g without a branch: the mask is all ones or all zeros.
  function Select(h: u64, g: u64, selectG: u64): (r: u64)
    requires selectG == 0 || selectG == ALL_ONES
    ensures r == if selectG == 0 then h else g
  {
    SelectAll(h);
    SelectAll(g);
    Or(And(h, ALL_ONES - selectG), And(g, selectG))
  }

  // The value plus five, less 2^130: the top limb wraps below zero when the value is under the prime.
  method AddFive(h0: u64, h1: u64, h2: u64, h3: u64, h4: u64) returns (g0: u64, g1: u64, g2: u64, g3: u64, g4: u64)
    requires h0 < LIMB_BASE && h1 < LIMB_BASE && h2 < LIMB_BASE && h3 < LIMB_BASE && h4 < LIMB_BASE
    ensures g0 < LIMB_BASE && g1 < LIMB_BASE && g2 < LIMB_BASE && g3 < LIMB_BASE
    ensures var v := Value(h0, h1, h2, h3, h4);
            if v >= PRIME then g4 == 0 && Value(g0, g1, g2, g3, g4) == v - PRIME else g4 >= 0x8000_0000_0000_0000
  {
    hide And, Value, Low26;
    Compared(h0, h1, h2, h3, h4);
    g0 := h0 + 5;
    var carry: u64 := g0 / LIMB_BASE;
    g0 := Low26(g0);
    g1 := h1 + carry;
    carry := g1 / LIMB_BASE;
    g1 := Low26(g1);
    g2 := h2 + carry;
    carry := g2 / LIMB_BASE;
    g2 := Low26(g2);
    g3 := h3 + carry;
    carry := g3 / LIMB_BASE;
    g3 := Low26(g3);
    var top: int := h4 + carry - LIMB_BASE;
    g4 := top % 0x1_0000_0000_0000_0000;
  }

  method SubtractPrime(h0': u64, h1': u64, h2': u64, h3': u64, h4': u64) returns (h0: u64, h1: u64, h2: u64, h3: u64, h4: u64)
    requires h0' < LIMB_BASE && h1' < LIMB_BASE && h2' < LIMB_BASE && h3' < LIMB_BASE && h4' < LIMB_BASE
    ensures h0 < LIMB_BASE && h1 < LIMB_BASE && h2 < LIMB_BASE && h3 < LIMB_BASE && h4 < LIMB_BASE
    ensures var v := Value(h0', h1', h2', h3', h4');
            Value(h0, h1, h2, h3, h4) == if v >= PRIME then v - PRIME else v
  {
    hide Value, Select;
    var g0, g1, g2, g3, g4 := AddFive(h0', h1', h2', h3', h4');
    var topBit: int := g4 / 0x8000_0000_0000_0000;
    var selectG: u64 := (topBit - 1) % 0x1_0000_0000_0000_0000;
    h0 := Select(h0', g0, selectG);
    h1 := Select(h1', g1, selectG);
    h2 := Select(h2', g2, selectG);
    h3 := Select(h3', g3, selectG);
    h4 := Select(h4', g4, selectG);
  }

  lemma ReducedRange(h0: int, h1: int, h2: int, h3: int, h4: int)
    requires 0 <= h0 < LIMB_BASE && 0 <= h1 < LIMB_BASE && 0 <= h2 < LIMB_BASE && 0 <= h3 < LIMB_BASE && 0 <= h4 < LIMB_BASE
    ensures var v := Value(h0, h1, h2, h3, h4); v % PRIME == if v >= PRIME then v - PRIME else v
  {
    var v := Value(h0, h1, h2, h3, h4);
    assert 0 <= v < 2 * PRIME;
    if v >= PRIME {
      DivModUnique(1, v - PRIME, PRIME);
    } else {
      DivModUnique(0, v, PRIME);
    }
  }

  method FinalReduction(h0': u64, h1': u64, h2': u64, h3': u64, h4': u64) returns (h0: u64, h1: u64, h2: u64, h3: u64, h4: u64)
    requires Bounded(h0', h1', h2', h3', h4')
    ensures h0 < LIMB_BASE && h1 < LIMB_BASE && h2 < LIMB_BASE && h3 < LIMB_BASE && h4 < LIMB_BASE
    ensures Value(h0, h1, h2, h3, h4) == Value(h0', h1', h2', h3', h4') % PRIME
  {
    hide Value;
    h0, h1, h2, h3, h4 := LastCarryPass(h0', h1', h2', h3', h4');
    ReducedRange(h0, h1, h2, h3, h4);
    h0, h1, h2, h3, h4 := SubtractPrime(h0, h1, h2, h3, h4);
  }

  // ----- adding the pad -----

  lemma OrShift(low: nat, high: nat, k: nat)
    requires low < Pow2(k)
    ensures Or(low, high * Pow2(k)) == low + high * Pow2(k)
  {
    DivModUnique(high, 0, Pow2(k));
    MulNonneg(high, Pow2(k));
    OrDisjoint(low, high * Pow2(k), k);
  }

  // Four 32-bit words as one number.
  function Quad(f0: int, f1: int, f2: int, f3: int): int {
    f0 + 0x1_00000000 * f1 + 0x1_00000000_00000000 * f2 + 0x1_00000000_00000000_00000000 * f3
  }

  // Four 32-bit words cut from five 26-bit limbs hold the value modulo 2^128.
  lemma Repack(h0: int, h1: int, h2: int, h3: int, h4: int)
    requires 0 <= h0 < LIMB_BASE && 0 <= h1 < LIMB_BASE && 0 <= h2 < LIMB_BASE && 0 <= h3 < LIMB_BASE && 0 <= h4 < LIMB_BASE
    ensures var f0 := (h0 + h1 * 0x400_0000) % 0x1_0000_0000;
            var f1 := (h1 / 64 + h2 * 0x10_0000) % 0x1_0000_0000;
            var f2 := (h2 / 4096 + h3 * 0x4000) % 0x1_0000_0000;
            var f3 := (h3 / 0x4_0000 + h4 * 0x100) % 0x1_0000_0000;
            Value(h0, h1, h2, h3, h4) - 0x1_00000000_00000000_00000000_00000000 * (h4 / 0x100_0000) == Quad(f0, f1, f2, f3)
  {
    DivModUnique(h1 / 64, h0 + (h1 % 64) * 0x400_0000, 0x1_0000_0000);
    DivModUnique(h2 / 4096, h1 / 64 + (h2 % 4096) * 0x10_0000, 0x1_0000_0000);
    DivModUnique(h3 / 0x4_0000, h2 / 4096 + (h3 % 0x4_0000) * 0x4000, 0x1_0000_0000);
    DivModUnique(h4 / 0x100_0000, h3 / 0x4_0000 + (h4 % 0x100_0000) * 0x100, 0x1_0000_0000);
  }

  lemma {:induction false} ToLEAppend(v: nat, w: nat, m: nat, n: nat)
    requires v < Pow256(m)
    ensures v + Pow256(m) * w >= 0 && ToLE(v + Pow256(m) * w, m + n) == ToLE(v, m) + ToLE(w, n)
  {
    MulNonneg(Pow256(m), w);
    if m != 0 {
      var x := Pow256(m - 1) * w;
      MulNonneg(Pow256(m - 1), w);
      assert Pow256(m) * w == 256 * x;
      assert (v + 256 * x) / 256 == v / 256 + x && (v + 256 * x) % 256 == v % 256;
      ToLEAppend(v / 256, w, m - 1, n);
    }
  }

  lemma QuadNested(f0: int, f1: int, f2: int, f3: int)
    ensures Quad(f0, f1, f2, f3) == f0 + 0x1_00000000 * (f1 + 0x1_00000000 * (f2 + 0x1_00000000 * f3))
  {
  }

  lemma WordsToTag(f0: nat, f1: nat, f2: nat, f3: nat)
    requires f0 < 0x1_0000_0000 && f1 < 0x1_0000_0000 && f2 < 0x1_0000_0000 && f3 < 0x1_0000_0000
    ensures Quad(f0, f1, f2, f3) >= 0
    ensures ToLE(f0, 4) + ToLE(f1, 4) + ToLE(f2, 4) + ToLE(f3, 4) == ToLE(Quad(f0, f1, f2, f3), 16)
  {
    hide ToLE, Pow256, Quad;
    Pow256Values();
    ToLEAppend(f2, f3, 4, 4);
    var w := f2 + 0x1_00000000 * f3;
    ToLEAppend(f1, w, 4, 8);
    var x := f1 + 0x1_00000000 * w;
    ToLEAppend(f0, x, 4, 12);
    QuadNested(f0, f1, f2, f3);
    var a, b, c, d := ToLE(f0, 4), ToLE(f1, 4), ToLE(f2, 4), ToLE(f3, 4);
    assert a + (b + (c + d)) == a + b + c + d;
  }

  lemma PadCarries(f0: int, f1: int, f2: int, f3: int, p0: int, p1: int, p2: int, p3: int)
    requires 0 <= f0 < 0x1_0000_0000 && 0 <= f1 < 0x1_0000_0000 && 0 <= f2 < 0x1_0000_0000 && 0 <= f3 < 0x1_0000_0000
    requires 0 <= p0 < 0x1_0000_0000 && 0 <= p1 < 0x1_0000_0000 && 0 <= p2 < 0x1_0000_0000 && 0 <= p3 < 0x1_0000_0000
    ensures var s0 := f0 + p0; var s1 := f1 + p1 + s0 / 0x1_0000_0000; var s2 := f2 + p2 + s1 / 0x1_0000_0000;
            var s3 := f3 + p3 + s2 / 0x1_0000_0000;
            var r := Quad(s0 % 0x1_0000_0000, s1 % 0x1_0000_0000, s2 % 0x1_0000_0000, s3 % 0x1_0000_0000);
            Quad(f0, f1, f2, f3) + Quad(p0, p1, p2, p3) == s3 / 0x1_0000_0000 * 0x1_00000000_00000000_00000000_00000000 + r
            && 0 <= r < 0x1_00000000_00000000_00000000_00000000
  {
  }

  lemma PadAdded(f0: int, f1: int, f2: int, f3: int, p0: int, p1: int, p2: int, p3: int)
    requires 0 <= f0 < WORD && 0 <= f1 < WORD && 0 <= f2 < WORD && 0 <= f3 < WORD
    requires 0 <= p0 < WORD && 0 <= p1 < WORD && 0 <= p2 < WORD && 0 <= p3 < WORD
    ensures var s0 := f0 + p0; var s1 := f1 + p1 + s0 / WORD; var s2 := f2 + p2 + s1 / WORD; var s3 := f3 + p3 + s2 / WORD;
            Quad(s0 % WORD, s1 % WORD, s2 % WORD, s3 % WORD) == (Quad(f0, f1, f2, f3) + Quad(p0, p1, p2, p3)) % TWO_TO_128
  {
    hide Quad;
    PadCarries(f0, f1, f2, f3, p0, p1, p2, p3);
    var s0 := f0 + p0;
    var s1 := f1 + p1 + s0 / WORD;
    var s2 := f2 + p2 + s1 / WORD;
    var s3 := f3 + p3 + s2 / WORD;
    DivModUnique(s3 / WORD, Quad(s0 % WORD, s1 % WORD, s2 % WORD, s3 % WORD), TWO_TO_128);
  }

  // The four 32-bit words of the value, cut from its limbs.
  method PackWords(h0: u64, h1: u64, h2: u64, h3: u64, h4: u64) returns (f0: u64, f1: u64, f2: u64, f3: u64)
    requires h0 < LIMB_BASE && h1 < LIMB_BASE && h2 < LIMB_BASE && h3 < LIMB_BASE && h4 < LIMB_BASE
    ensures f0 < WORD && f1 < WORD && f2 < WORD && f3 < WORD
    ensures Value(h0, h1, h2, h3, h4) - TWO_TO_128 * (h4 / 0x100_0000) == Quad(f0, f1, f2, f3)
  {
    hide Or, Pow2, Low32, Value, Quad;
    Pow2Values();
    Repack(h0, h1, h2, h3, h4);
    OrShift(h0, h1, 26);
    OrShift(h1 / 64, h2, 20);
    OrShift(h2 / 4096, h3, 14);
    OrShift(h3 / 0x4_0000, h4, 8);
    f0 := Low32(Or(h0, h1 * 0x400_0000));
    f1 := Low32(Or(h1 / 64, h2 * 0x10_0000));
    f2 := Low32(Or(h2 / 4096, h3 * 0x4000));
    f3 := Low32(Or(h3 / 0x4_0000, h4 * 0x100));
  }

  // The words added with carries, the last carry dropped.
  method AddWords(f0: u64, f1: u64, f2: u64, f3: u64, p0: u64, p1: u64, p2: u64, p3: u64)
      returns (s0: u64, s1: u64, s2: u64, s3: u64)
    requires f0 < WORD && f1 < WORD && f2 < WORD && f3 < WORD && p0 < WORD && p1 < WORD && p2 < WORD && p3 < WORD
    ensures s0 < WORD && s1 < WORD && s2 < WORD && s3 < WORD
    ensures Quad(s0, s1, s2, s3) == (Quad(f0, f1, f2, f3) + Quad(p0, p1, p2, p3)) % TWO_TO_128
  {
    hide Low32, Quad;
    PadAdded(f0, f1, f2, f3, p0, p1, p2, p3);
    var t0: u64 := f0 + p0;
    var t1: u64 := f1 + p1 + t0 / WORD;
    var t2: u64 := f2 + p2 + t1 / WORD;
    var t3: u64 := f3 + p3 + t2 / WORD;
    s0, s1, s2, s3 := Low32(t0), Low32(t1), Low32(t2), Low32(t3);
  }

  method AddPad(h0: u64, h1: u64, h2: u64, h3: u64, h4: u64, key: Key) returns (tag: seq<byte>)
    requires h0 < LIMB_BASE && h1 < LIMB_BASE && h2 < LIMB_BASE && h3 < LIMB_BASE && h4 < LIMB_BASE
    ensures tag == ToLE((Value(h0, h1, h2, h3, h4) + LE(key[16..])) % Pow256(16), 16)
  {
    hide LE, ToLE, Pow256, Value, Quad, ReadWord;
    Pow256Values();
    var f0, f1, f2, f3 := PackWords(h0, h1, h2, h3, h4);
    var pad0: u64, pad1: u64, pad2: u64, pad3: u64 :=
      ReadWord(key[16..20]), ReadWord(key[20..24]), ReadWord(key[24..28]), ReadWord(key[28..32]);
    PadWords(key);
    ghost var v, p := Value(h0, h1, h2, h3, h4), LE(key[16..]);
    ModFromMultiple(v + p, Quad(f0, f1, f2, f3) + p, h4 / 0x100_0000, TWO_TO_128);
    f0, f1, f2, f3 := AddWords(f0, f1, f2, f3, pad0, pad1, pad2, pad3);
    WordsToTag(f0, f1, f2, f3);
    tag := ToLE(f0, 4) + ToLE(f1, 4) + ToLE(f2, 4) + ToLE(f3, 4);
  }

  lemma PadWords(key: Key)
    ensures LE(key[16..]) == Quad(ReadWord(key[16..20]), ReadWord(key[20..24]), ReadWord(key[24..28]), ReadWord(key[28..32]))
  {
    hide LE, ReadWord;
    var s := key[16..];
    LE16(s);
    assert s[0..4] == key[16..20];
    assert s[4..8] == key[20..24];
    assert s[8..12] == key[24..28];
    assert s[12..16] == key[28..32];
  }

  function ReadWord(s: seq<byte>): (w: u32)
    requires |s| == 4
    ensures w == LE(s)
  {
    LE4(s);
    LE(s)
  }

  // ----- the authenticator -----

  // The five column sums of the product, the columns above 2^130 folded in five times.
  method MultiplyKey(h0: u64, h1: u64, h2: u64, h3: u64, h4: u64, r0: u64, r1: u64, r2: u64, r3: u64, r4: u64)
      returns (d0: u64, d1: u64, d2: u64, d3: u64, d4: u64, ghost k: int)
    requires Loaded(h0, h1, h2, h3, h4) && KeyLimbs(r0, r1, r2, r3, r4)
    ensures d0 <= 25 * (0x800_0040 * MASK) && d1 <= 25 * (0x800_0040 * MASK) && d2 <= 25 * (0x800_0040 * MASK)
    ensures d3 <= 25 * (0x800_0040 * MASK) && d4 <= 5 * (0x800_0040 * MASK)
    ensures Value(h0, h1, h2, h3, h4) * Value(r0, r1, r2, r3, r4) == Value(d0, d1, d2, d3, d4) + PRIME * k
  {
    hide Value;
    var r1Times5: u64, r2Times5: u64, r3Times5: u64, r4Times5: u64 := r1 * 5, r2 * 5, r3 * 5, r4 * 5;
    k := FoldedProduct(h0, h1, h2, h3, h4, r0, r1, r2, r3, r4);
    d0 := h0 * r0 + h1 * r4Times5 + h2 * r3Times5 + h3 * r2Times5 + h4 * r1Times5;
    d1 := h0 * r1 + h1 * r0 + h2 * r4Times5 + h3 * r3Times5 + h4 * r2Times5;
    d2 := h0 * r2 + h1 * r1 + h2 * r0 + h3 * r4Times5 + h4 * r3Times5;
    d3 := h0 * r3 + h1 * r2 + h2 * r1 + h3 * r0 + h4 * r4Times5;
    d4 := h0 * r4 + h1 * r3 + h2 * r2 + h3 * r1 + h4 * r0;
  }

  /** One block: h becomes (h + c) r modulo 2^130 - 5. */
  method ProcessBlock(h0': u64, h1': u64, h2': u64, h3': u64, h4': u64,
                      r0: u64, r1: u64, r2: u64, r3: u64, r4: u64, chunk: seq<byte>)
      returns (h0: u64, h1: u64, h2: u64, h3: u64, h4: u64)
    requires Bounded(h0', h1', h2', h3', h4') && KeyLimbs(r0, r1, r2, r3, r4) && 1 <= |chunk| <= 16
    ensures Bounded(h0, h1, h2, h3, h4)
    ensures Value(h0, h1, h2, h3, h4) % PRIME
         == ((Value(h0', h1', h2', h3', h4') % PRIME + BlockValue(chunk)) * Value(r0, r1, r2, r3, r4)) % PRIME
  {
    hide LE, Or, And, BlockValue, Limb0, Limb1, Limb2, Limb3, Limb4, Value, Low26;
    var block, highBit := LoadBlock(chunk);
    AddBlock(h0', h1', h2', h3', h4', block, highBit);
    h0 := h0' + Limb0(block);
    h1 := h1' + Limb1(block);
    h2 := h2' + Limb2(block);
    h3 := h3' + Limb3(block);
    h4 := h4' + Or(Limb4(block), highBit);
    var d0, d1, d2, d3, d4, k := MultiplyKey(h0, h1, h2, h3, h4, r0, r1, r2, r3, r4);
    ghost var total := Value(d0, d1, d2, d3, d4);
    h0, h1, h2, h3, h4 := PropagateCarries(d0, d1, d2, d3, d4);
    ModSumProduct(Value(h0', h1', h2', h3', h4'), BlockValue(chunk), Value(r0, r1, r2, r3, r4), total, k,
                  Value(h0, h1, h2, h3, h4), PRIME);
  }

  method PropagateCarries(d0: u64, d1': u64, d2': u64, d3': u64, d4': u64) returns (h0: u64, h1: u64, h2: u64, h3: u64, h4: u64)
    requires d0 <= 25 * (0x800_0040 * MASK) && d1' <= 25 * (0x800_0040 * MASK)
    requires d2' <= 25 * (0x800_0040 * MASK) && d3' <= 25 * (0x800_0040 * MASK)
    requires d4' <= 5 * (0x800_0040 * MASK)
    ensures Bounded(h0, h1, h2, h3, h4)
    ensures Value(h0, h1, h2, h3, h4) % PRIME == Value(d0, d1', d2', d3', d4') % PRIME
  {
    hide And, Value, Low26;
    CarryChain(d0, d1', d2', d3', d4');
    var carry: u64 := d0 / LIMB_BASE;
    h0 := Low26(d0);
    var d1: u64 := d1' + carry;
    carry := d1 / LIMB_BASE;
    h1 := Low26(d1);
    var d2: u64 := d2' + carry;
    carry := d2 / LIMB_BASE;
    h2 := Low26(d2);
    var d3: u64 := d3' + carry;
    carry := d3 / LIMB_BASE;
    h3 := Low26(d3);
    var d4: u64 := d4' + carry;
    carry := d4 / LIMB_BASE;
    h4 := Low26(d4);
    ghost var top := carry;
    h0 := h0 + carry * 5;
    carry := h0 / LIMB_BASE;
    h0 := Low26(h0);
    h1 := h1 + carry;
    ModFromMultiple(Value(d0, d1', d2', d3', d4'), Value(h0, h1, h2, h3, h4), top, PRIME);
  }

  lemma AccumulateStep(r: nat, message: seq<byte>, a: int)
    requires message != []
    ensures Accumulate(r, message, a) == Accumulate(r, Rest(message), ((a + BlockValue(Chunk(message))) * r) % PRIME)
  {
  }

  lemma AccumulateEnd(r: nat, a: int)
    ensures Accumulate(r, [], a) == a
  {
  }

  /** The one-time authenticator, for every key and every message. */
  method Authenticate(key: Key, message: seq<byte>) returns (tag: seq<byte>)
    ensures tag == TagSpec(key, message)
  {
    hide LE, ToLE, Clamp, BlockValue, Pow256, Chunk, Rest, Limb0, Limb1, Limb2, Limb3, Limb4, Value, Low26, Accumulate;
    var rBytes := ClampKey(key);
    LimbsOfBytes(rBytes);
    ghost var r := LE(rBytes);
    var r0: u64, r1: u64, r2: u64, r3: u64, r4: u64 :=
      Limb0(rBytes), Limb1(rBytes), Limb2(rBytes), Limb3(rBytes), Low26(Limb4(rBytes));
    var h0: u64, h1: u64, h2: u64, h3: u64, h4: u64 := 0, 0, 0, 0, 0;
    ZeroValue();
    var rest := message;
    while rest != []
      invariant Bounded(h0, h1, h2, h3, h4)
      invariant Accumulate(r, rest, Value(h0, h1, h2, h3, h4) % PRIME) == Accumulate(r, message, 0)
      decreases |rest|
    {
      AccumulateStep(r, rest, Value(h0, h1, h2, h3, h4) % PRIME);
      h0, h1, h2, h3, h4 := ProcessBlock(h0, h1, h2, h3, h4, r0, r1, r2, r3, r4, Chunk(rest));
      rest := Rest(rest);
    }
    AccumulateEnd(r, Value(h0, h1, h2, h3, h4) % PRIME);
    h0, h1, h2, h3, h4 := FinalReduction(h0, h1, h2, h3, h4);
    tag := AddPad(h0, h1, h2, h3, h4, key);
  }

  lemma ZeroValue()
    ensures Value(0, 0, 0, 0, 0) == 0
  {
  }
}
