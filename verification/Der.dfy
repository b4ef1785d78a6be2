/** DER as the program reads and writes it (section 10.1 of X.690): the bounded
    reader, the canonical writer, unsigned INTEGERs and object identifiers. */
module Der {
  import opened Words

  type Bytes = seq<byte>

  const TAG_INTEGER: byte := 0x02
  const TAG_OBJECT_IDENTIFIER: byte := 0x06
  // One more than the greatest usize.
  const USIZE := 0x1_0000_0000_0000_0000

  datatype DerError =
    | Truncated | HighTagNumberUnsupported(tag: byte) | IndefiniteLength | LengthOverflow | NonCanonicalLength
    | UnexpectedTag(expected: byte, actual: byte) | TrailingData(length: nat) | InvalidInteger | InvalidObjectIdentifier

  // What is read and where the reading stops.
  datatype Length = Length(value: nat, next: nat)
  datatype Element = Element(tag: byte, content: Bytes, next: nat)
  datatype Value = Value(bytes: Bytes, next: nat)

  // ----- big-endian numbers without leading zeros -----

  function Significant(s: Bytes): (r: Bytes)
    ensures |r| <= |s| && (r != [] ==> r[0] != 0)
    decreases |s|
  {
    if s != [] && s[0] == 0 then Significant(s[1..]) else s
  }

  lemma {:induction false} BEDropsZero(s: Bytes)
    requires s != [] && s[0] == 0
    ensures BE(s) == BE(s[1..])
    decreases |s|
  {
    if |s| > 1 {
      BEDropsZero(s[..|s| - 1]);
      assert s[..|s| - 1][1..] == s[1..][..|s| - 2];
    }
  }

  lemma {:induction false} SignificantValue(s: Bytes)
    ensures BE(Significant(s)) == BE(s)
    decreases |s|
  {
    if s != [] && s[0] == 0 {
      BEDropsZero(s);
      SignificantValue(s[1..]);
    }
  }

  lemma {:induction false} LeadingPositive(s: Bytes)
    requires s != [] && s[0] != 0
    ensures BE(s) > 0
    decreases |s|
  {
    if |s| > 1 {
      LeadingPositive(s[..|s| - 1]);
    }
  }

  // A number has one encoding without leading zeros.
  lemma {:induction false} SignificantUnique(a: Bytes, b: Bytes)
    requires (a != [] ==> a[0] != 0) && (b != [] ==> b[0] != 0) && BE(a) == BE(b)
    ensures a == b
    decreases |a|
  {
    if a == [] {
      if b != [] {
        LeadingPositive(b);
      }
    } else if b == [] {
      LeadingPositive(a);
    } else {
      var a', b' := a[..|a| - 1], b[..|b| - 1];
      SameQuotient(BE(a'), a[|a| - 1], BE(b'), b[|b| - 1], 256);
      SignificantUnique(a', b');
      assert a == a' + [a[|a| - 1]] && b == b' + [b[|b| - 1]];
    }
  }

  // ----- lengths -----

  function LengthBytes(length: nat): (r: Bytes)
    ensures |r| >= 1
  {
    if length < 128 then [length] else [0x80 + |Significant(ToBE(length, 8))|] + Significant(ToBE(length, 8))
  }

  function LengthAt(s: Bytes, i: nat): (r: Result<Length, DerError>)
    ensures r.Ok? ==> i < r.value.next <= |s|
  {
    if i >= |s| then Err(Truncated)
    else if s[i] < 0x80 then Ok(Length(s[i], i + 1))
    else
      var count := s[i] - 0x80;
      if count == 0 then Err(IndefiniteLength)
      else if count > 8 then Err(LengthOverflow)
      else if |s| - (i + 1) < count then Err(Truncated)
      else if s[i + 1] == 0 then Err(NonCanonicalLength)
      else
        var length := BE(s[i + 1..i + 1 + count]);
        if length < 128 then Err(NonCanonicalLength) else Ok(Length(length, i + 1 + count))
  }

  // The significant bytes of a long length.
  lemma LongLength(length: nat)
    requires 128 <= length < USIZE
    ensures var b := Significant(ToBE(length, 8)); 1 <= |b| <= 8 && b[0] != 0 && BE(b) == length
  {
    Pow256Of8();
    BEOfToBE(length, 8);
    SignificantValue(ToBE(length, 8));
  }

  lemma LengthWritten(s: Bytes, i: nat, length: nat)
    requires length < USIZE && At(s, i, LengthBytes(length))
    ensures LengthAt(s, i) == Ok(Length(length, i + |LengthBytes(length)|))
  {
    hide Significant, ToBE, BE, Pow256;
    if length < 128 {
      assert s[i] == s[i..i + 1][0];
    } else {
      LongLength(length);
      var b := Significant(ToBE(length, 8));
      AtParts(s, i, [0x80 + |b|], b);
      assert s[i] == s[i..i + 1][0] == 0x80 + |b|;
      assert s[i + 1] == s[i + 1..i + 1 + |b|][0];
    }
  }

  lemma LengthRead(s: Bytes, i: nat)
    requires LengthAt(s, i).Ok?
    ensures LengthAt(s, i).value.value < USIZE
    ensures At(s, i, LengthBytes(LengthAt(s, i).value.value))
    ensures LengthAt(s, i).value.next == i + |LengthBytes(LengthAt(s, i).value.value)|
  {
    hide Significant, ToBE, BE, Pow256;
    var length := LengthAt(s, i).value.value;
    assert s[i..i + 1] == [s[i]];
    if s[i] >= 0x80 {
      var count := s[i] - 0x80;
      var b := s[i + 1..i + 1 + count];
      assert b[0] == s[i + 1];
      BEBound(b);
      Pow256Grows(count, 8);
      Pow256Of8();
      LongLength(length);
      SignificantUnique(b, Significant(ToBE(length, 8)));
      AtParts(s, i, [s[i]], b);
    }
  }

  lemma {:induction false} Pow256Grows(m: nat, n: nat)
    requires m <= n
    ensures Pow256(m) <= Pow256(n)
    decreases n
  {
    if m < n {
      Pow256Grows(m, n - 1);
    }
  }

  // ----- elements -----

  predicate IsLowTag(tag: byte) {
    tag % 32 != 31
  }

  function Wrap(tag: byte, content: Bytes): Bytes {
    [tag] + LengthBytes(|content|) + content
  }

  function TlvAt(s: Bytes, i: nat): (r: Result<Element, DerError>)
    ensures r.Ok? ==> i < r.value.next <= |s|
  {
    if i >= |s| then Err(Truncated)
    else if !IsLowTag(s[i]) then Err(HighTagNumberUnsupported(s[i]))
    else
      var length := LengthAt(s, i + 1);
      if length.Err? then Err(length.error)
      else
        var end := length.value.next + length.value.value;
        if end >= USIZE then Err(LengthOverflow)
        else if end > |s| then Err(Truncated)
        else Ok(Element(s[i], s[length.value.next..end], end))
  }

  /** Reading undoes writing and writing undoes reading: an element is read at a position exactly when its
      one encoding stands there and its tag has the low form. */
  lemma TlvUnique(s: Bytes, i: nat, tag: byte, content: Bytes)
    requires |s| < USIZE
    ensures TlvAt(s, i) == Ok(Element(tag, content, i + |Wrap(tag, content)|)) <==> IsLowTag(tag) && At(s, i, Wrap(tag, content))
  {
    if IsLowTag(tag) && At(s, i, Wrap(tag, content)) {
      TlvWritten(s, i, tag, content);
    }
    if TlvAt(s, i) == Ok(Element(tag, content, i + |Wrap(tag, content)|)) {
      TlvRead(s, i);
    }
  }

  lemma TlvWritten(s: Bytes, i: nat, tag: byte, content: Bytes)
    requires |s| < USIZE && IsLowTag(tag) && At(s, i, Wrap(tag, content))
    ensures TlvAt(s, i) == Ok(Element(tag, content, i + |Wrap(tag, content)|))
  {
    hide LengthAt, LengthBytes, IsLowTag;
    var length := LengthBytes(|content|);
    AtParts(s, i, [tag] + length, content);
    AtParts(s, i, [tag], length);
    assert s[i] == s[i..i + 1][0];
    LengthWritten(s, i + 1, |content|);
  }

  /** Whatever is accepted is the encoding of what it is read as. */
  lemma TlvRead(s: Bytes, i: nat)
    requires TlvAt(s, i).Ok?
    ensures var e := TlvAt(s, i).value;
            IsLowTag(e.tag) && At(s, i, Wrap(e.tag, e.content)) && e.next == i + |Wrap(e.tag, e.content)|
  {
    hide LengthAt, LengthBytes, IsLowTag;
    var e := TlvAt(s, i).value;
    LengthRead(s, i + 1);
    var length := LengthBytes(|e.content|);
    assert s[i..i + 1] == [s[i]];
    AtParts(s, i, [e.tag], length);
    AtParts(s, i, [e.tag] + length, e.content);
  }

  // ----- unsigned integers -----

  function IntegerContent(value: Bytes): Bytes {
    var s := Significant(value);
    if s == [] then [0] else if s[0] >= 0x80 then [0] + s else s
  }

  function IntegerUnsigned(value: Bytes): Bytes {
    Wrap(TAG_INTEGER, IntegerContent(value))
  }

  function IntegerAt(s: Bytes, i: nat): Result<Value, DerError> {
    var e := TlvAt(s, i);
    if e.Err? then Err(e.error)
    else if e.value.tag != TAG_INTEGER then Err(UnexpectedTag(TAG_INTEGER, e.value.tag))
    else
      var c := e.value.content;
      if c == [] || c[0] >= 0x80 || (|c| > 1 && c[0] == 0 && c[1] < 0x80) then Err(InvalidInteger)
      else Ok(Value(if |c| > 1 && c[0] == 0 then c[1..] else c, e.value.next))
  }

  /** Every accepted INTEGER is the encoding of the value returned. */
  lemma IntegerRead(s: Bytes, i: nat)
    requires IntegerAt(s, i).Ok?
    ensures var v := IntegerAt(s, i).value;
            At(s, i, IntegerUnsigned(v.bytes)) && v.next == i + |IntegerUnsigned(v.bytes)| && (|v.bytes| > 1 ==> v.bytes[0] != 0)
  {
    hide TlvAt, Wrap;
    TlvRead(s, i);
    var c := TlvAt(s, i).value.content;
    if |c| > 1 && c[0] == 0 {
      assert c == [0] + c[1..];
    } else if c[0] == 0 {
      assert c == [0] && Significant(c[1..]) == [];
    }
  }

  /** An encoded INTEGER is read back as the same number, without its leading zeros. */
  lemma IntegerWritten(s: Bytes, i: nat, value: Bytes)
    requires |s| < USIZE && At(s, i, IntegerUnsigned(value))
    ensures var r := IntegerAt(s, i);
            && r.Ok? && r.value.next == i + |IntegerUnsigned(value)|
            && r.value.bytes == (if Significant(value) == [] then [0] else Significant(value))
            && BE(r.value.bytes) == BE(value)
  {
    hide TlvAt, Wrap;
    var content := IntegerContent(value);
    TlvWritten(s, i, TAG_INTEGER, content);
    SignificantValue(value);
    if |content| > 1 && content[0] == 0 {
      assert content[1..] == Significant(value);
    }
    assert BE([0]) == 0;
  }

  // ----- object identifiers -----

  // The digits of a number in base 128, the first without leading zeros, all marked as continued.
  function Continued(v: nat): Bytes {
    if v == 0 then [] else Continued(v / 128) + [0x80 + v % 128]
  }

  function Base128(v: nat): Bytes {
    Continued(v / 128) + [v % 128]
  }

  function Subidentifiers(values: seq<u64>): Bytes
    decreases |values|
  {
    if values == [] then [] else Base128(values[0]) + Subidentifiers(values[1..])
  }

  function FirstSubidentifier(first: u64, second: u64): Option<u64> {
    if first > 2 || (first < 2 && second > 39) then None
    else if first < 2 then Some(first * 40 + second)
    else if second + 80 >= USIZE then None
    else Some(second + 80)
  }

  function ObjectIdentifier(arcs: seq<u64>): Result<Bytes, DerError> {
    if |arcs| < 2 then Err(InvalidObjectIdentifier)
    else
      var first := FirstSubidentifier(arcs[0], arcs[1]);
      if first.None? then Err(InvalidObjectIdentifier)
      else Ok(Wrap(TAG_OBJECT_IDENTIFIER, Base128(first.value) + Subidentifiers(arcs[2..])))
  }

  // The number whose digits end at the first byte below 128 from i on, read after a higher part.
  function Decode(s: Bytes, i: nat, high: nat): Option<Length>
    decreases |s| - i
  {
    if i >= |s| then None
    else if s[i] < 128 then Some(Length(128 * high + s[i], i + 1))
    else Decode(s, i + 1, 128 * high + (s[i] - 128))
  }

  lemma {:induction false} ContinuedDecodes(s: Bytes, i: nat, v: nat)
    requires At(s, i, Continued(v))
    ensures Decode(s, i, 0) == Decode(s, i + |Continued(v)|, v)
    decreases v
  {
    if v != 0 {
      AtParts(s, i, Continued(v / 128), [0x80 + v % 128]);
      ContinuedDecodes(s, i, v / 128);
      var k := i + |Continued(v / 128)|;
      assert s[k] == s[k..k + 1][0];
    }
  }

  lemma Base128Decodes(s: Bytes, i: nat, v: nat)
    requires At(s, i, Base128(v))
    ensures Decode(s, i, 0) == Some(Length(v, i + |Base128(v)|))
  {
    hide Continued;
    AtParts(s, i, Continued(v / 128), [v % 128]);
    ContinuedDecodes(s, i, v / 128);
    var k := i + |Continued(v / 128)|;
    assert s[k] == s[k..k + 1][0];
  }

  lemma {:induction false} SubidentifiersInjective(a: seq<u64>, b: seq<u64>, s: Bytes, i: nat)
    requires i <= |s| && s[i..] == Subidentifiers(a) == Subidentifiers(b)
    ensures a == b
    decreases |a|
  {
    hide Base128;
    Base128Nonempty();
    if a != [] && b != [] {
      var x, y: nat := a[0], b[0];
      assert s[i..i + |s[i..]|] == s[i..];
      AtParts(s, i, Base128(x), Subidentifiers(a[1..]));
      AtParts(s, i, Base128(y), Subidentifiers(b[1..]));
      Base128Decodes(s, i, x);
      Base128Decodes(s, i, y);
      var k := i + |Base128(x)|;
      assert s[k..] == s[k..k + |Subidentifiers(a[1..])|] == s[k..k + |Subidentifiers(b[1..])|];
      SubidentifiersInjective(a[1..], b[1..], s, k);
      assert a == [a[0]] + a[1..] && b == [b[0]] + b[1..];
    }
  }

  lemma Base128Nonempty()
    ensures forall v: nat :: |Base128(v)| >= 1
  {
  }

  lemma FirstInjective(a: u64, b: u64, c: u64, d: u64)
    requires FirstSubidentifier(a, b).Some? && FirstSubidentifier(a, b) == FirstSubidentifier(c, d)
    ensures a == c && b == d
  {
  }

  // Equal elements have equal contents.
  lemma WrapInjective(tag: byte, a: Bytes, b: Bytes)
    requires |Wrap(tag, a)| < USIZE && Wrap(tag, a) == Wrap(tag, b) && IsLowTag(tag)
    ensures a == b
  {
    hide Wrap, TlvAt, IsLowTag;
    var s := Wrap(tag, a);
    assert s[0..|s|] == s;
    TlvWritten(s, 0, tag, a);
    TlvWritten(s, 0, tag, b);
  }

  /** Different arcs have different encodings. */
  lemma ObjectIdentifierInjective(a: seq<u64>, b: seq<u64>)
    requires ObjectIdentifier(a).Ok? && ObjectIdentifier(a) == ObjectIdentifier(b) && |ObjectIdentifier(a).value| < USIZE
    ensures a == b
  {
    hide Base128, Wrap, FirstSubidentifier;
    var x, y := FirstSubidentifier(a[0], a[1]).value, FirstSubidentifier(b[0], b[1]).value;
    var xs, ys := [x] + a[2..], [y] + b[2..];
    assert xs[1..] == a[2..] && ys[1..] == b[2..];
    WrapInjective(TAG_OBJECT_IDENTIFIER, Subidentifiers(xs), Subidentifiers(ys));
    var s := Subidentifiers(xs);
    assert s[0..] == s;
    SubidentifiersInjective(xs, ys, s, 0);
    assert xs[0] == ys[0];
    FirstInjective(a[0], a[1], b[0], b[1]);
    assert a == [a[0], a[1]] + xs[1..] && b == [b[0], b[1]] + ys[1..];
  }

  // ----- the reader -----

  /** Reads one byte region from the front. */
  class DerReader {
    const input: Bytes
    var position: nat

    ghost predicate Valid()
      reads this
    {
      position <= |input| < USIZE
    }

    constructor (input: Bytes)
      requires |input| < USIZE
      ensures Valid() && this.input == input && position == 0
    {
      this.input := input;
      position := 0;
    }

    method TakeByte() returns (r: Result<byte, DerError>)
      requires Valid()
      modifies this
      ensures Valid()
      ensures r == (if old(position) < |input| then Ok(input[old(position)]) else Err(Truncated))
      ensures position == old(position) + (if r.Ok? then 1 else 0)
    {
      if position == |input| {
        return Err(Truncated);
      }
      r := Ok(input[position]);
      position := position + 1;
    }

    method ReadLength() returns (r: Result<nat, DerError>)
      requires Valid()
      modifies this
      ensures Valid() && old(position) <= position
      ensures var read := LengthAt(input, old(position));
              if read.Ok? then r == Ok(read.value.value) && position == read.value.next else r == Err(read.error)
    {
      hide BE;
      var first := TakeByte();
      if first.Err? {
        return Err(first.error);
      }
      if first.value < 0x80 {
        return Ok(first.value);
      }
      var count := first.value - 0x80;
      if count == 0 {
        return Err(IndefiniteLength);
      }
      if count > 8 {
        return Err(LengthOverflow);
      }
      if |input| - position < count {
        return Err(Truncated);
      }
      if input[position] == 0 {
        return Err(NonCanonicalLength);
      }
      ghost var start := position;
      var length: nat := 0;
      EmptyValue(input, start);
      for k := 0 to count
        invariant position == start + k && Valid()
        invariant length == BE(input[start..start + k])
      {
        OneMoreByte(input, start, k);
        EightBytesFit(input[start..start + k + 1]);
        if 256 * length + input[position] >= USIZE {
          return Err(LengthOverflow);
        }
        length := 256 * length + input[position];
        position := position + 1;
      }
      if length < 128 {
        return Err(NonCanonicalLength);
      }
      r := Ok(length);
    }

    method ReadTlv() returns (r: Result<Element, DerError>)
      requires Valid()
      modifies this
      ensures Valid() && old(position) <= position
      ensures r == TlvAt(input, old(position))
      ensures r.Ok? ==> position == r.value.next
    {
      hide LengthAt;
      var tag := TakeByte();
      if tag.Err? {
        return Err(tag.error);
      }
      if !IsLowTag(tag.value) {
        return Err(HighTagNumberUnsupported(tag.value));
      }
      var length := ReadLength();
      if length.Err? {
        return Err(length.error);
      }
      var end := position + length.value;
      if end >= USIZE {
        return Err(LengthOverflow);
      }
      if end > |input| {
        return Err(Truncated);
      }
      r := Ok(Element(tag.value, input[position..end], end));
      position := end;
    }

    method ReadExpected(expected: byte) returns (r: Result<Element, DerError>)
      requires Valid()
      modifies this
      ensures Valid() && old(position) <= position
      ensures var read := TlvAt(input, old(position));
              r == (if read.Ok? && read.value.tag != expected then Err(UnexpectedTag(expected, read.value.tag)) else read)
      ensures TlvAt(input, old(position)).Ok? ==> position == TlvAt(input, old(position)).value.next
    {
      r := ReadTlv();
      if r.Ok? && r.value.tag != expected {
        r := Err(UnexpectedTag(expected, r.value.tag));
      }
    }

    method ReadIntegerUnsigned() returns (r: Result<Bytes, DerError>)
      requires Valid()
      modifies this
      ensures Valid() && old(position) <= position
      ensures var read := IntegerAt(input, old(position));
              if read.Ok? then r == Ok(read.value.bytes) && position == read.value.next else r == Err(read.error)
      ensures TlvAt(input, old(position)).Ok? ==> position == TlvAt(input, old(position)).value.next
    {
      var value := ReadExpected(TAG_INTEGER);
      if value.Err? {
        return Err(value.error);
      }
      var content := value.value.content;
      if content == [] {
        return Err(InvalidInteger);
      }
      if content[0] >= 0x80 {
        return Err(InvalidInteger);
      }
      if |content| > 1 && content[0] == 0 && content[1] < 0x80 {
        return Err(InvalidInteger);
      }
      r := Ok(if |content| > 1 && content[0] == 0 then content[1..] else content);
    }

    method Finish() returns (r: Result<(), DerError>)
      requires Valid()
      ensures r.Ok? <==> position == |input|
      ensures r.Err? ==> r.error == TrailingData(|input| - position)
    {
      if position == |input| {
        return Ok(());
      }
      r := Err(TrailingData(|input| - position));
    }
  }

  lemma EmptyValue(s: Bytes, i: nat)
    requires i <= |s|
    ensures BE(s[i..i]) == 0
  {
  }

  lemma OneMoreByte(s: Bytes, i: nat, k: nat)
    requires i + k < |s|
    ensures BE(s[i..i + k + 1]) == 256 * BE(s[i..i + k]) + s[i + k]
  {
    assert s[i..i + k + 1][..k] == s[i..i + k];
  }

  lemma EightBytesFit(s: Bytes)
    requires |s| <= 8
    ensures BE(s) < USIZE
  {
    BEBound(s);
    Pow256Grows(|s|, 8);
    Pow256Of8();
  }

  // ----- the writer -----

  // Where the bytes that matter start.
  method FirstSignificant(bytes: Bytes) returns (first: nat)
    ensures first <= |bytes| && bytes[first..] == Significant(bytes)
  {
    first := 0;
    while first < |bytes| && bytes[first] == 0
      invariant first <= |bytes| && Significant(bytes[first..]) == Significant(bytes)
    {
      assert bytes[first..][1..] == bytes[first + 1..];
      first := first + 1;
    }
  }

  method PushDerLength(output: Bytes, length: nat) returns (r: Bytes)
    requires length < USIZE
    ensures r == output + LengthBytes(length)
  {
    hide ToBE, Significant;
    if length < 128 {
      return output + [length];
    }
    var bytes := ToBE(length, 8);
    LongLength(length);
    var first := FirstSignificant(bytes);
    var significant := bytes[first..];
    r := output + [0x80 + |significant|];
    r := r + significant;
  }

  method DerWrap(tag: byte, content: Bytes) returns (output: Bytes)
    requires |content| < USIZE
    ensures output == Wrap(tag, content)
  {
    output := [tag];
    output := PushDerLength(output, |content|);
    output := output + content;
  }

  method DerIntegerUnsigned(value: Bytes) returns (output: Bytes)
    requires |value| + 1 < USIZE
    ensures output == IntegerUnsigned(value)
  {
    hide Significant, Wrap;
    var first := FirstSignificant(value);
    var content: Bytes := [];
    if first == |value| {
      content := content + [0];
    } else {
      var significant := value[first..];
      if significant[0] >= 0x80 {
        content := content + [0];
      }
      content := content + significant;
    }
    assert content == IntegerContent(value);
    output := DerWrap(TAG_INTEGER, content);
  }

  function Power128(k: nat): (r: nat)
    ensures r >= 1
  {
    if k == 0 then 1 else 128 * Power128(k - 1)
  }

  lemma TenDigits()
    ensures Power128(10) >= USIZE
  {
    assert Power128(2) == 0x4000;
    assert Power128(4) == 0x1000_0000;
    assert Power128(6) == 0x400_0000_0000;
    assert Power128(8) == 0x100_0000_0000_0000;
  }

  // The digits in base 128 without their marks, at least one.
  function Digits(v: nat): (r: Bytes)
    ensures |r| >= 1 && forall i :: 0 <= i < |r| ==> r[i] < 128
  {
    (if v < 128 then [] else Digits(v / 128)) + [v % 128]
  }

  lemma {:induction false} DigitCount(v: nat, k: nat)
    requires k >= 1 && v < Power128(k)
    ensures |Digits(v)| <= k
    decreases k
  {
    if v >= 128 {
      DigitCount(v / 128, k - 1);
    }
  }

  // The digits, marked as continued.
  function Marks(digits: Bytes): (r: Bytes)
    requires forall i :: 0 <= i < |digits| ==> digits[i] < 128
    ensures |r| == |digits|
    decreases |digits|
  {
    if digits == [] then [] else Marks(digits[..|digits| - 1]) + [digits[|digits| - 1] + 0x80]
  }

  lemma {:induction false} MarksContinue(v: nat)
    requires v > 0
    ensures Marks(Digits(v)) == Continued(v)
    decreases v
  {
    hide Marks;
    if v >= 128 {
      MarksContinue(v / 128);
      MarksAppend(Digits(v / 128), v % 128);
    } else {
      MarksAppend([], v);
      NoMarks();
      assert Digits(v) == [] + [v] && v / 128 == 0;
    }
  }

  lemma MarksAppend(digits: Bytes, d: byte)
    requires d < 128 && forall i :: 0 <= i < |digits| ==> digits[i] < 128
    ensures Marks(digits + [d]) == Marks(digits) + [d + 0x80]
  {
    var all := digits + [d];
    assert all[..|all| - 1] == digits;
    assert Marks(all) == Marks(all[..|all| - 1]) + [all[|all| - 1] + 0x80];
  }

  lemma NoMarks()
    ensures Marks([]) == []
  {
  }

  // Every digit but the last is marked.
  lemma MarkedDigits(v: nat)
    ensures var digits := Digits(v); Base128(v) == Marks(digits[..|digits| - 1]) + [digits[|digits| - 1]]
  {
    var digits := Digits(v);
    if v >= 128 {
      assert digits[..|digits| - 1] == Digits(v / 128);
      MarksContinue(v / 128);
    } else {
      assert digits[..|digits| - 1] == [];
      assert v / 128 == 0;
    }
  }

  // Fills a ten-byte buffer from its end, one digit at a time.
  method SplitDigits(value: u64) returns (bytes: array<byte>, index: nat)
    ensures fresh(bytes) && bytes.Length == 10 && index < 10
    ensures bytes[index..] == Digits(value)
  {
    hide Power128;
    TenDigits();
    DigitCount(value, 10);
    bytes := new byte[10](_ => 0);
    index := 10;
    var rest: nat := value;
    var more := true;
    while more
      invariant index <= 10 && (more ==> Digits(value) == Digits(rest) + bytes[index..])
      invariant !more ==> index < 10 && bytes[index..] == Digits(value)
      decreases more, rest
    {
      index := index - 1;
      ghost var tail := bytes[index + 1..];
      bytes[index] := rest % 128;
      assert bytes[index..] == [rest % 128] + tail;
      DigitsStep(rest, tail);
      rest := rest / 128;
      more := rest != 0;
    }
  }

  lemma DigitsStep(v: nat, tail: Bytes)
    ensures v < 128 ==> Digits(v) + tail == [v % 128] + tail
    ensures v >= 128 ==> Digits(v) + tail == Digits(v / 128) + ([v % 128] + tail)
  {
  }

  method PushBase128(output: Bytes, value: u64) returns (r: Bytes)
    ensures r == output + Base128(value)
  {
    hide Digits, Base128;
    var bytes, index := SplitDigits(value);
    ghost var digits := Digits(value);
    MarkedDigits(value);
    r := output;
    for position := index to 9
      invariant r == output + Marks(digits[..position - index])
    {
      ghost var k := position - index;
      assert digits[k] == bytes[position];
      assert digits[..k + 1][..k] == digits[..k];
      r := r + [bytes[position] + 0x80];
    }
    assert digits[9 - index] == bytes[9];
    r := r + [bytes[9]];
  }

  method DerObjectIdentifier(arcs: seq<u64>) returns (r: Result<Bytes, DerError>)
    requires 11 * |arcs| < USIZE
    ensures r == ObjectIdentifier(arcs)
  {
    hide Base128;
    if |arcs| < 2 {
      return Err(InvalidObjectIdentifier);
    }
    var first := FirstSubidentifier(arcs[0], arcs[1]);
    if first.None? {
      return Err(InvalidObjectIdentifier);
    }
    var content := PushBase128([], first.value);
    SubidentifiersFit(arcs[2..]);
    Base128Fits(first.value);
    ghost var whole := Base128(first.value) + Subidentifiers(arcs[2..]);
    for i := 2 to |arcs|
      invariant content + Subidentifiers(arcs[i..]) == whole
    {
      ghost var before := content;
      content := PushBase128(content, arcs[i]);
      assert arcs[i..][1..] == arcs[i + 1..];
      assert before + (Base128(arcs[i]) + Subidentifiers(arcs[i + 1..])) == content + Subidentifiers(arcs[i + 1..]);
    }
    assert arcs[|arcs|..] == [] && content + [] == content;
    var wrapped := DerWrap(TAG_OBJECT_IDENTIFIER, content);
    r := Ok(wrapped);
  }

  lemma Base128Fits(v: u64)
    ensures |Base128(v)| <= 10
  {
    TenDigits();
    DigitCount(v, 10);
    MarkedDigits(v);
  }

  lemma {:induction false} SubidentifiersFit(values: seq<u64>)
    ensures |Subidentifiers(values)| <= 10 * |values|
    decreases |values|
  {
    hide Base128;
    if values != [] {
      Base128Fits(values[0]);
      SubidentifiersFit(values[1..]);
    }
  }
}
