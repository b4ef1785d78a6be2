/** Base64 (section 4 of RFC 4648): the encoder, and the strict decoder used
    for PEM. */
module Base64 {
  import opened Words

  type Bytes = seq<byte>
  type Sextet = v: int | 0 <= v < 64
  type Alphabet = s: Bytes | |s| == 64 witness seq(64, _ => 0)

  const PAD: byte := 61

  function StandardSymbol(v: Sextet): byte {
    if v < 26 then v + 65 else if v < 52 then v + 71 else if v < 62 then v - 4 else if v == 62 then 43 else 47
  }

  function UrlSymbol(v: Sextet): byte {
    if v == 62 then 45 else if v == 63 then 95 else StandardSymbol(v)
  }

  function StandardAlphabet(): Alphabet {
    seq(64, i requires 0 <= i < 64 => StandardSymbol(i))
  }

  function UrlAlphabet(): Alphabet {
    seq(64, i requires 0 <= i < 64 => UrlSymbol(i))
  }

  // The value of a symbol of the standard alphabet.
  function SymbolValue(b: byte): (r: Option<Sextet>)
    ensures r.Some? ==> StandardSymbol(r.value) == b
  {
    if 65 <= b <= 90 then Some(b - 65)
    else if 97 <= b <= 122 then Some(b - 71)
    else if 48 <= b <= 57 then Some(b + 4)
    else if b == 43 then Some(62)
    else if b == 47 then Some(63)
    else None
  }

  // ----- the sextets of up to three bytes -----

  function First(a: byte): Sextet {
    a / 4
  }

  function Second(a: byte, b: byte): Sextet {
    a % 4 * 16 + b / 16
  }

  function Third(b: byte, c: byte): Sextet {
    b % 16 * 4 + c / 64
  }

  function Fourth(c: byte): Sextet {
    c % 64
  }

  function Encode(input: Bytes, alphabet: Alphabet, padded: bool): Bytes
    decreases |input|
  {
    if input == [] then []
    else if |input| == 1 then
      [alphabet[First(input[0])], alphabet[Second(input[0], 0)]] + (if padded then [PAD, PAD] else [])
    else if |input| == 2 then
      [alphabet[First(input[0])], alphabet[Second(input[0], input[1])], alphabet[Third(input[1], 0)]]
      + (if padded then [PAD] else [])
    else
      [alphabet[First(input[0])], alphabet[Second(input[0], input[1])], alphabet[Third(input[1], input[2])],
       alphabet[Fourth(input[2])]]
      + Encode(input[3..], alphabet, padded)
  }

  function EncodeStandard(input: Bytes): Bytes {
    Encode(input, StandardAlphabet(), true)
  }

  // The last group of fewer than three bytes.
  lemma EncodeEnd(rest: Bytes, alphabet: Alphabet, padded: bool)
    requires |rest| < 3
    ensures rest == [] ==> Encode(rest, alphabet, padded) == []
    ensures |rest| == 1 ==> (Encode(rest, alphabet, padded)
                             == [alphabet[First(rest[0])], alphabet[Second(rest[0], 0)]] + (if padded then [PAD, PAD] else []))
    ensures |rest| == 2 ==> (Encode(rest, alphabet, padded)
                             == [alphabet[First(rest[0])], alphabet[Second(rest[0], rest[1])], alphabet[Third(rest[1], 0)]]
                                + (if padded then [PAD] else []))
  {
  }

  function FullGroup(a: byte, b: byte, c: byte, alphabet: Alphabet): Bytes {
    [alphabet[First(a)], alphabet[Second(a, b)], alphabet[Third(b, c)], alphabet[Fourth(c)]]
  }

  lemma EncodeMore(input: Bytes, alphabet: Alphabet, padded: bool)
    requires |input| >= 3
    ensures Encode(input, alphabet, padded)
         == FullGroup(input[0], input[1], input[2], alphabet) + Encode(input[3..], alphabet, padded)
  {
  }

  // ----- decoding -----

  // The bytes of the quartet; only the last one may be padded, and unused bits must be zero.
  function DecodeQuartet(q: Bytes, last: bool): Option<Bytes>
    requires |q| == 4
  {
    var first, second := SymbolValue(q[0]), SymbolValue(q[1]);
    if first.None? || second.None? then None
    else
      var a: byte := first.value * 4 + second.value / 16;
      if q[2] == PAD then
        if q[3] != PAD || !last || second.value % 16 != 0 then None else Some([a])
      else
        var third := SymbolValue(q[2]);
        if third.None? then None
        else
          var b: byte := second.value % 16 * 16 + third.value / 4;
          if q[3] == PAD then
            if !last || third.value % 4 != 0 then None else Some([a, b])
          else
            var fourth := SymbolValue(q[3]);
            if fourth.None? then None else Some([a, b, third.value % 4 * 64 + fourth.value])
  }

  function DecodeQuartets(s: Bytes): Option<Bytes>
    requires |s| % 4 == 0
    decreases |s|
  {
    if s == [] then Some([])
    else
      var bytes := DecodeQuartet(s[..4], |s| == 4);
      if bytes.None? then None
      else
        var rest := DecodeQuartets(s[4..]);
        if rest.None? then None else Some(bytes.value + rest.value)
  }

  function Decode(s: Bytes): Option<Bytes> {
    if |s| % 4 != 0 then None else DecodeQuartets(s)
  }

  // ----- the two directions -----

  lemma StandardAt(v: Sextet)
    ensures StandardAlphabet()[v] == StandardSymbol(v) && SymbolValue(StandardSymbol(v)) == Some(v)
    ensures StandardSymbol(v) != PAD
  {
  }

  lemma Triple(a: byte, b: byte, c: byte)
    ensures First(a) * 4 + Second(a, b) / 16 == a
    ensures Second(a, b) % 16 * 16 + Third(b, c) / 4 == b
    ensures Third(b, c) % 4 * 64 + Fourth(c) == c
    ensures Second(a, 0) % 16 == 0 && Third(b, 0) % 4 == 0
  {
    assert (a % 4 * 16 + b / 16) / 16 == a % 4;
    assert (a % 4 * 16 + b / 16) % 16 == b / 16;
    assert (b % 16 * 4 + c / 64) / 4 == b % 16;
    assert (b % 16 * 4 + c / 64) % 4 == c / 64;
  }

  lemma FullQuartet(a: byte, b: byte, c: byte, last: bool)
    ensures DecodeQuartet(FullGroup(a, b, c, StandardAlphabet()), last) == Some([a, b, c])
  {
    hide StandardAlphabet, StandardSymbol, SymbolValue, First, Second, Third, Fourth;
    Triple(a, b, c);
    StandardAt(First(a));
    StandardAt(Second(a, b));
    StandardAt(Third(b, c));
    StandardAt(Fourth(c));
  }

  lemma PaddedQuartets(a: byte, b: byte)
    ensures var k := StandardAlphabet();
            && DecodeQuartet([k[First(a)], k[Second(a, 0)], PAD, PAD], true) == Some([a])
            && DecodeQuartet([k[First(a)], k[Second(a, b)], k[Third(b, 0)], PAD], true) == Some([a, b])
  {
    hide StandardAlphabet, StandardSymbol, SymbolValue, First, Second, Third, Fourth;
    Triple(a, b, 0);
    Triple(a, 0, 0);
    StandardAt(First(a));
    StandardAt(Second(a, 0));
    StandardAt(Second(a, b));
    StandardAt(Third(b, 0));
  }

  lemma {:induction false} EncodedLength(input: Bytes)
    ensures |EncodeStandard(input)| % 4 == 0 && (EncodeStandard(input) == [] <==> input == [])
    decreases |input|
  {
    hide StandardAlphabet, First, Second, Third, Fourth, Encode;
    if |input| >= 3 {
      EncodeMore(input, StandardAlphabet(), true);
      EncodedLength(input[3..]);
    } else {
      EncodeEnd(input, StandardAlphabet(), true);
    }
  }

  /** Decoding undoes encoding. */
  lemma {:induction false} Base64RoundTrip(input: Bytes)
    ensures Decode(EncodeStandard(input)) == Some(input)
    decreases |input|
  {
    hide StandardAlphabet, DecodeQuartet, First, Second, Third, Fourth, Encode, FullGroup, Decode;
    EncodedLength(input);
    if |input| < 3 {
      EncodeEnd(input, StandardAlphabet(), true);
    }
    var s, k := EncodeStandard(input), StandardAlphabet();
    if |input| == 1 {
      PaddedQuartets(input[0], 0);
      assert input == [input[0]];
      LastQuartet(s, [k[First(input[0])], k[Second(input[0], 0)], PAD, PAD], [input[0]]);
    } else if |input| == 2 {
      PaddedQuartets(input[0], input[1]);
      assert input == [input[0], input[1]];
      LastQuartet(s, [k[First(input[0])], k[Second(input[0], input[1])], k[Third(input[1], 0)], PAD], [input[0], input[1]]);
    } else if |input| >= 3 {
      var q := FullGroup(input[0], input[1], input[2], k);
      EncodeMore(input, k, true);
      FullGroupLength(input[0], input[1], input[2], k);
      FullQuartet(input[0], input[1], input[2], |s| == 4);
      EncodedLength(input[3..]);
      Base64RoundTrip(input[3..]);
      assert input[..3] == [input[0], input[1], input[2]] && input == input[..3] + input[3..];
      MoreQuartets(q, EncodeStandard(input[3..]), input[..3]);
    } else {
      NothingDecodes();
    }
  }

  lemma NothingDecodes()
    ensures Decode([]) == Some([])
  {
  }

  lemma FullGroupLength(a: byte, b: byte, c: byte, alphabet: Alphabet)
    ensures |FullGroup(a, b, c, alphabet)| == 4
  {
  }

  lemma LastQuartet(s: Bytes, q: Bytes, bytes: Bytes)
    requires |q| == 4 && s == q && DecodeQuartet(q, true) == Some(bytes)
    ensures Decode(s) == Some(bytes)
  {
    hide DecodeQuartet;
    var none: Bytes := [];
    assert s[..4] == q && s[4..] == none && bytes + none == bytes;
    assert DecodeQuartets(none) == Some(none);
  }

  lemma MoreQuartets(q: Bytes, rest: Bytes, bytes: Bytes)
    requires |q| == 4 && |rest| % 4 == 0 && DecodeQuartet(q, |q + rest| == 4) == Some(bytes) && Decode(rest).Some?
    ensures Decode(q + rest) == Some(bytes + Decode(rest).value)
  {
    hide DecodeQuartet;
    assert (q + rest)[..4] == q && (q + rest)[4..] == rest;
  }

  // The symbols of a decoded quartet are those of its bytes.
  lemma QuartetCanonical(q: Bytes, last: bool)
    requires |q| == 4 && DecodeQuartet(q, last).Some?
    ensures var bytes := DecodeQuartet(q, last).value;
            1 <= |bytes| <= 3 && (|bytes| < 3 ==> last) && EncodeStandard(bytes) == q
  {
    hide StandardAlphabet, StandardSymbol, Encode, SymbolValue;
    var bytes := DecodeQuartet(q, last).value;
    var first, second := SymbolValue(q[0]).value, SymbolValue(q[1]).value;
    StandardAt(first);
    StandardAt(second);
    assert q == [q[0], q[1], q[2], q[3]];
    if q[2] == PAD {
      EncodeEnd(bytes, StandardAlphabet(), true);
      assert First(bytes[0]) == first && Second(bytes[0], 0) == second;
    } else {
      var third := SymbolValue(q[2]).value;
      StandardAt(third);
      assert First(bytes[0]) == first && Second(bytes[0], bytes[1]) == second;
      if q[3] == PAD {
        EncodeEnd(bytes, StandardAlphabet(), true);
        assert Third(bytes[1], 0) == third;
      } else {
        var fourth := SymbolValue(q[3]).value;
        StandardAt(fourth);
        assert Third(bytes[1], bytes[2]) == third && Fourth(bytes[2]) == fourth;
        EncodeMore(bytes, StandardAlphabet(), true);
        EncodeEnd(bytes[3..], StandardAlphabet(), true);
        assert bytes[3..] == [];
      }
    }
  }

  lemma EncodeJoin(bytes: Bytes, rest: Bytes)
    requires |bytes| == 3
    ensures EncodeStandard(bytes + rest) == EncodeStandard(bytes) + EncodeStandard(rest)
  {
    hide StandardAlphabet, FullGroup, Encode;
    var k := StandardAlphabet();
    EncodeMore(bytes + rest, k, true);
    EncodeMore(bytes, k, true);
    EncodeEnd(bytes[3..], k, true);
    assert (bytes + rest)[3..] == rest && bytes[3..] == [];
  }

  /** Every accepted text is the encoding of what it decodes to. */
  lemma {:induction false} Base64Canonical(s: Bytes)
    requires Decode(s).Some?
    ensures EncodeStandard(Decode(s).value) == s
    decreases |s|
  {
    hide DecodeQuartet, Encode, StandardAlphabet, EncodeStandard;
    if s == [] {
      EncodedLength([]);
    } else {
      QuartetCanonical(s[..4], |s| == 4);
      var bytes := DecodeQuartet(s[..4], |s| == 4).value;
      var rest := DecodeQuartets(s[4..]).value;
      Base64Canonical(s[4..]);
      assert s == s[..4] + s[4..];
      if |s| == 4 {
        assert s[4..] == [] && rest == [] && bytes + rest == bytes;
      } else {
        EncodeJoin(bytes, rest);
      }
    }
  }

  // ----- without padding (section 5) -----

  ghost predicate Distinct(alphabet: Alphabet) {
    forall v: Sextet, w: Sextet :: alphabet[v] == alphabet[w] ==> v == w
  }

  lemma UrlDistinct()
    ensures Distinct(UrlAlphabet())
  {
    forall v: Sextet, w: Sextet | UrlAlphabet()[v] == UrlAlphabet()[w] ensures v == w {
      assert UrlSymbol(v) == UrlSymbol(w);
      StandardAt(v);
      StandardAt(w);
    }
  }

  lemma {:induction false} UnpaddedLength(input: Bytes, alphabet: Alphabet)
    ensures |Encode(input, alphabet, false)| == 4 * (|input| / 3) + [0, 2, 3][|input| % 3]
    decreases |input|
  {
    hide First, Second, Third, Fourth, Encode;
    if |input| >= 3 {
      EncodeMore(input, alphabet, false);
      UnpaddedLength(input[3..], alphabet);
    } else {
      EncodeEnd(input, alphabet, false);
    }
  }

  lemma GroupInjective(a: byte, b: byte, c: byte, a': byte, b': byte, c': byte, alphabet: Alphabet)
    requires Distinct(alphabet) && FullGroup(a, b, c, alphabet) == FullGroup(a', b', c', alphabet)
    ensures a == a' && b == b' && c == c'
  {
    hide First, Second, Third, Fourth;
    var q, q' := FullGroup(a, b, c, alphabet), FullGroup(a', b', c', alphabet);
    assert q[0] == q'[0] && q[1] == q'[1] && q[2] == q'[2] && q[3] == q'[3];
    Triple(a, b, c);
    Triple(a', b', c');
  }

  lemma EndInjective(s: Bytes, t: Bytes, alphabet: Alphabet)
    requires Distinct(alphabet) && |s| == |t| < 3 && Encode(s, alphabet, false) == Encode(t, alphabet, false)
    ensures s == t
  {
    hide First, Second, Third, Fourth, Encode;
    EncodeEnd(s, alphabet, false);
    EncodeEnd(t, alphabet, false);
    var q, q' := Encode(s, alphabet, false), Encode(t, alphabet, false);
    if |s| == 1 {
      assert q[0] == q'[0] && q[1] == q'[1];
      Triple(s[0], 0, 0);
      Triple(t[0], 0, 0);
    } else if |s| == 2 {
      assert q[0] == q'[0] && q[1] == q'[1] && q[2] == q'[2];
      Triple(s[0], s[1], 0);
      Triple(t[0], t[1], 0);
    }
  }

  lemma {:induction false} UnpaddedInjective(s: Bytes, t: Bytes, alphabet: Alphabet)
    requires Distinct(alphabet) && Encode(s, alphabet, false) == Encode(t, alphabet, false)
    ensures s == t
    decreases |s|
  {
    hide First, Second, Third, Fourth, Encode, FullGroup, Distinct;
    UnpaddedLength(s, alphabet);
    UnpaddedLength(t, alphabet);
    if |s| < 3 {
      EndInjective(s, t, alphabet);
    } else {
      EncodeMore(s, alphabet, false);
      EncodeMore(t, alphabet, false);
      var q, q' := FullGroup(s[0], s[1], s[2], alphabet), FullGroup(t[0], t[1], t[2], alphabet);
      var e, e' := Encode(s[3..], alphabet, false), Encode(t[3..], alphabet, false);
      FullGroupLength(s[0], s[1], s[2], alphabet);
      FullGroupLength(t[0], t[1], t[2], alphabet);
      assert q == (q + e)[..4] == (q' + e')[..4] == q' && e == (q + e)[4..] == (q' + e')[4..] == e';
      GroupInjective(s[0], s[1], s[2], t[0], t[1], t[2], alphabet);
      UnpaddedInjective(s[3..], t[3..], alphabet);
      assert s == s[..3] + s[3..] && t == t[..3] + t[3..];
    }
  }

  /** The URL-safe form without padding still determines the bytes. */
  lemma UrlUnpaddedInjective(s: Bytes, t: Bytes)
    requires Encode(s, UrlAlphabet(), false) == Encode(t, UrlAlphabet(), false)
    ensures s == t
  {
    UrlDistinct();
    UnpaddedInjective(s, t, UrlAlphabet());
  }

  // ----- the loops, with their shifts and masks -----

  lemma JoinBits(high: nat, low: nat, k: nat)
    requires high % Pow2(k) == 0 && low < Pow2(k)
    ensures Or(high, low) == high + low
  {
    OrDisjoint(low, high, k);
  }

  lemma Masks(b: byte)
    ensures And(b, 3) == b % 4 && And(b, 15) == b % 16 && And(b, 63) == b % 64
  {
    assert Pow2(2) == 4 && Pow2(4) == 16 && Pow2(6) == 64;
    AndMask(b, 2);
    AndMask(b, 4);
    AndMask(b, 6);
  }

  lemma EncodeBits(a: byte, b: byte)
    ensures Or(And(a, 3) * 16, b / 16) == Second(a, b) && Or(And(a, 15) * 4, b / 64) == Third(a, b)
  {
    hide Or, And;
    assert Pow2(2) == 4 && Pow2(4) == 16;
    Masks(a);
    JoinBits(a % 4 * 16, b / 16, 4);
    JoinBits(a % 16 * 4, b / 64, 2);
  }

  // Appends the four characters of three bytes.
  method PushGroup(output: Bytes, a: byte, b: byte, c: byte, alphabet: Alphabet) returns (r: Bytes)
    ensures r == output + FullGroup(a, b, c, alphabet)
  {
    hide Or, And, First, Second, Third, Fourth;
    var x: int, y: int, z: int := a, b, c;
    EncodeBits(a, b);
    EncodeBits(b, c);
    Quarters(a, c);
    r := output + [alphabet[x / 4]];
    r := r + [alphabet[Or(And(x, 3) * 16, y / 16)]];
    r := r + [alphabet[Or(And(y, 15) * 4, z / 64)]];
    r := r + [alphabet[And(z, 63)]];
  }

  method EncodeInner(input: Bytes, alphabet: Alphabet, padded: bool) returns (output: Bytes)
    ensures output == Encode(input, alphabet, padded)
  {
    hide Or, And, First, Second, Third, Fourth, Encode, FullGroup;
    output := [];
    var i := 0;
    assert input[0..] == input;
    while i + 3 <= |input|
      invariant i <= |input| && output + Encode(input[i..], alphabet, padded) == Encode(input, alphabet, padded)
    {
      var a: int, b: int, c: int := input[i], input[i + 1], input[i + 2];
      EncodeMore(input[i..], alphabet, padded);
      assert input[i..][3..] == input[i + 3..];
      ghost var before, q, rest := output, FullGroup(a, b, c, alphabet), Encode(input[i + 3..], alphabet, padded);
      output := PushGroup(output, a, b, c, alphabet);
      assert before + (q + rest) == before + q + rest;
      i := i + 3;
    }
    EncodeEnd(input[i..], alphabet, padded);
    if i + 1 == |input| {
      var a: int := input[i];
      EncodeBits(a, 0);
      Quarters(a, 0);
      OrZero(And(a, 3) * 16);
      output := output + ([alphabet[a / 4], alphabet[And(a, 3) * 16]] + (if padded then [PAD, PAD] else []));
    } else if i + 2 == |input| {
      var a: int, b: int := input[i], input[i + 1];
      EncodeBits(a, b);
      EncodeBits(b, 0);
      Quarters(a, b);
      OrZero(And(b, 15) * 4);
      output := output + ([alphabet[a / 4], alphabet[Or(And(a, 3) * 16, b / 16)], alphabet[And(b, 15) * 4]]
                          + (if padded then [PAD] else []));
    }
  }

  lemma Quarters(a: byte, c: byte)
    ensures a / 4 == First(a) && And(c, 63) == Fourth(c)
  {
    hide And;
    Masks(c);
  }

  lemma OrZero(a: nat)
    ensures Or(a, 0) == a
  {
  }

  lemma ShiftedOut(second: Sextet, third: Sextet)
    ensures second * 16 % 256 == second % 16 * 16 && third * 64 % 256 == third % 4 * 64
  {
    var a: int, b: int := second, third;
    assert a * 16 == 256 * (a / 16) + a % 16 * 16;
    assert b * 64 == 256 * (b / 4) + b % 4 * 64;
  }

  lemma DecodeBits(first: Sextet, second: Sextet, third: Sextet, fourth: Sextet)
    ensures Or(first * 4, second / 16) == first * 4 + second / 16
    ensures Or(second * 16 % 256, third / 4) == second % 16 * 16 + third / 4
    ensures Or(third * 64 % 256, fourth) == third % 4 * 64 + fourth
    ensures And(second, 15) == second % 16 && And(third, 3) == third % 4
  {
    hide Or, And;
    assert Pow2(2) == 4 && Pow2(4) == 16 && Pow2(6) == 64;
    Masks(second);
    Masks(third);
    ShiftedOut(second, third);
    JoinBits(first * 4, second / 16, 2);
    JoinBits(second % 16 * 16, third / 4, 4);
    JoinBits(third % 4 * 64, fourth, 6);
  }

  // The decoded bytes so far and what the rest decodes to.
  function Continue(output: Bytes, rest: Option<Bytes>): Option<Bytes> {
    if rest.None? then None else Some(output + rest.value)
  }

  lemma ContinueStep(output: Bytes, s: Bytes)
    requires |s| % 4 == 0 && s != []
    ensures var bytes := DecodeQuartet(s[..4], |s| == 4);
            Continue(output, DecodeQuartets(s))
            == if bytes.None? then None else Continue(output + bytes.value, DecodeQuartets(s[4..]))
  {
    hide DecodeQuartet;
    var bytes, rest := DecodeQuartet(s[..4], |s| == 4), DecodeQuartets(s[4..]);
    if bytes.Some? && rest.Some? {
      assert output + (bytes.value + rest.value) == output + bytes.value + rest.value;
    }
  }

  /** One quartet, with its shifts and masks; None is an error. */
  method QuartetBytes(q: Bytes, last: bool) returns (r: Option<Bytes>)
    requires |q| == 4
    ensures r == DecodeQuartet(q, last)
  {
    hide Or, And;
    if q[0] == PAD || q[1] == PAD {
      return None;
    }
    var first := SymbolValue(q[0]);
    if first.None? {
      return None;
    }
    var a: int := first.value;
    var second := SymbolValue(q[1]);
    if second.None? {
      return None;
    }
    var b: int := second.value;
    DecodeBits(a, b, 0, 0);
    var bytes: Bytes := [Or(a * 4, b / 16)];
    if q[2] == PAD {
      if q[3] != PAD || !last || And(b, 15) != 0 {
        return None;
      }
      return Some(bytes);
    }
    var third := SymbolValue(q[2]);
    if third.None? {
      return None;
    }
    var c: int := third.value;
    DecodeBits(a, b, c, 0);
    bytes := bytes + [Or(b * 16 % 256, c / 4)];
    if q[3] == PAD {
      if !last || And(c, 3) != 0 {
        return None;
      }
      assert bytes == [a * 4 + b / 16, b % 16 * 16 + c / 4];
      return Some(bytes);
    }
    var fourth := SymbolValue(q[3]);
    if fourth.None? {
      return None;
    }
    var d: int := fourth.value;
    DecodeBits(a, b, c, d);
    bytes := bytes + [Or(c * 64 % 256, d)];
    assert bytes == [a * 4 + b / 16, b % 16 * 16 + c / 4, c % 4 * 64 + d];
    r := Some(bytes);
  }

  method DecodeBase64(encoded: Bytes) returns (r: Option<Bytes>)
    ensures r == Decode(encoded)
  {
    hide DecodeQuartet, DecodeQuartets, Continue;
    if |encoded| % 4 != 0 {
      return None;
    }
    var output: Bytes := [];
    var i := 0;
    assert encoded[0..] == encoded;
    ContinueEnds(output, encoded);
    while i < |encoded|
      invariant i <= |encoded| && i % 4 == 0
      invariant Continue(output, DecodeQuartets(encoded[i..])) == DecodeQuartets(encoded)
    {
      var rest := encoded[i..];
      ContinueStep(output, rest);
      assert rest[..4] == encoded[i..i + 4] && rest[4..] == encoded[i + 4..];
      var bytes := QuartetBytes(encoded[i..i + 4], i + 4 == |encoded|);
      if bytes.None? {
        return None;
      }
      output := output + bytes.value;
      i := i + 4;
    }
    assert encoded[i..] == [];
    ContinueEnds(output, encoded);
    r := Some(output);
  }

  lemma ContinueEnds(output: Bytes, encoded: Bytes)
    requires |encoded| % 4 == 0
    ensures Continue([], DecodeQuartets(encoded)) == DecodeQuartets(encoded)
    ensures Continue(output, DecodeQuartets([])) == Some(output)
  {
    hide DecodeQuartet;
    var none: Bytes := [];
    assert output + none == output;
    var all := DecodeQuartets(encoded);
    if all.Some? {
      assert none + all.value == all.value;
    }
  }
}
