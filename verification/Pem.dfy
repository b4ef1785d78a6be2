/** The textual encoding of section 3 of RFC 7468: one labelled block, and a
    chain of certificates. */
module Pem {
  import opened Words
  import opened HttpSyntax
  import Base64

  const PEM_LINE_WIDTH := 64
  const BEGIN_BOUNDARY: Bytes := [45, 45, 45, 45, 45, 66, 69, 71, 73, 78, 32]
  const END_BOUNDARY: Bytes := [45, 45, 45, 45, 45, 69, 78, 68, 32]
  const DASHES: Bytes := [45, 45, 45, 45, 45]
  const DASH: byte := 45
  const CERTIFICATE: Bytes := [67, 69, 82, 84, 73, 70, 73, 67, 65, 84, 69]

  datatype PemError = InvalidPemLabel | PemBeginMissing | PemEndMissing | PemLabelMismatch | InvalidPemBase64

  // ----- labels and lines -----

  predicate IsLabelByte(b: byte) {
    65 <= b <= 90 || IsDigit(b) || b == SPACE || b == DASH
  }

  // Upper-case letters and digits, and between them single spaces and dashes.
  predicate IsLabel(name: Bytes) {
    && name != []
    && name[0] != SPACE && name[0] != DASH && name[|name| - 1] != SPACE && name[|name| - 1] != DASH
    && (forall i :: 0 <= i < |name| ==> IsLabelByte(name[i]))
    && (forall i :: 0 < i < |name| && (name[i] == SPACE || name[i] == DASH) ==> name[i - 1] != name[i])
  }

  function BeginLine(name: Bytes): Bytes {
    BEGIN_BOUNDARY + name + DASHES
  }

  function EndLine(name: Bytes): Bytes {
    END_BOUNDARY + name + DASHES
  }

  function StripCR(line: Bytes): Bytes {
    if line != [] && line[|line| - 1] == CR then line[..|line| - 1] else line
  }

  // The lines of a text, each without its line ending; a last line without a line feed counts.
  function Lines(text: Bytes): seq<Bytes>
    decreases |text|
  {
    if text == [] then []
    else
      var k := IndexFrom(text, LF, 0);
      if k == |text| then [text] else [StripCR(text[..k])] + Lines(text[k + 1..])
  }

  predicate IsWhitespace(b: byte) {
    b == SPACE || b == TAB || b == LF || b == 12 || b == CR
  }

  function WithoutWhitespace(s: Bytes): Bytes
    decreases |s|
  {
    if s == [] then []
    else (if IsWhitespace(s[0]) then [] else [s[0]]) + WithoutWhitespace(s[1..])
  }

  // ----- encoding -----

  function Wrapped(s: Bytes): Bytes
    decreases |s|
  {
    if s == [] then []
    else if |s| <= PEM_LINE_WIDTH then s + [LF]
    else s[..PEM_LINE_WIDTH] + [LF] + Wrapped(s[PEM_LINE_WIDTH..])
  }

  function PemText(name: Bytes, der: Bytes): Bytes {
    BeginLine(name) + [LF] + Wrapped(Base64.EncodeStandard(der)) + (EndLine(name) + [LF])
  }

  function PemEncode(name: Bytes, der: Bytes): Result<Bytes, PemError> {
    if !IsLabel(name) then Err(InvalidPemLabel) else Ok(PemText(name, der))
  }

  // ----- decoding one block -----

  // The Base64 text from inside a block to its end.
  function BlockText(lines: seq<Bytes>, name: Bytes, base64: Bytes): Result<Bytes, PemError>
    decreases |lines|
  {
    if lines == [] then Err(PemEndMissing)
    else
      var line := TrimEnd(lines[0]);
      if line == EndLine(name) then Ok(base64)
      else if END_BOUNDARY <= line then Err(PemLabelMismatch)
      else BlockText(lines[1..], name, base64 + WithoutWhitespace(line))
  }

  function FindBlock(lines: seq<Bytes>, name: Bytes): Result<Bytes, PemError>
    decreases |lines|
  {
    if lines == [] then Err(PemBeginMissing)
    else if TrimEnd(lines[0]) == BeginLine(name) then BlockText(lines[1..], name, [])
    else FindBlock(lines[1..], name)
  }

  function DecodeText(base64: Bytes): Result<Bytes, PemError> {
    var bytes := Base64.Decode(base64);
    if bytes.None? then Err(InvalidPemBase64) else Ok(bytes.value)
  }

  function PemDecode(name: Bytes, input: Bytes): Result<Bytes, PemError> {
    if !IsLabel(name) then Err(InvalidPemLabel)
    else
      var base64 := FindBlock(Lines(input), name);
      if base64.Err? then base64 else DecodeText(base64.value)
  }

  // ----- decoding a chain -----

  // The certificates from some line on; inside holds the Base64 text so far of the one being read.
  function ChainFrom(lines: seq<Bytes>, certificates: seq<Bytes>, inside: Option<Bytes>): Result<seq<Bytes>, PemError>
    decreases |lines|
  {
    if lines == [] then
      if inside.Some? then Err(PemEndMissing)
      else if certificates == [] then Err(PemBeginMissing)
      else Ok(certificates)
    else
      var line := TrimEnd(lines[0]);
      if inside.None? then
        ChainFrom(lines[1..], certificates, if line == BeginLine(CERTIFICATE) then Some([]) else None)
      else if line == EndLine(CERTIFICATE) then
        var der := DecodeText(inside.value);
        if der.Err? then Err(der.error) else ChainFrom(lines[1..], certificates + [der.value], None)
      else if BEGIN_BOUNDARY <= line || END_BOUNDARY <= line then Err(PemLabelMismatch)
      else ChainFrom(lines[1..], certificates, Some(inside.value + WithoutWhitespace(line)))
  }

  function DecodeChain(input: Bytes): Result<seq<Bytes>, PemError> {
    ChainFrom(Lines(input), [], None)
  }

  function ChainText(ders: seq<Bytes>): Bytes
    decreases |ders|
  {
    if ders == [] then [] else PemText(CERTIFICATE, ders[0]) + ChainText(ders[1..])
  }

  // ----- reading the lines back -----

  // Printable, neither empty nor ending in a blank: such a line is the same after every trimming.
  predicate IsTextLine(line: Bytes) {
    line != [] && line[|line| - 1] != SPACE && forall i :: 0 <= i < |line| ==> 32 <= line[i] < 127
  }

  lemma LineFirst(line: Bytes, rest: Bytes)
    requires IsTextLine(line)
    ensures Lines(line + [LF] + rest) == [line] + Lines(rest) && TrimEnd(line) == line
  {
    var text, k := line + [LF] + rest, |line|;
    assert text[k] == LF;
    forall j | 0 <= j < k ensures text[j] != LF {
      assert text[j] == line[j];
    }
    IndexFromIs(text, LF, 0, k);
    assert text[..k] == line && text[k + 1..] == rest;
  }

  lemma BoundaryLines(name: Bytes)
    requires IsLabel(name)
    ensures IsTextLine(BeginLine(name)) && IsTextLine(EndLine(name))
    ensures BeginLine(name) != EndLine(name)
  {
    assert BeginLine(name)[5] == 66 && EndLine(name)[5] == 69;
    assert forall i :: 0 <= i < |name| ==> IsLabelByte(name[i]);
  }

  // A nonempty line of Base64 symbols and pads.
  predicate IsSymbolLine(line: Bytes) {
    forall i :: 0 <= i < |line| ==> IsSymbol(line[i])
  }

  predicate IsSymbol(b: byte) {
    Base64.SymbolValue(b).Some? || b == Base64.PAD
  }

  lemma {:induction false} SymbolLineKept(line: Bytes)
    requires IsSymbolLine(line)
    ensures WithoutWhitespace(line) == line
    decreases |line|
  {
    if line != [] {
      assert IsSymbol(line[0]);
      SymbolLineKept(line[1..]);
    }
  }

  lemma SymbolLineIsText(line: Bytes)
    requires IsSymbolLine(line) && line != []
    ensures IsTextLine(line) && !(BEGIN_BOUNDARY <= line) && !(END_BOUNDARY <= line)
  {
    assert forall i :: 0 <= i < |line| ==> IsSymbol(line[i]);
    assert line[0] != BEGIN_BOUNDARY[0] && line[0] != END_BOUNDARY[0];
  }

  lemma SymbolLineParts(s: Bytes, n: nat)
    requires IsSymbolLine(s) && n <= |s|
    ensures IsSymbolLine(s[..n]) && IsSymbolLine(s[n..])
  {
    hide IsSymbol;
  }

  lemma {:induction false} EncodedIsSymbols(der: Bytes)
    ensures IsSymbolLine(Base64.EncodeStandard(der))
    decreases |der|
  {
    hide Base64.Encode, Base64.StandardAlphabet, Base64.First, Base64.Second, Base64.Third, Base64.Fourth, Base64.SymbolValue,
      Base64.StandardSymbol;
    var k := Base64.StandardAlphabet();
    forall v: Base64.Sextet ensures IsSymbol(k[v]) {
      Base64.StandardAt(v);
    }
    if |der| < 3 {
      Base64.EncodeEnd(der, k, true);
    } else {
      Base64.EncodeMore(der, k, true);
      EncodedIsSymbols(der[3..]);
    }
  }

  // The lines of wrapped Base64 text are gathered again.
  lemma {:induction false} WrappedRead(s: Bytes, tail: Bytes, name: Bytes, base64: Bytes)
    requires IsSymbolLine(s)
    ensures BlockText(Lines(Wrapped(s) + tail), name, base64) == BlockText(Lines(tail), name, base64 + s)
    decreases |s|
  {
    hide Lines, TrimEnd, WithoutWhitespace, IsSymbolLine, BeginLine, EndLine, IsTextLine, Wrapped, BlockText, ChainFrom;
    WrappedStep(s, tail);
    if s == [] {
      assert base64 + s == base64;
    } else {
      var n := Min(|s|, PEM_LINE_WIDTH);
      var line, rest := s[..n], s[n..];
      SymbolLineParts(s, n);
      SymbolLineIsText(line);
      SymbolLineKept(line);
      LineFirst(line, Wrapped(rest) + tail);
      EndIsBoundary(name);
      BlockStep(line, Lines(Wrapped(rest) + tail), name, base64);
      WrappedRead(rest, tail, name, base64 + line);
      assert base64 + line + rest == base64 + s;
    }
  }

  lemma WrappedStep(s: Bytes, tail: Bytes)
    ensures s == [] ==> Wrapped(s) + tail == tail
    ensures s != [] ==>
              var n := Min(|s|, PEM_LINE_WIDTH);
              Wrapped(s) + tail == s[..n] + [LF] + (Wrapped(s[n..]) + tail)
  {
    if s == [] {
      assert [] + tail == tail;
    } else {
      var n := Min(|s|, PEM_LINE_WIDTH);
      WrappedIs(s);
      Reassociate(s[..n], [LF], Wrapped(s[n..]), tail);
    }
  }

  lemma WrappedIs(s: Bytes)
    requires s != []
    ensures var n := Min(|s|, PEM_LINE_WIDTH); Wrapped(s) == s[..n] + [LF] + Wrapped(s[n..])
  {
    if |s| <= PEM_LINE_WIDTH {
      assert s[..|s|] == s && Wrapped(s[|s|..]) == [] && s + [LF] + [] == s + [LF];
    }
  }

  lemma Reassociate(a: Bytes, b: Bytes, c: Bytes, d: Bytes)
    ensures a + b + c + d == a + b + (c + d)
  {
  }

  lemma EndIsBoundary(name: Bytes)
    ensures END_BOUNDARY <= EndLine(name) && BEGIN_BOUNDARY <= BeginLine(name)
  {
  }

  lemma BlockStep(line: Bytes, lines: seq<Bytes>, name: Bytes, base64: Bytes)
    requires TrimEnd(line) == line && line != EndLine(name) && !(END_BOUNDARY <= line)
    ensures BlockText([line] + lines, name, base64) == BlockText(lines, name, base64 + WithoutWhitespace(line))
  {
    assert ([line] + lines)[1..] == lines;
  }

  /** Decoding undoes encoding, for every valid label and all bytes. */
  lemma PemRoundTrip(name: Bytes, der: Bytes)
    requires PemEncode(name, der).Ok?
    ensures PemDecode(name, PemEncode(name, der).value) == Ok(der)
  {
    hide Lines, TrimEnd, Wrapped, BeginLine, EndLine, IsTextLine, IsLabel, Base64.EncodeStandard, Base64.Decode, IsSymbolLine;
    var base64 := Base64.EncodeStandard(der);
    var ending := EndLine(name) + [LF];
    var begin, end := BeginLine(name), EndLine(name);
    BoundaryLines(name);
    assert PemText(name, der) == begin + [LF] + (Wrapped(base64) + ending);
    LineFirst(begin, Wrapped(base64) + ending);
    FindStep(begin, Lines(Wrapped(base64) + ending), name);
    EncodedIsSymbols(der);
    WrappedRead(base64, ending, name, []);
    assert [] + base64 == base64;
    LineFirst(end, []);
    assert end + [LF] + [] == ending;
    BlockEnds(end, Lines([]), name, base64);
    Base64.Base64RoundTrip(der);
  }

  lemma FindStep(line: Bytes, lines: seq<Bytes>, name: Bytes)
    requires TrimEnd(line) == line == BeginLine(name)
    ensures FindBlock([line] + lines, name) == BlockText(lines, name, [])
  {
    assert ([line] + lines)[1..] == lines;
  }

  lemma BlockEnds(line: Bytes, lines: seq<Bytes>, name: Bytes, base64: Bytes)
    requires TrimEnd(line) == line == EndLine(name)
    ensures BlockText([line] + lines, name, base64) == Ok(base64)
  {
  }

  // ----- chains -----

  lemma {:induction false} WrappedInChain(s: Bytes, tail: Bytes, certificates: seq<Bytes>, base64: Bytes)
    requires IsSymbolLine(s)
    ensures ChainFrom(Lines(Wrapped(s) + tail), certificates, Some(base64)) == ChainFrom(Lines(tail), certificates, Some(base64 + s))
    decreases |s|
  {
    hide Lines, TrimEnd, WithoutWhitespace, IsSymbolLine, BeginLine, EndLine, IsTextLine, Wrapped, BlockText, ChainFrom;
    WrappedStep(s, tail);
    if s == [] {
      assert base64 + s == base64;
    } else {
      var n := Min(|s|, PEM_LINE_WIDTH);
      var line, rest := s[..n], s[n..];
      SymbolLineParts(s, n);
      SymbolLineIsText(line);
      SymbolLineKept(line);
      LineFirst(line, Wrapped(rest) + tail);
      EndIsBoundary(CERTIFICATE);
      ChainStep(line, Lines(Wrapped(rest) + tail), certificates, base64);
      WrappedInChain(rest, tail, certificates, base64 + line);
      assert base64 + line + rest == base64 + s;
    }
  }

  lemma ChainStep(line: Bytes, lines: seq<Bytes>, certificates: seq<Bytes>, base64: Bytes)
    requires TrimEnd(line) == line && line != EndLine(CERTIFICATE) && !(END_BOUNDARY <= line) && !(BEGIN_BOUNDARY <= line)
    ensures ChainFrom([line] + lines, certificates, Some(base64))
         == ChainFrom(lines, certificates, Some(base64 + WithoutWhitespace(line)))
  {
    assert ([line] + lines)[1..] == lines;
  }

  lemma ChainBegins(line: Bytes, lines: seq<Bytes>, certificates: seq<Bytes>)
    requires TrimEnd(line) == line == BeginLine(CERTIFICATE)
    ensures ChainFrom([line] + lines, certificates, None) == ChainFrom(lines, certificates, Some([]))
  {
    assert ([line] + lines)[1..] == lines;
  }

  lemma ChainEnds(line: Bytes, lines: seq<Bytes>, certificates: seq<Bytes>, base64: Bytes)
    requires TrimEnd(line) == line == EndLine(CERTIFICATE) && DecodeText(base64).Ok?
    ensures ChainFrom([line] + lines, certificates, Some(base64)) == ChainFrom(lines, certificates + [DecodeText(base64).value], None)
  {
    assert ([line] + lines)[1..] == lines;
  }

  lemma CertificateIsLabel()
    ensures IsLabel(CERTIFICATE)
  {
  }

  lemma OneCertificate(der: Bytes, tail: Bytes, certificates: seq<Bytes>)
    ensures ChainFrom(Lines(PemText(CERTIFICATE, der) + tail), certificates, None)
         == ChainFrom(Lines(tail), certificates + [der], None)
  {
    hide Lines, TrimEnd, Wrapped, BeginLine, EndLine, IsTextLine, IsLabel, Base64.EncodeStandard, Base64.Decode, IsSymbolLine, ChainFrom;
    CertificateIsLabel();
    BoundaryLines(CERTIFICATE);
    var base64 := Base64.EncodeStandard(der);
    var begin, end := BeginLine(CERTIFICATE), EndLine(CERTIFICATE);
    var after := end + [LF] + tail;
    assert PemText(CERTIFICATE, der) + tail == begin + [LF] + (Wrapped(base64) + after);
    LineFirst(begin, Wrapped(base64) + after);
    ChainBegins(begin, Lines(Wrapped(base64) + after), certificates);
    EncodedIsSymbols(der);
    WrappedInChain(base64, after, certificates, []);
    assert [] + base64 == base64;
    LineFirst(end, tail);
    Base64.Base64RoundTrip(der);
    ChainEnds(end, Lines(tail), certificates, base64);
  }

  lemma {:induction false} ChainRead(ders: seq<Bytes>, certificates: seq<Bytes>)
    requires ders != [] || certificates != []
    ensures ChainFrom(Lines(ChainText(ders)), certificates, None) == Ok(certificates + ders)
    decreases |ders|
  {
    hide PemText;
    if ders == [] {
      assert certificates + ders == certificates;
    } else {
      OneCertificate(ders[0], ChainText(ders[1..]), certificates);
      ChainRead(ders[1..], certificates + [ders[0]]);
      assert certificates + [ders[0]] + ders[1..] == certificates + ders;
    }
  }

  /** A chain of certificates, each in its textual encoding, is decoded to these certificates in order. */
  lemma ChainRoundTrip(ders: seq<Bytes>)
    requires ders != []
    ensures DecodeChain(ChainText(ders)) == Ok(ders)
  {
    ChainRead(ders, []);
    assert [] + ders == ders;
  }

  // ----- the loops -----

  method ValidatePemLabel(name: Bytes) returns (ok: bool)
    ensures ok == IsLabel(name)
  {
    if name == [] || name[0] == SPACE || name[0] == DASH || name[|name| - 1] == SPACE || name[|name| - 1] == DASH {
      return false;
    }
    var previous: Option<byte> := None;
    for i := 0 to |name|
      invariant i == 0 ==> previous == None
      invariant i > 0 ==> previous == Some(name[i - 1])
      invariant forall j :: 0 <= j < i ==> IsLabelByte(name[j])
      invariant forall j :: 0 < j < i && (name[j] == SPACE || name[j] == DASH) ==> name[j - 1] != name[j]
    {
      if name[i] == SPACE || name[i] == DASH {
        if previous == Some(name[i]) {
          return false;
        }
      } else if !IsLabelByte(name[i]) {
        return false;
      }
      previous := Some(name[i]);
    }
    ok := true;
  }

  method EncodePem(name: Bytes, der: Bytes) returns (r: Result<Bytes, PemError>)
    ensures r == PemEncode(name, der)
  {
    hide IsLabel, BeginLine, EndLine, Wrapped, Base64.EncodeStandard;
    var valid := ValidatePemLabel(name);
    if !valid {
      return Err(InvalidPemLabel);
    }
    var base64 := Base64.EncodeInner(der, Base64.StandardAlphabet(), true);
    EncodedStandard(der);
    var output := BeginLine(name) + [LF];
    ghost var text := output + Wrapped(base64);
    var i := 0;
    assert base64[0..] == base64;
    while i < |base64|
      invariant i <= |base64| && output + Wrapped(base64[i..]) == text
    {
      var n := Min(|base64| - i, PEM_LINE_WIDTH);
      ghost var rest := base64[i..];
      WrappedIs(rest);
      assert rest[..n] == base64[i..i + n] && rest[n..] == base64[i + n..];
      Associate(output, base64[i..i + n], [LF], Wrapped(base64[i + n..]));
      output := output + base64[i..i + n];
      output := output + [LF];
      i := i + n;
    }
    WrappedStep([], []);
    assert base64[i..] == [] && output + Wrapped(base64[i..]) == output;
    r := Ok(output + (EndLine(name) + [LF]));
  }

  lemma EncodedStandard(der: Bytes)
    ensures Base64.Encode(der, Base64.StandardAlphabet(), true) == Base64.EncodeStandard(der)
  {
  }

  lemma Associate(a: Bytes, b: Bytes, c: Bytes, d: Bytes)
    ensures a + (b + c + d) == a + b + c + d
  {
  }

  method PushLine(base64: Bytes, line: Bytes) returns (r: Bytes)
    ensures r == base64 + WithoutWhitespace(line)
  {
    r := base64;
    for i := 0 to |line|
      invariant r + WithoutWhitespace(line[i..]) == base64 + WithoutWhitespace(line)
    {
      var rest := line[i..];
      assert rest[0] == line[i] && rest[1..] == line[i + 1..];
      if !IsWhitespace(line[i]) {
        assert r + ([line[i]] + WithoutWhitespace(line[i + 1..])) == r + [line[i]] + WithoutWhitespace(line[i + 1..]);
        r := r + [line[i]];
      } else {
        assert [] + WithoutWhitespace(line[i + 1..]) == WithoutWhitespace(line[i + 1..]);
      }
    }
  }

  method DecodePem(name: Bytes, input: Bytes) returns (r: Result<Bytes, PemError>)
    ensures r == PemDecode(name, input)
  {
    hide IsLabel, Lines, TrimEnd, WithoutWhitespace, Base64.Decode;
    var valid := ValidatePemLabel(name);
    if !valid {
      return Err(InvalidPemLabel);
    }
    var begin, end := BeginLine(name), EndLine(name);
    var lines := Lines(input);
    var foundBegin, foundEnd, base64 := false, false, [];
    var i := 0;
    while i < |lines|
      invariant i <= |lines| && !foundEnd && (!foundBegin ==> base64 == [])
      invariant FindBlock(lines, name)
             == if foundBegin then BlockText(lines[i..], name, base64) else FindBlock(lines[i..], name)
    {
      ghost var rest := lines[i..];
      assert rest[0] == lines[i] && rest[1..] == lines[i + 1..];
      var line := TrimEnd(lines[i]);
      i := i + 1;
      if !foundBegin {
        foundBegin := line == begin;
      } else if line == end {
        foundEnd := true;
        break;
      } else if END_BOUNDARY <= line {
        return Err(PemLabelMismatch);
      } else {
        base64 := PushLine(base64, line);
      }
    }
    if !foundBegin {
      return Err(PemBeginMissing);
    }
    if !foundEnd {
      return Err(PemEndMissing);
    }
    var bytes := Base64.DecodeBase64(base64);
    r := if bytes.None? then Err(InvalidPemBase64) else Ok(bytes.value);
  }

  method DecodeCertificateChain(input: Bytes) returns (r: Result<seq<Bytes>, PemError>)
    ensures r == DecodeChain(input)
  {
    hide Lines, TrimEnd, WithoutWhitespace, Base64.Decode, BeginLine, EndLine;
    var begin, end := BeginLine(CERTIFICATE), EndLine(CERTIFICATE);
    var lines := Lines(input);
    var certificates: seq<Bytes> := [];
    var inside, base64: Bytes := false, [];
    for i := 0 to |lines|
      invariant ChainFrom(lines, [], None) == ChainFrom(lines[i..], certificates, if inside then Some(base64) else None)
    {
      ghost var rest := lines[i..];
      assert rest[0] == lines[i] && rest[1..] == lines[i + 1..];
      var line := TrimEnd(lines[i]);
      if !inside {
        if line == begin {
          inside := true;
          base64 := [];
        }
      } else if line == end {
        var der := Base64.DecodeBase64(base64);
        if der.None? {
          return Err(InvalidPemBase64);
        }
        certificates := certificates + [der.value];
        inside := false;
        base64 := [];
      } else if BEGIN_BOUNDARY <= line || END_BOUNDARY <= line {
        return Err(PemLabelMismatch);
      } else {
        base64 := PushLine(base64, line);
      }
    }
    if inside {
      return Err(PemEndMissing);
    }
    if certificates == [] {
      return Err(PemBeginMissing);
    }
    r := Ok(certificates);
  }
}
