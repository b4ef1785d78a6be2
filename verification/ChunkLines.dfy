/** Chunk-size lines as section 7.1 of RFC 9112 writes them, and which of them the program accepts. */
module ChunkLines {
  import opened Words
  import opened HttpSyntax
  import opened ChunkedBody

  const EQUALS: byte := 61
  const QUOTE: byte := 34
  const BACKSLASH: byte := 92

  // ----- the grammar of chunk-ext (section 7.1.1) -----

  // One character of a quoted string, by itself or after a backslash.
  datatype Quoted = Plain(b: byte) | Escaped(b: byte)

  datatype Value = Token(token: Bytes) | Text(characters: seq<Quoted>)

  // The value and the blanks around its equals sign.
  datatype Assigned = Assigned(before: Bytes, after: Bytes, value: Value)

  // The name, what is assigned to it, and the blanks around the semicolon.
  datatype Extension = Extension(before: Bytes, after: Bytes, name: Bytes, assignment: Option<Assigned>)

  datatype SizeLine = SizeLine(digits: Bytes, extensions: seq<Extension>)

  predicate AllBlank(s: Bytes) {
    forall i :: 0 <= i < |s| ==> s[i] == TAB || s[i] == SPACE
  }

  // qdtext by itself, any field byte after a backslash.
  predicate ValidQuoted(q: Quoted) {
    IsFieldValueByte(q.b) && (q.Plain? ==> q.b != QUOTE && q.b != BACKSLASH)
  }

  predicate ValidValue(v: Value) {
    match v
    case Token(token) => IsToken(token)
    case Text(characters) => forall i :: 0 <= i < |characters| ==> ValidQuoted(characters[i])
  }

  predicate ValidExtension(e: Extension) {
    && AllBlank(e.before) && AllBlank(e.after) && IsToken(e.name)
    && (e.assignment.Some? ==>
          AllBlank(e.assignment.value.before) && AllBlank(e.assignment.value.after) && ValidValue(e.assignment.value.value))
  }

  predicate ValidSizeLine(l: SizeLine) {
    && l.digits != [] && (forall i :: 0 <= i < |l.digits| ==> IsHexDigit(l.digits[i]))
    && (forall i :: 0 <= i < |l.extensions| ==> ValidExtension(l.extensions[i]))
  }

  function QuotedBytes(characters: seq<Quoted>): Bytes
    decreases |characters|
  {
    if characters == [] then []
    else (if characters[0].Escaped? then [BACKSLASH] else []) + [characters[0].b] + QuotedBytes(characters[1..])
  }

  function ValueBytes(v: Value): Bytes {
    match v
    case Token(token) => token
    case Text(characters) => [QUOTE] + QuotedBytes(characters) + [QUOTE]
  }

  function AssignedBytes(a: Option<Assigned>): Bytes {
    if a.None? then [] else a.value.before + [EQUALS] + a.value.after + ValueBytes(a.value.value)
  }

  // What follows the semicolon.
  function ExtensionTail(e: Extension): Bytes {
    e.after + e.name + AssignedBytes(e.assignment)
  }

  function ExtensionsBytes(es: seq<Extension>): Bytes
    decreases |es|
  {
    if es == [] then [] else es[0].before + [SEMICOLON] + ExtensionTail(es[0]) + ExtensionsBytes(es[1..])
  }

  function SizeLineBytes(l: SizeLine): Bytes {
    l.digits + ExtensionsBytes(l.extensions)
  }

  // ----- which of them are accepted -----

  predicate Ascii(s: Bytes) {
    forall i :: 0 <= i < |s| ==> s[i] < 128
  }

  /** No blank before the first semicolon, no byte outside ASCII, and a size that fits 64 bits. */
  predicate Accepted(l: SizeLine)
    requires ValidSizeLine(l)
  {
    && (l.extensions != [] ==> l.extensions[0].before == [])
    && Ascii(SizeLineBytes(l))
    && HexValue(l.digits) < 0x1_0000_0000_0000_0000
  }

  lemma {:induction false} QuotedIsFieldValue(characters: seq<Quoted>)
    requires forall i :: 0 <= i < |characters| ==> ValidQuoted(characters[i])
    ensures IsFieldValue(QuotedBytes(characters))
    decreases |characters|
  {
    if characters != [] {
      QuotedIsFieldValue(characters[1..]);
      assert ValidQuoted(characters[0]);
    }
  }

  lemma ValueIsFieldValue(v: Value)
    requires ValidValue(v)
    ensures IsFieldValue(ValueBytes(v))
  {
    match v
    case Token(token) =>
    case Text(characters) => QuotedIsFieldValue(characters);
  }

  lemma TailIsFieldValue(e: Extension)
    requires ValidExtension(e)
    ensures IsFieldValue(ExtensionTail(e)) && ExtensionTail(e) != []
  {
    hide ValidValue, ValueBytes;
    if e.assignment.Some? {
      ValueIsFieldValue(e.assignment.value.value);
    }
  }

  lemma {:induction false} ExtensionsAreFieldValues(es: seq<Extension>)
    requires forall i :: 0 <= i < |es| ==> ValidExtension(es[i])
    ensures IsFieldValue(ExtensionsBytes(es))
    decreases |es|
  {
    hide ExtensionTail, ValidValue;
    if es != [] {
      ExtensionsAreFieldValues(es[1..]);
      TailIsFieldValue(es[0]);
      assert ValidExtension(es[0]);
    }
  }

  /** A line of the standard is accepted, with its value, exactly when no blank precedes its first semicolon,
      it is ASCII, and its size fits 64 bits. */
  lemma SizeLineDecided(l: SizeLine)
    requires ValidSizeLine(l)
    ensures ParseChunkSize(SizeLineBytes(l)) == if Accepted(l) then Some(HexValue(l.digits)) else None
  {
    hide HexValue, IndexFrom, ExtensionTail, ValidExtension;
    var line, n := SizeLineBytes(l), |l.digits|;
    ExtensionsAreFieldValues(l.extensions);
    assert forall i :: 0 <= i < n ==> line[i] == l.digits[i] && IsHexDigit(line[i]);
    if l.extensions == [] {
      assert line == l.digits;
      assert IndexFrom(line, SEMICOLON, 0) == n;
    } else {
      var e, k := l.extensions[0], n + |l.extensions[0].before|;
      FirstExtension(l);
      IndexFromIs(line, SEMICOLON, 0, k);
      if e.before == [] {
        assert line[..k] == l.digits;
        assert forall i :: k < i < |line| ==> (IsExtensionByte(line[i]) <==> line[i] < 128);
      } else {
        assert !IsHexDigit(line[..k][n]);
      }
    }
  }

  lemma ExtensionStarts(es: seq<Extension>)
    requires es != [] && ValidExtension(es[0])
    ensures var s, before := ExtensionsBytes(es), es[0].before;
            && |before| + 1 < |s| && s[|before|] == SEMICOLON && s[|before| + 1] == ExtensionTail(es[0])[0]
            && (forall i :: 0 <= i < |before| ==> s[i] == TAB || s[i] == SPACE)
  {
    hide ExtensionTail, ValidValue;
    TailIsFieldValue(es[0]);
    var s, before := ExtensionsBytes(es), es[0].before;
    assert s == before + [SEMICOLON] + (ExtensionTail(es[0]) + ExtensionsBytes(es[1..]));
  }

  lemma FirstExtension(l: SizeLine)
    requires ValidSizeLine(l) && l.extensions != []
    ensures var line, n, before := SizeLineBytes(l), |l.digits|, l.extensions[0].before;
            && n + |before| + 1 < |line| && line[n + |before|] == SEMICOLON
            && line[n + |before| + 1] == ExtensionTail(l.extensions[0])[0]
            && (forall i :: n <= i < n + |before| ==> line[i] == TAB || line[i] == SPACE)
            && (forall i :: n <= i < |line| ==> IsFieldValueByte(line[i]))
  {
    hide ExtensionTail, ExtensionsBytes, ValidExtension;
    var line, n, tail := SizeLineBytes(l), |l.digits|, ExtensionsBytes(l.extensions);
    ExtensionStarts(l.extensions);
    ExtensionsAreFieldValues(l.extensions);
    TailIsFieldValue(l.extensions[0]);
    assert forall i :: n <= i < |line| ==> line[i] == tail[i - n];
  }

  /** 5;= is accepted as the size 5, but it is no line of the standard. */
  lemma NamelessExtensionAccepted()
    ensures ParseChunkSize([53, SEMICOLON, EQUALS]) == Some(5)
    ensures forall l :: ValidSizeLine(l) ==> SizeLineBytes(l) != [53, SEMICOLON, EQUALS]
  {
    var line: Bytes := [53, SEMICOLON, EQUALS];
    assert line[..1] == [53] && HexValue([53]) == 5;
    assert IndexFrom(line, SEMICOLON, 0) == 1;
    forall l | ValidSizeLine(l) ensures SizeLineBytes(l) != line {
      if SizeLineBytes(l) == line {
        NamedAfterSemicolon(l);
      }
    }
  }

  // After its first semicolon a line has a blank or a byte of a token.
  lemma NamedAfterSemicolon(l: SizeLine)
    requires ValidSizeLine(l)
    ensures SizeLineBytes(l) != [53, SEMICOLON, EQUALS]
  {
    hide ExtensionTail;
    var line, n := SizeLineBytes(l), |l.digits|;
    assert forall i :: 0 <= i < n ==> IsHexDigit(l.digits[i]) && line[i] == l.digits[i];
    if l.extensions == [] {
      assert |line| == n && (n > 1 ==> IsHexDigit(line[1]));
    } else {
      FirstExtension(l);
      var e := l.extensions[0];
      var k := n + |e.before|;
      TailStarts(e);
    }
  }

  lemma TailStarts(e: Extension)
    requires ValidExtension(e)
    ensures ExtensionTail(e) != [] && var b := ExtensionTail(e)[0]; b == TAB || b == SPACE || IsTokenByte(b)
  {
    hide AssignedBytes;
    assert e.after != [] ==> ExtensionTail(e)[0] == e.after[0];
    assert e.after == [] ==> ExtensionTail(e)[0] == e.name[0];
  }

  /** 5 ;a is a line of the standard, but it is refused. */
  lemma BlankBeforeExtensionRefused()
    ensures var l := SizeLine([53], [Extension([SPACE], [], [97], None)]);
            ValidSizeLine(l) && SizeLineBytes(l) == [53, SPACE, SEMICOLON, 97] && ParseChunkSize(SizeLineBytes(l)) == None
  {
    var e := Extension([SPACE], [], [97], None);
    var l := SizeLine([53], [e]);
    assert ExtensionsBytes([e][1..]) == [];
    assert ValidExtension(e);
    SizeLineDecided(l);
  }

  // ----- bodies of such lines -----

  datatype StandardChunk = StandardChunk(line: SizeLine, data: Bytes)

  /** A chunked body by section 7.1: each chunk's line says its length, the last line says zero, and no trailer
      line is empty or broken. */
  datatype StandardBody = StandardBody(chunks: seq<StandardChunk>, last: SizeLine, trailers: seq<Bytes>)

  predicate ValidStandardChunk(c: StandardChunk) {
    ValidSizeLine(c.line) && c.data != [] && HexValue(c.line.digits) == |c.data|
  }

  predicate ValidBody(b: StandardBody) {
    && (forall i :: 0 <= i < |b.chunks| ==> ValidStandardChunk(b.chunks[i]))
    && ValidSizeLine(b.last) && HexValue(b.last.digits) == 0
    && (forall i :: 0 <= i < |b.trailers| ==> IsTrailerLine(b.trailers[i]))
  }

  predicate IsTrailerLine(t: Bytes) {
    t != [] && Unbroken(t, 0, |t|)
  }

  function Lines(chunks: seq<StandardChunk>): (r: seq<Chunk>)
    ensures |r| == |chunks|
    ensures forall i :: 0 <= i < |r| ==> r[i] == Chunk(SizeLineBytes(chunks[i].line), chunks[i].data)
    decreases |chunks|
  {
    if chunks == [] then [] else [Chunk(SizeLineBytes(chunks[0].line), chunks[0].data)] + Lines(chunks[1..])
  }

  function AsMessage(b: StandardBody): Message {
    Message(Lines(b.chunks), SizeLineBytes(b.last), b.trailers)
  }

  predicate LineFits(l: SizeLine)
    requires ValidSizeLine(l)
  {
    |SizeLineBytes(l)| <= MAX_CHUNK_LINE_SIZE && Accepted(l)
  }

  /** Every line is within its limit and accepted, and so is the trailer section. */
  predicate BodyFits(b: StandardBody)
    requires ValidBody(b)
  {
    && (forall i :: 0 <= i < |b.chunks| ==> ValidStandardChunk(b.chunks[i]) && LineFits(b.chunks[i].line))
    && LineFits(b.last)
    && ValidTrailers(b.trailers, 0, 0)
  }

  // Lines that are whole, and sizes that are right where they are accepted.
  predicate LooseChunk(c: Chunk) {
    Unbroken(c.line, 0, |c.line|) && c.data != [] && ParseChunkSize(c.line) in {None, Some(|c.data|)}
  }

  predicate Loose(m: Message) {
    && (forall i :: 0 <= i < |m.chunks| ==> LooseChunk(m.chunks[i]))
    && Unbroken(m.last, 0, |m.last|) && ParseChunkSize(m.last) in {None, Some(0)}
    && (forall i :: 0 <= i < |m.trailers| ==> IsTrailerLine(m.trailers[i]))
  }

  lemma LineDecided(s: Bytes, i: nat, line: Bytes, maximum: nat)
    requires Unbroken(line, 0, |line|) && At(s, i, line + CRLF)
    ensures LineFrom(s, i, maximum) == if |line| <= maximum then Complete(i + |line| + 2) else Malformed
    ensures i + |line| + 2 <= |s| && s[i..i + |line|] == line
  {
    AtParts(s, i, line, CRLF);
    if |line| <= maximum {
      LineWritten(s, i, line, maximum);
    } else {
      forall j | i <= j < i + |line| ensures s[j] != CR && s[j] != LF {
        assert s[j] == s[i..i + |line|][j - i];
      }
      LineTooLong(s, i, i + |line|, maximum);
    }
  }

  lemma TrailersStep(ts: seq<Bytes>, count: nat, size: nat)
    requires ts != []
    ensures ValidTrailers(ts, count, size)
       <==> ValidTrailer(ts[0]) && count < MAX_TRAILER_COUNT && ValidTrailers(ts[1..], count + 1, size + |ts[0]| + 2)
  {
    hide ValidTrailer;
    if ValidTrailer(ts[0]) && forall i :: 0 <= i < |ts[1..]| ==> ValidTrailer(ts[1..][i]) {
      forall i | 0 <= i < |ts| ensures ValidTrailer(ts[i]) {
        assert i > 0 ==> ts[i] == ts[1..][i - 1];
      }
    }
    if forall i :: 0 <= i < |ts| ==> ValidTrailer(ts[i]) {
      forall i | 0 <= i < |ts[1..]| ensures ValidTrailer(ts[1..][i]) {
        assert ts[1..][i] == ts[i + 1];
      }
    }
  }

  lemma {:induction false} TrailersDecided(ts: seq<Bytes>, s: Bytes, i: nat, count: nat, size: nat)
    requires (forall k :: 0 <= k < |ts| ==> IsTrailerLine(ts[k])) && At(s, i, TrailerBytes(ts))
    ensures TrailersFrom(s, i, count, size)
         == if ValidTrailers(ts, count, size) then Complete(i + |TrailerBytes(ts)|) else Malformed
    decreases |ts|
  {
    hide LineFrom, ValidTrailerLine, ValidTrailers, At;
    if ts == [] {
      var none: Bytes := [];
      assert none + CRLF == CRLF;
      LineDecided(s, i, none, MAX_TRAILER_LINE_SIZE);
      NoTrailers(count, size);
    } else {
      var line, rest := ts[0] + CRLF, TrailerBytes(ts[1..]);
      assert IsTrailerLine(ts[0]);
      AtParts(s, i, line, rest);
      LineDecided(s, i, ts[0], MAX_TRAILER_LINE_SIZE);
      TrailersStep(ts, count, size);
      if size + |line| > MAX_TRAILER_BLOCK_SIZE {
        TrailersSize(ts, count, size);
      }
      TrailersDecided(ts[1..], s, i + |line|, count + 1, size + |line|);
    }
  }

  lemma NoTrailers(count: nat, size: nat)
    ensures ValidTrailers([], count, size) <==> size + 2 <= MAX_TRAILER_BLOCK_SIZE
  {
  }

  lemma TrailersSize(ts: seq<Bytes>, count: nat, size: nat)
    requires ts != [] && size + |ts[0]| + 2 > MAX_TRAILER_BLOCK_SIZE
    ensures !ValidTrailers(ts, count, size)
  {
  }

  lemma MessageStep(m: Message)
    requires m.chunks != []
    ensures Loose(m) <==> LooseChunk(m.chunks[0]) && Loose(Message(m.chunks[1..], m.last, m.trailers))
    ensures ValidMessage(m) <==> ValidChunk(m.chunks[0]) && ValidMessage(Message(m.chunks[1..], m.last, m.trailers))
  {
    hide LooseChunk, ValidChunk, ValidTrailers, ParseChunkSize, IsLine, IsTrailerLine;
    var rest := m.chunks[1..];
    assert forall i :: 0 <= i < |rest| ==> rest[i] == m.chunks[i + 1];
    assert forall i :: 0 < i < |m.chunks| ==> m.chunks[i] == rest[i - 1];
  }

  /** The bytes of a message are a whole body when every part is accepted, and are refused when one is not. */
  lemma {:induction false} MessageDecided(m: Message, s: Bytes, i: nat)
    requires Loose(m) && At(s, i, MessageBytes(m))
    ensures BodyFrom(s, i) == if ValidMessage(m) then Complete(i + |MessageBytes(m)|) else Malformed
    decreases |m.chunks|
  {
    hide LineFrom, TrailersFrom, ParseChunkSize, ValidTrailers, At, IsTrailerLine;
    if m.chunks == [] {
      AtParts(s, i, m.last + CRLF, TrailerBytes(m.trailers));
      LineDecided(s, i, m.last, MAX_CHUNK_LINE_SIZE);
      TrailersDecided(m.trailers, s, i + |m.last| + 2, 0, 0);
    } else {
      var c, rest := m.chunks[0], Message(m.chunks[1..], m.last, m.trailers);
      MessageStep(m);
      var line := c.line + CRLF;
      AtParts(s, i, line + c.data + CRLF, MessageBytes(rest));
      AtParts(s, i, line + c.data, CRLF);
      AtParts(s, i, line, c.data);
      AtSlice(s, i + |line| + |c.data|, CRLF);
      LineDecided(s, i, c.line, MAX_CHUNK_LINE_SIZE);
      MessageDecided(rest, s, i + |line| + |c.data| + 2);
    }
  }

  lemma StandardLineUnbroken(l: SizeLine)
    requires ValidSizeLine(l)
    ensures Unbroken(SizeLineBytes(l), 0, |SizeLineBytes(l)|)
  {
    ExtensionsAreFieldValues(l.extensions);
  }

  lemma StandardChunkLoose(c: StandardChunk)
    requires ValidStandardChunk(c)
    ensures var p := Chunk(SizeLineBytes(c.line), c.data); LooseChunk(p) && (ValidChunk(p) <==> LineFits(c.line))
  {
    hide ValidSizeLine, SizeLineBytes, Accepted, ParseChunkSize;
    StandardLineUnbroken(c.line);
    SizeLineDecided(c.line);
  }

  lemma StandardBodyLoose(b: StandardBody)
    requires ValidBody(b)
    ensures Loose(AsMessage(b)) && (ValidMessage(AsMessage(b)) <==> BodyFits(b))
  {
    hide ValidSizeLine, SizeLineBytes, LooseChunk, ValidChunk, ValidTrailers, Accepted, ParseChunkSize, IsTrailerLine;
    var chunks := Lines(b.chunks);
    forall i | 0 <= i < |chunks|
      ensures LooseChunk(chunks[i]) && ValidStandardChunk(b.chunks[i]) && (ValidChunk(chunks[i]) <==> LineFits(b.chunks[i].line))
    {
      StandardChunkLoose(b.chunks[i]);
    }
    StandardLineUnbroken(b.last);
    SizeLineDecided(b.last);
  }

  /** A chunked body of the standard at the start of the bytes is taken whole exactly when it fits, and is
      refused otherwise. */
  lemma StandardBodyDecided(b: StandardBody, s: Bytes)
    requires ValidBody(b) && MessageBytes(AsMessage(b)) <= s
    ensures BodyFrom(s, 0) == if BodyFits(b) then Complete(|MessageBytes(AsMessage(b))|) else Malformed
  {
    hide ValidBody, BodyFits, AsMessage, BodyFrom, MessageBytes, Loose, ValidMessage;
    StandardBodyLoose(b);
    SliceAt(s, 0, |MessageBytes(AsMessage(b))|);
    MessageDecided(AsMessage(b), s, 0);
  }
}
