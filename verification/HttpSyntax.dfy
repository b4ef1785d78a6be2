/** Byte classes, trimming, splitting and case-insensitive comparison shared by
    the HTTP/1.1 head parser, the head rewriting and the body streaming. */
module HttpSyntax {
  import opened Words

  type Bytes = seq<byte>

  const TAB: byte := 9
  const LF: byte := 10
  const CR: byte := 13
  const SPACE: byte := 32
  const COMMA: byte := 44
  const COLON: byte := 58
  const SEMICOLON: byte := 59
  const CRLF: Bytes := [13, 10]

  predicate IsDigit(b: byte) {
    48 <= b <= 57
  }

  predicate IsLetter(b: byte) {
    65 <= b <= 90 || 97 <= b <= 122
  }

  predicate IsHexDigit(b: byte) {
    IsDigit(b) || 65 <= b <= 70 || 97 <= b <= 102
  }

  // Digits, letters and the fifteen marks a token may hold.
  predicate IsTokenByte(b: byte) {
    IsDigit(b) || IsLetter(b) || b == 33 || 35 <= b <= 39 || b == 42 || b == 43 || b == 45 || b == 46
    || b == 94 || b == 95 || b == 96 || b == 124 || b == 126
  }

  predicate IsFieldValueByte(b: byte) {
    b == TAB || 32 <= b <= 126 || b >= 128
  }

  predicate IsBlank(b: byte) {
    b == SPACE || b == TAB
  }

  predicate IsToken(s: Bytes) {
    s != [] && forall i :: 0 <= i < |s| ==> IsTokenByte(s[i])
  }

  predicate IsFieldValue(s: Bytes) {
    forall i :: 0 <= i < |s| ==> IsFieldValueByte(s[i])
  }

  function Lower(b: byte): byte {
    if 65 <= b <= 90 then b + 32 else b
  }

  predicate SameIgnoringCase(a: Bytes, b: Bytes) {
    |a| == |b| && forall i :: 0 <= i < |a| ==> Lower(a[i]) == Lower(b[i])
  }

  // The first index from i on that holds b, or the length.
  function IndexFrom(s: Bytes, b: byte, i: nat): (k: nat)
    requires i <= |s|
    ensures i <= k <= |s| && (k < |s| ==> s[k] == b) && b !in s[i..k]
    decreases |s| - i
  {
    if i == |s| || s[i] == b then i else IndexFrom(s, b, i + 1)
  }

  lemma {:induction false} IndexFromIs(s: Bytes, b: byte, i: nat, k: nat)
    requires i <= k < |s| && s[k] == b && forall j :: i <= j < k ==> s[j] != b
    ensures IndexFrom(s, b, i) == k
    decreases k - i
  {
    if i < k {
      IndexFromIs(s, b, i + 1, k);
    }
  }

  function TrimStart(s: Bytes): (r: Bytes)
    ensures |r| <= |s| && (r != [] ==> !IsBlank(r[0]))
    decreases |s|
  {
    if s != [] && IsBlank(s[0]) then TrimStart(s[1..]) else s
  }

  function TrimEnd(s: Bytes): (r: Bytes)
    ensures |r| <= |s| && (r != [] ==> !IsBlank(r[|r| - 1]))
    decreases |s|
  {
    if s != [] && IsBlank(s[|s| - 1]) then TrimEnd(s[..|s| - 1]) else s
  }

  // Trimming takes bytes off the ends only.
  lemma {:induction false} TrimEndIsPrefix(s: Bytes)
    ensures TrimEnd(s) == s[..|TrimEnd(s)|]
    decreases |s|
  {
    if s != [] && IsBlank(s[|s| - 1]) {
      TrimEndIsPrefix(s[..|s| - 1]);
    }
  }

  function TrimOptionalWhitespace(s: Bytes): Bytes {
    TrimEnd(TrimStart(s))
  }

  /** The trimming as the program does it, one byte at a time. */
  method Trim(s: Bytes) returns (value: Bytes)
    ensures value == TrimOptionalWhitespace(s)
  {
    value := s;
    while value != [] && IsBlank(value[0])
      invariant TrimStart(value) == TrimStart(s)
      decreases |value|
    {
      value := value[1..];
    }
    while value != [] && IsBlank(value[|value| - 1])
      invariant TrimEnd(value) == TrimEnd(TrimStart(s))
      decreases |value|
    {
      value := value[..|value| - 1];
    }
  }

  // One different byte, and the piece does not stand there.
  lemma NotAt(s: Bytes, i: nat, piece: Bytes, m: nat)
    requires m < |piece| && i + m < |s| && s[i + m] != piece[m]
    ensures !At(s, i, piece)
  {
    if i + |piece| <= |s| {
      assert s[i..i + |piece|][m] == s[i + m];
    }
  }

  lemma SuffixParts(s: Bytes, i: nat, a: Bytes, b: Bytes)
    requires i <= |s| && s[i..] == a + b
    ensures i + |a| <= |s| && s[i..i + |a|] == a && s[i + |a|..] == b
  {
    assert |s| - i == |a| + |b|;
    assert s[i..][..|a|] == s[i..i + |a|] && s[i..][|a|..] == s[i + |a|..];
    assert (a + b)[..|a|] == a && (a + b)[|a|..] == b;
  }

  // The first index from i on at which the needle stands.
  function Find(s: Bytes, needle: Bytes, i: nat): (r: Option<nat>)
    requires i <= |s|
    ensures r.Some? ==> i <= r.value && At(s, r.value, needle)
    ensures r.Some? ==> forall j :: i <= j < r.value ==> !At(s, j, needle)
    ensures r.None? ==> forall j :: i <= j ==> !At(s, j, needle)
    decreases |s| - i
  {
    if i + |needle| > |s| then None
    else if At(s, i, needle) then Some(i)
    else Find(s, needle, i + 1)
  }

  lemma FindIs(s: Bytes, needle: Bytes, i: nat, k: nat)
    requires i <= k && At(s, k, needle) && forall j :: i <= j < k ==> !At(s, j, needle)
    ensures Find(s, needle, i) == Some(k)
  {
  }

  // The parts between the separators; one more part than there are separators.
  function Parts(s: Bytes, separator: byte): (r: seq<Bytes>)
    ensures |r| >= 1
    decreases |s|
  {
    var k := IndexFrom(s, separator, 0);
    if k == |s| then [s] else [s[..k]] + Parts(s[k + 1..], separator)
  }

  // ----- UTF-8 (table 3-7 of the Unicode standard) -----

  predicate Continues(s: Bytes, i: nat, low: byte, high: byte) {
    i < |s| && low <= s[i] <= high
  }

  // The length of the character s starts with; zero when it starts with none.
  function CharacterLength(s: Bytes): (n: nat)
    requires s != []
    ensures n <= |s|
  {
    var b := s[0];
    if b <= 0x7f then 1
    else if 0xc2 <= b <= 0xdf && Continues(s, 1, 0x80, 0xbf) then 2
    else if 0xe0 <= b <= 0xef && Continues(s, 1, if b == 0xe0 then 0xa0 else 0x80, if b == 0xed then 0x9f else 0xbf)
            && Continues(s, 2, 0x80, 0xbf) then 3
    else if 0xf0 <= b <= 0xf4 && Continues(s, 1, if b == 0xf0 then 0x90 else 0x80, if b == 0xf4 then 0x8f else 0xbf)
            && Continues(s, 2, 0x80, 0xbf) && Continues(s, 3, 0x80, 0xbf) then 4
    else 0
  }

  predicate IsUtf8(s: Bytes)
    decreases |s|
  {
    s == [] || (CharacterLength(s) > 0 && IsUtf8(s[CharacterLength(s)..]))
  }

  lemma {:induction false} AsciiIsUtf8(s: Bytes)
    requires forall i :: 0 <= i < |s| ==> s[i] <= 0x7f
    ensures IsUtf8(s)
    decreases |s|
  {
    if s != [] {
      AsciiIsUtf8(s[1..]);
    }
  }

  // ----- names a trailer must not have -----

  const FORBIDDEN_TRAILERS: seq<Bytes> := [
    [99, 111, 110, 116, 101, 110, 116, 45, 108, 101, 110, 103, 116, 104],                    // content-length
    [116, 114, 97, 110, 115, 102, 101, 114, 45, 101, 110, 99, 111, 100, 105, 110, 103],      // transfer-encoding
    [104, 111, 115, 116],                                                                    // host
    [99, 111, 110, 110, 101, 99, 116, 105, 111, 110],                                        // connection
    [107, 101, 101, 112, 45, 97, 108, 105, 118, 101],                                        // keep-alive
    [112, 114, 111, 120, 121, 45, 99, 111, 110, 110, 101, 99, 116, 105, 111, 110],           // proxy-connection
    [116, 101],                                                                              // te
    [116, 114, 97, 105, 108, 101, 114],                                                      // trailer
    [117, 112, 103, 114, 97, 100, 101]                                                       // upgrade
  ]

  predicate IsForbiddenTrailerName(name: Bytes) {
    exists i :: 0 <= i < |FORBIDDEN_TRAILERS| && SameIgnoringCase(name, FORBIDDEN_TRAILERS[i])
  }
}
