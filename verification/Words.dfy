/** Machine words as bounded integers, powers of two, bitwise operators on
    naturals, and the little- and big-endian value of a byte string. */
module Words {

  type byte = x: int | 0 <= x < 0x100
  type u32 = x: int | 0 <= x < 0x1_0000_0000
  type u64 = x: int | 0 <= x < 0x1_0000_0000_0000_0000

  datatype Option<+T> = None | Some(value: T)
  datatype Result<+T, +E> = Ok(value: T) | Err(error: E)

  function Min(a: int, b: int): int {
    if a <= b then a else b
  }

  // ----- powers of two -----

  function Pow2(n: nat): (r: nat)
    ensures r > 0
  {
    if n == 0 then 1 else 2 * Pow2(n - 1)
  }

  lemma {:induction false} Pow2Adds(a: nat, b: nat)
    ensures Pow2(a + b) == Pow2(a) * Pow2(b)
  {
    if a != 0 {
      Pow2Adds(a - 1, b);
      assert Pow2(a + b) == 2 * Pow2(a - 1 + b);
    }
  }

  // ----- division by a positive symbolic divisor -----

  lemma MulAtLeast(m: int, k: int)
    requires m > 0 && k >= 1
    ensures m * k >= m
  {
  }

  lemma SameQuotient(q: int, r: int, q': int, r': int, m: int)
    requires 0 <= r < m && 0 <= r' < m && q * m + r == q' * m + r'
    ensures q == q' && r == r'
  {
    assert m * (q - q') == r' - r;
    assert m * (q' - q) == r - r';
    if q > q' {
      MulAtLeast(m, q - q');
    } else if q < q' {
      MulAtLeast(m, q' - q);
    }
  }

  lemma DivNonneg(a: int, m: int)
    requires a >= 0 && m > 0
    ensures a / m >= 0
  {
    var q := a / m;
    assert a == m * q + a % m;
    if q < 0 {
      MulAtLeast(m, -q);
    }
  }

  lemma DivModUnique(q: int, r: int, m: int)
    requires 0 <= r < m
    ensures (q * m + r) / m == q && (q * m + r) % m == r
  {
    var x := q * m + r;
    assert x == x / m * m + x % m;
    SameQuotient(q, r, x / m, x % m, m);
  }

  lemma MulNonneg(a: int, b: int)
    requires a >= 0 && b >= 0
    ensures a * b >= 0
  {
  }

  lemma MulMono(a: int, b: int, w: int)
    requires a <= b && w >= 0
    ensures a * w <= b * w
  {
    MulNonneg(b - a, w);
    assert (b - a) * w == b * w - a * w;
  }

  lemma ProductBound(a: int, b: int, m: int, n: int)
    requires 0 <= a <= m && 0 <= b <= n
    ensures 0 <= a * b <= m * n
  {
    MulNonneg(a, b);
    MulMono(a, m, b);
    MulMono(b, n, m);
    assert b * m == m * b && n * m == m * n;
  }

  lemma DivDivParts(x: int, a: int, b: int, q: int, r: int, q2: int, r2: int)
    requires x == q * a + r && q == q2 * b + r2 && 0 <= r < a && 0 <= r2 < b
    ensures a * b > 0 && x == q2 * (a * b) + (r2 * a + r) && 0 <= r2 * a + r < a * b
  {
    assert q * a == q2 * (a * b) + r2 * a;
    MulNonneg(r2, a);
    MulMono(r2, b - 1, a);
    assert (b - 1) * a == a * b - a;
  }

  lemma DivDiv(x: int, a: int, b: int)
    requires a > 0 && b > 0
    ensures a * b > 0 && x / (a * b) == x / a / b
  {
    var q := x / a;
    var q2 := q / b;
    assert x == q * a + x % a;
    assert q == q2 * b + q % b;
    DivDivParts(x, a, b, q, x % a, q2, q % b);
    DivModUnique(q2, q % b * a + x % a, a * b);
  }

  // ----- bitwise operators -----

  function And(a: nat, b: nat): nat {
    if a == 0 || b == 0 then 0
    else 2 * And(a / 2, b / 2) + (if a % 2 == 1 && b % 2 == 1 then 1 else 0)
  }

  function Or(a: nat, b: nat): nat
    decreases a + b
  {
    if a == 0 then b else if b == 0 then a
    else 2 * Or(a / 2, b / 2) + (if a % 2 == 1 || b % 2 == 1 then 1 else 0)
  }

  function Xor(a: nat, b: nat): nat
    decreases a + b
  {
    if a == 0 then b else if b == 0 then a
    else 2 * Xor(a / 2, b / 2) + (a + b) % 2
  }

  lemma DoubleParts(h: int, t: int, q: int, r: int, m: int)
    requires h == q * m + r
    ensures 2 * h + t == q * (2 * m) + (2 * r + t)
  {
    assert q * (2 * m) == 2 * (q * m);
  }

  lemma ModDouble(a: nat, m: nat)
    requires m > 0
    ensures a % (2 * m) == 2 * (a / 2 % m) + a % 2
  {
    var h := a / 2;
    var q, r := h / m, h % m;
    assert h == q * m + r && 0 <= r < m;
    DoubleParts(h, a % 2, q, r, m);
    DivModUnique(q, 2 * r + a % 2, 2 * m);
  }

  // Masking with 2^k - 1 keeps the low k bits.
  lemma {:induction false} AndMask(a: nat, k: nat)
    ensures And(a, Pow2(k) - 1) == a % Pow2(k)
  {
    if k == 0 {
    } else if a == 0 {
    } else {
      var m := Pow2(k - 1);
      AndMask(a / 2, k - 1);
      assert (2 * m - 1) / 2 == m - 1 && (2 * m - 1) % 2 == 1;
      ModDouble(a, m);
    }
  }

  // Or of two values whose bits do not overlap is their sum.
  lemma {:induction false} OrDisjoint(a: nat, b: nat, k: nat)
    requires a < Pow2(k) && b % Pow2(k) == 0
    ensures Or(a, b) == a + b && Or(b, a) == a + b
    decreases k
  {
    if k != 0 && a != 0 && b != 0 {
      var m := Pow2(k - 1);
      var q := b / (2 * m);
      assert b == (2 * m) * q;
      assert b == 2 * (m * q);
      assert b / 2 == q * m + 0;
      DivModUnique(q, 0, m);
      OrDisjoint(a / 2, b / 2, k - 1);
    }
  }

  lemma XorStep(a: nat, b: nat)
    ensures Xor(a, b) / 2 == Xor(a / 2, b / 2) && Xor(a, b) % 2 == (a + b) % 2
  {
  }

  lemma {:induction false} XorCancels(a: nat, b: nat)
    ensures Xor(Xor(a, b), b) == a
    decreases a + b
  {
    hide Xor;
    XorZero();
    if a + b != 0 {
      XorStep(a, b);
      XorStep(Xor(a, b), b);
      XorCancels(a / 2, b / 2);
      SameHalves(Xor(Xor(a, b), b), a);
    }
  }

  lemma XorZero()
    ensures Xor(0, 0) == 0
  {
  }

  lemma SameHalves(x: int, y: int)
    requires x / 2 == y / 2 && x % 2 == y % 2
    ensures x == y
  {
  }

  lemma {:induction false} XorBound(a: nat, b: nat, k: nat)
    requires a < Pow2(k) && b < Pow2(k)
    ensures Xor(a, b) < Pow2(k)
    decreases k
  {
    if k != 0 && a != 0 && b != 0 {
      XorBound(a / 2, b / 2, k - 1);
    }
  }

  function XorByte(a: byte, b: byte): (r: byte)
    ensures Xor(r, b) == a
  {
    XorCancels(a, b);
    assert Pow2(8) == 256;
    XorBound(a, b, 8);
    Xor(a, b)
  }

  lemma XorByteCancels(a: byte, b: byte)
    ensures XorByte(XorByte(a, b), b) == a
  {
  }

  lemma XorByteInjective(a: byte, b: byte, c: byte)
    requires XorByte(a, b) == XorByte(a, c)
    ensures b == c
  {
    XorCommutes(a, b);
    XorCommutes(a, c);
    XorCancels(b, a);
    XorCancels(c, a);
  }

  lemma {:induction false} XorCommutes(a: nat, b: nat)
    ensures Xor(a, b) == Xor(b, a)
    decreases a + b
  {
    if a != 0 && b != 0 {
      XorCommutes(a / 2, b / 2);
    }
  }

  // ----- byte strings as numbers -----

  function Pow256(n: nat): (r: nat)
    ensures r > 0
  {
    if n == 0 then 1 else 256 * Pow256(n - 1)
  }

  // Little-endian value.
  function LE(s: seq<byte>): nat {
    if s == [] then 0 else s[0] + 256 * LE(s[1..])
  }

  // Big-endian value.
  function BE(s: seq<byte>): nat {
    if s == [] then 0 else 256 * BE(s[..|s| - 1]) + s[|s| - 1]
  }

  // The n-byte little-endian encoding of the low 8n bits of v.
  function ToLE(v: nat, n: nat): (s: seq<byte>)
    ensures |s| == n
  {
    if n == 0 then [] else [v % 256] + ToLE(v / 256, n - 1)
  }

  // The n-byte big-endian encoding of the low 8n bits of v.
  function ToBE(v: int, n: nat): (s: seq<byte>)
    ensures |s| == n
    decreases n
  {
    if n == 0 then [] else ToBE(v / 256, n - 1) + [v % 256]
  }

  lemma {:induction false} BEBound(s: seq<byte>)
    ensures BE(s) < Pow256(|s|)
  {
    if s != [] {
      BEBound(s[..|s| - 1]);
    }
  }

  lemma {:induction false} BEOfToBE(v: nat, n: nat)
    requires v < Pow256(n)
    ensures BE(ToBE(v, n)) == v
  {
    hide BE, ToBE;
    if n != 0 {
      assert v / 256 < Pow256(n - 1);
      BEOfToBE(v / 256, n - 1);
    }
    BEDigit(v, n);
  }

  lemma BEDigit(v: nat, n: nat)
    ensures BE(ToBE(v, n)) == if n == 0 then 0 else 256 * BE(ToBE(v / 256, n - 1)) + v % 256
  {
    if n != 0 {
      assert ToBE(v, n)[..n - 1] == ToBE(v / 256, n - 1);
    }
  }

  lemma {:induction false} ToBEOfBE(s: seq<byte>)
    ensures ToBE(BE(s), |s|) == s
  {
    if s != [] {
      ToBEOfBE(s[..|s| - 1]);
    }
  }

  lemma {:induction false} LEOfToLE(v: nat, n: nat)
    requires v < Pow256(n)
    ensures LE(ToLE(v, n)) == v
  {
    if n != 0 {
      LEOfToLE(v / 256, n - 1);
      assert ToLE(v, n)[1..] == ToLE(v / 256, n - 1);
    }
  }

  lemma {:induction false} ToBEInjective(v: nat, w: nat, n: nat)
    requires v < Pow256(n) && w < Pow256(n) && ToBE(v, n) == ToBE(w, n)
    ensures v == w
  {
    BEOfToBE(v, n);
    BEOfToBE(w, n);
  }

  lemma {:induction false} BEAppend(s: seq<byte>, t: seq<byte>)
    ensures BE(s + t) == BE(s) * Pow256(|t|) + BE(t)
  {
    if t == [] {
      assert s + t == s;
    } else {
      var t' := t[..|t| - 1];
      BEAppend(s, t');
      assert (s + t)[..|s + t| - 1] == s + t';
      assert 256 * (BE(s) * Pow256(|t'|)) == BE(s) * Pow256(|t|);
    }
  }

  lemma Pow256Of8()
    ensures Pow256(8) == 0x1_0000_0000_0000_0000
  {
    assert Pow256(2) == 0x1_0000;
    assert Pow256(4) == 0x1_0000_0000;
    assert Pow256(6) == 0x1_0000_0000_0000;
  }

  // ----- pieces of byte strings -----

  // The piece stands in s at i.
  predicate At(s: seq<byte>, i: nat, piece: seq<byte>) {
    i + |piece| <= |s| && s[i..i + |piece|] == piece
  }

  lemma AtParts(s: seq<byte>, i: nat, a: seq<byte>, b: seq<byte>)
    ensures At(s, i, a + b) <==> At(s, i, a) && At(s, i + |a|, b)
  {
    if i + |a + b| <= |s| {
      assert s[i..i + |a + b|] == s[i..i + |a|] + s[i + |a|..i + |a| + |b|];
      assert s[i..i + |a + b|][..|a|] == s[i..i + |a|] && s[i..i + |a + b|][|a|..] == s[i + |a|..i + |a| + |b|];
      assert (a + b)[..|a|] == a && (a + b)[|a|..] == b;
    }
  }
}
