/** 256-bit integers as four 64-bit limbs, least significant first, and the
    modular arithmetic built on them. Every operation is proved against the
    natural number that the limbs denote. */
module Limbs {
  import opened Words
  import opened NumberTheory

  const LIMB: int := 0x1_0000_0000_0000_0000

  type Uint256 = s: seq<u64> | |s| == 4 witness [0, 0, 0, 0]
  type WideUint512 = s: seq<u64> | |s| == 8 witness [0, 0, 0, 0, 0, 0, 0, 0]

  datatype Ordering = Less | Equal | Greater

  const ZERO: Uint256 := [0, 0, 0, 0]
  const ONE: Uint256 := [1, 0, 0, 0]

  // ----- the number denoted by a limb string -----

  function LimbPow(i: nat): (r: nat)
    ensures r > 0
  {
    if i == 0 then 1 else LIMB * LimbPow(i - 1)
  }

  function Val(s: seq<u64>): (v: nat) {
    if s == [] then 0 else Val(s[..|s| - 1]) + s[|s| - 1] * LimbPow(|s| - 1)
  }

  lemma EmptyVal(s: seq<u64>)
    requires s == []
    ensures Val(s) == 0 && LimbPow(0) == 1
  {
  }

  lemma NextPow(i: nat)
    ensures LimbPow(i + 1) == LIMB * LimbPow(i)
  {
  }

  lemma ValStep(s: seq<u64>, i: nat)
    requires i < |s|
    ensures Val(s[..i + 1]) == Val(s[..i]) + s[i] * LimbPow(i)
  {
    assert s[..i + 1][..i] == s[..i];
  }

  lemma ScaleDigit(d: int, w: int)
    requires 0 <= d < LIMB && w > 0
    ensures d * w <= LIMB * w - w
  {
    MulNonneg(LIMB - 1 - d, w);
    assert (LIMB - 1 - d) * w == LIMB * w - w - d * w;
  }

  lemma {:induction false} ValBound(s: seq<u64>)
    ensures Val(s) < LimbPow(|s|)
  {
    if s != [] {
      ValBound(s[..|s| - 1]);
      ScaleDigit(s[|s| - 1], LimbPow(|s| - 1));
    }
  }

  lemma {:induction false} LimbPowAdds(i: nat, j: nat)
    ensures LimbPow(i + j) == LimbPow(i) * LimbPow(j)
  {
    if i != 0 {
      LimbPowAdds(i - 1, j);
      assert LIMB * (LimbPow(i - 1) * LimbPow(j)) == (LIMB * LimbPow(i - 1)) * LimbPow(j);
    }
  }

  lemma {:induction false} ValSplit(s: seq<u64>, i: nat)
    requires i <= |s|
    ensures Val(s) == Val(s[..i]) + LimbPow(i) * Val(s[i..])
  {
    if i == |s| {
      assert s[..i] == s;
    } else {
      var n := |s| - 1;
      var t := s[..n];
      ValSplit(t, i);
      assert t[..i] == s[..i];
      assert s[i..][..n - i] == t[i..];
      LimbPowAdds(i, n - i);
      Distribute(LimbPow(i), Val(t[i..]), s[n], LimbPow(n - i));
    }
  }

  lemma Distribute(w: int, v: int, d: int, u: int)
    ensures w * (v + d * u) == w * v + d * (w * u)
  {
    assert w * (d * u) == d * (w * u);
  }

  lemma {:induction false} ValZero(s: seq<u64>)
    requires forall k :: 0 <= k < |s| ==> s[k] == 0
    ensures Val(s) == 0
  {
    if s != [] {
      ValZero(s[..|s| - 1]);
    }
  }

  lemma {:induction false} ValUpdate(s: seq<u64>, i: nat, d: u64)
    requires i < |s|
    ensures Val(s[i := d]) == Val(s) + (d - s[i]) * LimbPow(i)
  {
    var n := |s| - 1;
    if i == n {
      assert s[i := d][..n] == s[..n];
      assert (d - s[i]) * LimbPow(i) == d * LimbPow(i) - s[i] * LimbPow(i);
    } else {
      assert s[i := d][..n] == s[..n][i := d];
      ValUpdate(s[..n], i, d);
    }
  }

  lemma LimbPow4()
    ensures LimbPow(4) == 0x1_0000000000000000_0000000000000000_0000000000000000_0000000000000000
    ensures LimbPow(8) == LimbPow(4) * LimbPow(4)
    ensures LimbPow(5) == LIMB * LimbPow(4)
  {
    assert LimbPow(3) == LIMB * (LIMB * LIMB);
    LimbPowAdds(4, 4);
  }

  // The value of four limbs, written out.
  lemma Val4(s: seq<u64>)
    requires |s| == 4
    ensures Val(s) == s[0] + s[1] * LimbPow(1) + s[2] * LimbPow(2) + s[3] * LimbPow(3)
  {
    assert s[..4] == s;
    ValStep(s, 3);
    ValStep(s, 2);
    ValStep(s, 1);
    ValStep(s, 0);
  }

  // Two limb strings of one length that denote one number are one string.
  lemma {:induction false} ValInjective(s: seq<u64>, t: seq<u64>)
    requires |s| == |t| && Val(s) == Val(t)
    ensures s == t
  {
    if s != [] {
      var n := |s| - 1;
      ValBound(s[..n]);
      ValBound(t[..n]);
      SameQuotient(s[n], Val(s[..n]), t[n], Val(t[..n]), LimbPow(n));
      ValInjective(s[..n], t[..n]);
      assert s == s[..n] + [s[n]] && t == t[..n] + [t[n]];
    }
  }

  // ----- comparison -----

  // Comparing limbs from the most significant down compares the numbers.
  lemma CompareAt(s: seq<u64>, t: seq<u64>, i: nat)
    requires i < |s| == |t| && s[i + 1..] == t[i + 1..] && s[i] < t[i]
    ensures Val(s) < Val(t)
  {
    ValSplit(s, i + 1);
    ValSplit(t, i + 1);
    ValStep(s, i);
    ValStep(t, i);
    ValBound(s[..i]);
    LeadingDigit(Val(s[..i]), Val(t[..i]), s[i], t[i], LimbPow(i));
  }

  lemma LeadingDigit(x: nat, y: nat, a: nat, b: nat, w: nat)
    requires x < w && a < b
    ensures x + a * w < y + b * w
  {
    MulMono(a + 1, b, w);
    assert (a + 1) * w == a * w + w;
  }

  method CompareLimbs(left: seq<u64>, right: seq<u64>) returns (r: Ordering)
    requires |left| == |right|
    ensures r == if Val(left) < Val(right) then Less else if Val(left) == Val(right) then Equal else Greater
  {
    var i := |left|;
    while i > 0
      invariant 0 <= i <= |left|
      invariant left[i..] == right[i..]
    {
      i := i - 1;
      if left[i] < right[i] {
        CompareAt(left, right, i);
        return Less;
      }
      if left[i] > right[i] {
        CompareAt(right, left, i);
        return Greater;
      }
      assert left[i..] == [left[i]] + left[i + 1..];
      assert right[i..] == [right[i]] + right[i + 1..];
    }
    assert left[0..] == left && right[0..] == right;
    return Equal;
  }

  // ----- one-limb operations -----

  function AddLimb(a: u64, b: u64): (u64, bool) {
    ((a + b) % LIMB, a + b >= LIMB)
  }

  function SubLimb(a: u64, b: u64): (u64, bool) {
    ((a - b) % LIMB, a < b)
  }

  function Bit(b: bool): u64 {
    if b then 1 else 0
  }

  // ----- addition and subtraction -----

  lemma CarryStep(v: int, x: int, y: int, a: int, b: int, c: int, d: int, c': int, w: int)
    requires v + c * w == x + y && d + c' * LIMB == a + b + c
    ensures v + d * w + c' * (LIMB * w) == (x + a * w) + (y + b * w)
  {
    assert (d + c' * LIMB) * w == (a + b + c) * w;
    assert (d + c' * LIMB) * w == d * w + c' * (LIMB * w);
    assert (a + b + c) * w == a * w + b * w + c * w;
  }

  lemma BorrowStep(v: int, x: int, y: int, a: int, b: int, c: int, d: int, c': int, w: int)
    requires v + y == x + c * w && d + b + c == a + c' * LIMB
    ensures (v + d * w) + (y + b * w) == (x + a * w) + c' * (LIMB * w)
  {
    assert (d + b + c) * w == (a + c' * LIMB) * w;
    assert (d + b + c) * w == d * w + b * w + c * w;
    assert (a + c' * LIMB) * w == a * w + c' * (LIMB * w);
  }

  method OverflowingAdd(left: Uint256, right: Uint256) returns (r: Uint256, carry: bool)
    ensures Val(r) + Bit(carry) * LimbPow(4) == Val(left) + Val(right)
  {
    hide LimbPow, Val;
    var output := new u64[4](_ => 0);
    carry := false;
    var index := 0;
    EmptyVal(left[..0]);
    EmptyVal(output[..0]);
    while index < 4
      invariant 0 <= index <= 4
      invariant Val(output[..index]) + Bit(carry) * LimbPow(index) == Val(left[..index]) + Val(right[..index])
    {
      var (partial, carryA) := AddLimb(left[index], right[index]);
      var (sum, carryB) := AddLimb(partial, Bit(carry));
      ghost var before := output[..index];
      CarryStep(Val(before), Val(left[..index]), Val(right[..index]), left[index], right[index], Bit(carry),
                sum, Bit(carryA || carryB), LimbPow(index));
      output[index] := sum;
      carry := carryA || carryB;
      ValStep(left, index);
      ValStep(right, index);
      ValStep(output[..], index);
      NextPow(index);
      assert output[..][..index] == before && output[..][..index + 1] == output[..index + 1];
      index := index + 1;
    }
    assert left[..4] == left && right[..4] == right;
    r := output[..];
    assert output[..4] == output[..];
  }

  method OverflowingSub(left: Uint256, right: Uint256) returns (r: Uint256, borrow: bool)
    ensures Val(r) + Val(right) == Val(left) + Bit(borrow) * LimbPow(4)
    ensures borrow <==> Val(left) < Val(right)
  {
    hide LimbPow, Val;
    var output := new u64[4](_ => 0);
    borrow := false;
    var index := 0;
    EmptyVal(left[..0]);
    EmptyVal(output[..0]);
    while index < 4
      invariant 0 <= index <= 4
      invariant Val(output[..index]) + Val(right[..index]) == Val(left[..index]) + Bit(borrow) * LimbPow(index)
    {
      var (partial, borrowA) := SubLimb(left[index], right[index]);
      var (difference, borrowB) := SubLimb(partial, Bit(borrow));
      ghost var before := output[..index];
      BorrowStep(Val(before), Val(left[..index]), Val(right[..index]), left[index], right[index], Bit(borrow),
                 difference, Bit(borrowA || borrowB), LimbPow(index));
      output[index] := difference;
      borrow := borrowA || borrowB;
      ValStep(left, index);
      ValStep(right, index);
      ValStep(output[..], index);
      NextPow(index);
      assert output[..][..index] == before && output[..][..index + 1] == output[..index + 1];
      index := index + 1;
    }
    assert left[..4] == left && right[..4] == right;
    r := output[..];
    assert output[..4] == output[..];
    ValBound(r);
    ValBound(left);
    ValBound(right);
  }

  // ----- schoolbook multiplication -----

  // One inner step never exceeds 128 bits and keeps the running total.
  lemma MultiplyStep(a: int, b: int, out: int, carry: int)
    requires 0 <= a < LIMB && 0 <= b < LIMB && 0 <= out < LIMB && 0 <= carry < LIMB
    ensures 0 <= a * b + out + carry < LIMB * LIMB
    ensures 0 <= (a * b + out + carry) / LIMB < LIMB
  {
    ProductBound(a, b, LIMB - 1, LIMB - 1);
  }

  lemma MultiplyTotal(v: int, t: int, out: int, carry: int, a: int, b: int, d: int, carry': int, w: int, u: int, bv: int)
    requires v + carry * (w * u) == t + a * bv * w
    requires d + carry' * LIMB == a * b + out + carry
    ensures v + (d - out) * (w * u) + carry' * (LIMB * (w * u)) == t + a * (bv + b * u) * w
  {
    var k := w * u;
    assert (d + carry' * LIMB) * k == (a * b + out + carry) * k;
    assert (d + carry' * LIMB) * k == d * k + carry' * (LIMB * k);
    assert (a * b + out + carry) * k == (a * b) * k + out * k + carry * k;
    assert (d - out) * k == d * k - out * k;
    assert a * (bv + b * u) * w == a * bv * w + (a * b) * k by {
      assert a * (bv + b * u) == a * bv + (a * b) * u;
      assert ((a * b) * u) * w == (a * b) * (u * w);
    }
  }

  method MultiplyWide(left: Uint256, right: Uint256) returns (r: WideUint512)
    ensures Val(r) == Val(left) * Val(right)
  {
    hide LimbPow, Val;
    var output := new u64[8](_ => 0);
    ValZero(output[..]);
    EmptyVal(left[..0]);
    EmptyVal(right[..0]);
    var leftIndex := 0;
    while leftIndex < 4
      invariant 0 <= leftIndex <= 4
      invariant Val(output[..]) == Val(left[..leftIndex]) * Val(right)
      invariant forall k :: leftIndex + 4 <= k < 8 ==> output[k] == 0
    {
      var carry: int := 0;
      var rightIndex := 0;
      ghost var total := Val(left[..leftIndex]) * Val(right);
      ghost var w := LimbPow(leftIndex);
      while rightIndex < 4
        invariant 0 <= rightIndex <= 4 && 0 <= carry < LIMB
        invariant Val(output[..]) + carry * (w * LimbPow(rightIndex)) == total + left[leftIndex] * Val(right[..rightIndex]) * w
        invariant forall k :: leftIndex + 4 <= k < 8 ==> output[k] == 0
      {
        var outputIndex := leftIndex + rightIndex;
        var a: int, b: int := left[leftIndex], right[rightIndex];
        var product := a * b;
        MultiplyStep(a, b, output[outputIndex], carry);
        var accumulated := product + output[outputIndex] + carry;
        assert accumulated < LIMB * LIMB;  // fits in 128 bits
        var digit: u64 := accumulated % LIMB;
        MultiplyTotal(Val(output[..]), total, output[outputIndex], carry, a, b,
                      digit, accumulated / LIMB, w, LimbPow(rightIndex), Val(right[..rightIndex]));
        LimbPowAdds(leftIndex, rightIndex);
        ValUpdate(output[..], outputIndex, digit);
        ScaleSwap(LIMB, w, LimbPow(rightIndex));
        NextPow(rightIndex);
        ghost var before := output[..];
        output[outputIndex] := digit;
        assert output[..] == before[outputIndex := digit];
        carry := accumulated / LIMB;
        ValStep(right, rightIndex);
        rightIndex := rightIndex + 1;
      }
      assert right[..4] == right;
      LimbPowAdds(leftIndex, 4);
      ValStep(left, leftIndex);
      RowTotal(Val(left[..leftIndex]), left[leftIndex], Val(right), w);

      var outputIndex := leftIndex + 4;
      while carry != 0
        invariant 0 <= carry < LIMB && outputIndex <= 8
        invariant carry != 0 ==> outputIndex == leftIndex + 4
        invariant Val(output[..]) + carry * LimbPow(leftIndex + 4) == Val(left[..leftIndex + 1]) * Val(right)
        invariant forall k :: leftIndex + 5 <= k < 8 ==> output[k] == 0
        invariant carry != 0 ==> output[leftIndex + 4] == 0
        decreases carry
      {
        assert outputIndex < output.Length;  // the 512-bit overflow assertion of the source
        var accumulated := output[outputIndex] + carry;
        var digit: u64 := accumulated % LIMB;
        ValUpdate(output[..], outputIndex, digit);
        ghost var before := output[..];
        output[outputIndex] := digit;
        assert output[..] == before[outputIndex := digit];
        carry := accumulated / LIMB;
        outputIndex := outputIndex + 1;
      }
      leftIndex := leftIndex + 1;
    }
    assert left[..4] == left;
    r := output[..];
  }

  lemma ScaleSwap(l: int, w: int, u: int)
    ensures l * (w * u) == w * (l * u)
  {
  }

  lemma RowTotal(v: int, d: int, y: int, w: int)
    ensures v * y + d * y * w == (v + d * w) * y
  {
    assert (d * w) * y == d * y * w;
  }

  // ----- bits -----

  function BitOf(limbs: seq<u64>, index: nat): bool
    requires index < 64 * |limbs|
  {
    limbs[index / 64] / Pow2(index % 64) % 2 != 0
  }

  lemma {:induction false} LimbPowIsPow2(i: nat)
    ensures LimbPow(i) == Pow2(64 * i)
  {
    if i != 0 {
      LimbPowIsPow2(i - 1);
      Pow2Adds(64, 64 * (i - 1));
      Pow2Of64();
    }
  }

  lemma Pow2Of64()
    ensures Pow2(64) == LIMB
  {
    assert Pow2(8) == 256;
    hide Pow2;
    Pow2Adds(8, 8);
    assert Pow2(16) == 0x10000;
    Pow2Adds(16, 16);
    assert Pow2(32) == 0x1_0000_0000;
    Pow2Adds(32, 32);
  }

  lemma DropLowLimbs(s: seq<u64>, i: nat)
    requires i <= |s|
    ensures Val(s) / LimbPow(i) == Val(s[i..])
  {
    hide LimbPow, Val;
    ValSplit(s, i);
    ValBound(s[..i]);
    var w, high := LimbPow(i), Val(s[i..]);
    assert w * high == high * w;
    DivModUnique(high, Val(s[..i]), w);
  }

  lemma HeadLimb(s: seq<u64>)
    requires s != []
    ensures Val(s) == s[0] + LIMB * Val(s[1..])
  {
    ValSplit(s, 1);
    assert s[..1] == [s[0]] && [s[0]][..0] == [];
    assert Val([s[0]]) == s[0];
    assert LimbPow(1) == LIMB;
  }

  // Testing one bit of one limb tests that bit of the number.
  lemma BitOfValue(s: seq<u64>, index: nat)
    requires index < 64 * |s|
    ensures (if BitOf(s, index) then 1 else 0) == Val(s) / Pow2(index) % 2
  {
    hide Val, LimbPow, Pow2;
    var i, o := index / 64, index % 64;
    assert Val(s) / Pow2(index) == Val(s[i..]) / Pow2(o) by {
      DropLowLimbs(s, i);
      LimbPowIsPow2(i);
      Pow2Adds(64 * i, o);
      DivDiv(Val(s), LimbPow(i), Pow2(o));
    }
    HeadLimb(s[i..]);
    LowBits(s[i], Val(s[i..][1..]), o);
  }

  lemma LowBits(d: u64, rest: nat, o: nat)
    requires o < 64
    ensures (d + LIMB * rest) / Pow2(o) % 2 == d / Pow2(o) % 2
  {
    SplitLimb(o);
    hide Pow2;
    var w, u := Pow2(o), Pow2(63 - o);
    LowBitsScaled(d, rest, w, u);
  }

  lemma SplitLimb(o: nat)
    requires o < 64
    ensures LIMB == 2 * (Pow2(o) * Pow2(63 - o))
  {
    assert Pow2(64 - o) == 2 * Pow2(63 - o);
    hide Pow2;
    Pow2Adds(o, 64 - o);
    Pow2Of64();
    Swap(Pow2(o), 2, Pow2(63 - o));
  }

  lemma LowBitsScaled(d: int, rest: int, w: int, u: int)
    requires w > 0 && LIMB == 2 * (w * u)
    ensures (d + LIMB * rest) / w % 2 == d / w % 2
  {
    ScaledTail(d, w, u, rest);
    AddEven(d / w, u * rest);
  }

  lemma AddEven(x: int, y: int)
    ensures (x + 2 * y) % 2 == x % 2
  {
  }

  lemma ScaledTail(d: int, w: int, u: int, rest: int)
    requires w > 0
    ensures (d + 2 * (w * u) * rest) / w == d / w + 2 * (u * rest)
  {
    assert 2 * (w * u) * rest == 2 * (u * rest) * w;
    assert d == d / w * w + d % w;
    assert (d / w + 2 * (u * rest)) * w == d / w * w + 2 * (u * rest) * w;
    DivModUnique(d / w + 2 * (u * rest), d % w, w);
  }

  // ----- reduction -----

  method ShiftFiveLimbsLeftOne(limbs: array<u64>)
    requires limbs.Length == 5 && 2 * Val(limbs[..]) < LimbPow(5)
    modifies limbs
    ensures Val(limbs[..]) == 2 * old(Val(limbs[..]))
    ensures limbs[0] % 2 == 0
  {
    hide LimbPow, Val;
    ghost var start := limbs[..];
    var carry: u64 := 0;
    var i := 0;
    EmptyVal(start[..0]);
    EmptyVal(limbs[..0]);
    while i < 5
      invariant 0 <= i <= 5 && 0 <= carry <= 1
      invariant limbs[i..] == start[i..]
      invariant Val(limbs[..i]) + carry * LimbPow(i) == 2 * Val(start[..i])
      invariant i > 0 ==> limbs[0] % 2 == 0
    {
      var nextCarry := limbs[i] / 0x8000_0000_0000_0000;
      var shifted := limbs[i] * 2 % LIMB;
      ghost var before := limbs[..i];
      assert limbs[i] == start[i];
      ShiftStep(Val(before), Val(start[..i]), start[i], carry, LimbPow(i));
      limbs[i] := Or(shifted, carry);
      carry := nextCarry;
      ValStep(start, i);
      ValStep(limbs[..], i);
      NextPow(i);
      assert limbs[..][..i] == before && limbs[..][..i + 1] == limbs[..i + 1];
      i := i + 1;
    }
    assert start[..5] == start && limbs[..5] == limbs[..];
  }

  lemma ShiftStep(v: int, x: int, d: u64, carry: u64, w: int)
    requires v + carry * w == 2 * x && carry <= 1
    ensures Or(d * 2 % LIMB, carry) == d * 2 % LIMB + carry < LIMB
    ensures v + (d * 2 % LIMB + carry) * w + d / 0x8000_0000_0000_0000 * (LIMB * w) == 2 * (x + d * w)
  {
    OrBit(d * 2 % LIMB, carry);
    CarryStep(v, x, x, d, d, carry, d * 2 % LIMB + carry, d / 0x8000_0000_0000_0000, w);
  }

  // Setting the low bit of an even value adds the bit.
  lemma OrBit(x: nat, b: nat)
    requires x % 2 == 0 && b <= 1
    ensures Or(x, b) == x + b
  {
    assert Pow2(1) == 2;
    OrDisjoint(b, x, 1);
  }

  method SubtractFiveLimbs(left: array<u64>, right: seq<u64>)
    requires left.Length == 5 && |right| == 5 && Val(left[..]) >= Val(right)
    modifies left
    ensures Val(left[..]) == old(Val(left[..])) - Val(right)
  {
    hide LimbPow, Val;
    ghost var start := left[..];
    var borrow := false;
    var i := 0;
    EmptyVal(start[..0]);
    EmptyVal(right[..0]);
    EmptyVal(left[..0]);
    while i < 5
      invariant 0 <= i <= 5
      invariant left[i..] == start[i..]
      invariant Val(left[..i]) + Val(right[..i]) == Val(start[..i]) + Bit(borrow) * LimbPow(i)
    {
      assert left[i] == start[i];
      var (partial, borrowA) := SubLimb(left[i], right[i]);
      var (difference, borrowB) := SubLimb(partial, Bit(borrow));
      ghost var before := left[..i];
      BorrowStep(Val(before), Val(start[..i]), Val(right[..i]), start[i], right[i], Bit(borrow),
                 difference, Bit(borrowA || borrowB), LimbPow(i));
      left[i] := difference;
      borrow := borrowA || borrowB;
      ValStep(start, i);
      ValStep(right, i);
      ValStep(left[..], i);
      NextPow(i);
      assert left[..][..i] == before && left[..][..i + 1] == left[..i + 1];
      i := i + 1;
    }
    assert start[..5] == start && right[..5] == right && left[..5] == left[..];
    ValBound(left[..]);
    assert !borrow;
  }

  // One step of long division in base two.
  lemma ReduceStep(v: nat, i: nat, m: nat, r: nat, r': int)
    requires m > 0 && r == v / Pow2(i + 1) % m
    requires r' == 2 * r + v / Pow2(i) % 2
    ensures 0 <= r' < 2 * m
    ensures (if r' < m then r' else r' - m) == v / Pow2(i) % m
  {
    var q := v / Pow2(i);
    assert Pow2(i + 1) == Pow2(i) * 2;
    DivDiv(v, Pow2(i), 2);
    assert q == 2 * (q / 2) + q % 2;
    var k := q / 2 / m;
    assert q / 2 == k * m + r;
    assert q == 2 * k * m + r';
    if r' < m {
      DivModUnique(2 * k, r', m);
    } else {
      assert (2 * k + 1) * m == 2 * k * m + m;
      DivModUnique(2 * k + 1, r' - m, m);
    }
  }

  method ReduceWide(value: WideUint512, modulus: Uint256) returns (r: Uint256)
    requires Val(modulus) > 0
    ensures Val(r) == Val(value) % Val(modulus)
  {
    hide LimbPow, Val, Pow2, Or;
    var wideModulus := [modulus[0], modulus[1], modulus[2], modulus[3], 0];
    assert wideModulus == modulus + [0];
    Widen(modulus, [0]);
    var remainder := new u64[5](_ => 0);
    ValZero(remainder[..]);
    ghost var v, m := Val(value), Val(modulus);
    ReduceStart(value, modulus);
    var bitIndex := 512;
    while bitIndex > 0
      invariant 0 <= bitIndex <= 512
      invariant Val(remainder[..]) == v / Pow2(bitIndex) % m
    {
      bitIndex := bitIndex - 1;
      ghost var r0 := Val(remainder[..]);
      ShiftFiveLimbsLeftOne(remainder);
      ghost var shifted := remainder[..];
      BitOfValue(value, bitIndex);
      LowBitSet(shifted);
      if BitOf(value, bitIndex) {
        remainder[0] := Or(remainder[0], 1);
        assert remainder[..] == shifted[0 := shifted[0] + 1];
      }
      ReduceStep(v, bitIndex, m, r0, Val(remainder[..]));
      var ordering := CompareLimbs(remainder[..], wideModulus);
      if ordering != Less {
        SubtractFiveLimbs(remainder, wideModulus);
      }
    }
    Pow2Zero(v);
    TopLimbZero(remainder[..]);
    r := [remainder[0], remainder[1], remainder[2], remainder[3]];
    assert r == remainder[..][..4];
  }

  lemma Pow2Zero(v: int)
    ensures v / Pow2(0) == v
  {
  }

  lemma ReduceStart(value: WideUint512, modulus: Uint256)
    requires Val(modulus) > 0
    ensures Val(value) / Pow2(512) % Val(modulus) == 0
    ensures 2 * Val(modulus) < LimbPow(5) && Val(modulus) < LimbPow(4)
  {
    ValBound(modulus);
    LimbPow4();
    ValBound(value);
    LimbPowIsPow2(8);
    ModSmall(Val(value), Pow2(512));
    ModSmall(0, Val(modulus));
  }

  lemma LowBitSet(s: seq<u64>)
    requires |s| > 0 && s[0] % 2 == 0
    ensures Or(s[0], 1) == s[0] + 1 < LIMB
    ensures Val(s[0 := s[0] + 1]) == Val(s) + 1
  {
    OrBit(s[0], 1);
    ValUpdate(s, 0, s[0] + 1);
  }

  lemma TopLimbZero(s: seq<u64>)
    requires |s| == 5 && Val(s) < LimbPow(4)
    ensures s[4] == 0 && Val(s[..4]) == Val(s)
  {
    assert s[..5] == s;
    ValStep(s, 4);
    ValBound(s[..4]);
    SameQuotient(s[4], Val(s[..4]), 0, Val(s), LimbPow(4));
  }

  lemma Widen(s: seq<u64>, t: seq<u64>)
    requires forall k :: 0 <= k < |t| ==> t[k] == 0
    ensures Val(s + t) == Val(s)
  {
    ValSplit(s + t, |s|);
    assert (s + t)[..|s|] == s && (s + t)[|s|..] == t;
    ValZero(t);
  }

  // ----- modular operations -----

  method ReduceUint(value: Uint256, modulus: Uint256) returns (r: Uint256)
    requires Val(modulus) > 0
    ensures Val(r) == Val(value) % Val(modulus)
  {
    Widen(value, [0, 0, 0, 0]);
    assert [value[0], value[1], value[2], value[3], 0, 0, 0, 0] == value + [0, 0, 0, 0];
    r := ReduceWide([value[0], value[1], value[2], value[3], 0, 0, 0, 0], modulus);
  }

  method AddMod(left: Uint256, right: Uint256, modulus: Uint256) returns (r: Uint256)
    requires Val(modulus) > 0
    ensures Val(r) == (Val(left) + Val(right)) % Val(modulus)
  {
    var sum, carry := OverflowingAdd(left, right);
    var wide := [sum[0], sum[1], sum[2], sum[3], Bit(carry), 0, 0, 0];
    Widen(wide[..5], [0, 0, 0]);
    assert wide == wide[..5] + [0, 0, 0];
    assert wide[..5][..4] == sum;
    r := ReduceWide(wide, modulus);
  }

  method SubMod(left: Uint256, right: Uint256, modulus: Uint256) returns (r: Uint256)
    requires Val(left) < Val(modulus) && Val(right) < Val(modulus)
    ensures Val(r) == (Val(left) - Val(right)) % Val(modulus)
  {
    ValBound(modulus);
    var ordering := CompareLimbs(left, right);
    var borrow;
    if ordering != Less {
      r, borrow := OverflowingSub(left, right);
      ModSmall(Val(r), Val(modulus));
    } else {
      var difference;
      difference, borrow := OverflowingSub(right, left);
      r, borrow := OverflowingSub(modulus, difference);
      ModSmall(Val(r), Val(modulus));
      ModFromMultiple(Val(left) - Val(right), Val(r), -1, Val(modulus));
    }
  }

  method MulMod(left: Uint256, right: Uint256, modulus: Uint256) returns (r: Uint256)
    requires Val(modulus) > 0
    ensures Val(r) == (Val(left) * Val(right)) % Val(modulus)
  {
    var wide := MultiplyWide(left, right);
    r := ReduceWide(wide, modulus);
  }

  lemma PowHalves(b: int, q: nat)
    ensures Pow(b, q) == Pow(b, q / 2) * Pow(b, q / 2) * (if q % 2 == 1 then b else 1)
  {
    PowAdds(b, q / 2, q / 2);
    if q % 2 == 1 {
      PowAdds(b, 2 * (q / 2), 1);
      assert Pow(b, 1) == b * Pow(b, 0);
    }
  }

  // The number formed by dropping the low i bits of e.
  function Leading(e: nat, i: nat): nat {
    var w := Pow2(i);
    DivNonneg(e, w);
    e / w
  }

  lemma LeadingStep(e: nat, i: nat)
    ensures Leading(e, i + 1) == Leading(e, i) / 2
  {
    var w := Pow2(i);
    assert Pow2(i + 1) == w * 2;
    DivDiv(e, w, 2);
  }

  // Squaring, and multiplying by the base on a one bit, extends the exponent by that bit.
  lemma PowStep(b: int, q: nat, m: nat, square: int, r: int)
    requires m > 0
    requires square % m == (Pow(b, q / 2) * Pow(b, q / 2)) % m
    requires r % m == if q % 2 == 1 then (square * (b % m)) % m else square % m
    ensures r % m == Pow(b, q) % m
  {
    hide Pow;
    PowHalves(b, q);
    if q % 2 == 1 {
      var h := Pow(b, q / 2);
      ModIdempotent(b, m);
      ModMulCong(square, h * h, b % m, b, m);
    }
  }

  method PowMod(base: Uint256, exponent: Uint256, modulus: Uint256) returns (r: Uint256)
    requires Val(modulus) > 0
    ensures Val(r) == Pow(Val(base), Val(exponent)) % Val(modulus)
  {
    hide LimbPow, Val, Pow, Pow2, Leading;
    r := ONE;
    var b := ReduceUint(base, modulus);
    ghost var e, m := Val(exponent), Val(modulus);
    PowStart(Val(base), exponent);
    var bitIndex := 256;
    while bitIndex > 0
      invariant 0 <= bitIndex <= 256
      invariant Val(r) % m == Pow(Val(base), Leading(e, bitIndex)) % m
      invariant bitIndex < 256 ==> Val(r) < m
    {
      bitIndex := bitIndex - 1;
      ghost var q := Leading(e, bitIndex);
      LeadingStep(e, bitIndex);
      ghost var p := Pow(Val(base), q / 2);
      ModMulCong(Val(r), p, Val(r), p, m);
      ModIdempotent(Val(r) * Val(r), m);
      r := MulMod(r, r, modulus);
      ghost var square := Val(r);
      LeadingBit(exponent, bitIndex);
      if BitOf(exponent, bitIndex) {
        r := MulMod(r, b, modulus);
        ModIdempotent(square * Val(b), m);
      }
      PowStep(Val(base), q, m, square, Val(r));
    }
    LeadingAll(e);
    ModSmall(Val(r), m);
  }

  lemma LeadingBit(s: seq<u64>, i: nat)
    requires i < 64 * |s|
    ensures BitOf(s, i) <==> Leading(Val(s), i) % 2 == 1
  {
    BitOfValue(s, i);
  }

  lemma LeadingAll(e: nat)
    ensures Leading(e, 0) == e
  {
    assert Pow2(0) == 1;
  }

  lemma PowStart(b: int, exponent: Uint256)
    ensures Val(ONE) == Pow(b, Leading(Val(exponent), 256))
  {
    ValBound(exponent);
    LimbPowIsPow2(4);
    ModSmall(Val(exponent), Pow2(256));
    ValOfOne();
  }

  lemma ValOfOne()
    ensures Val(ONE) == 1 && Val(ZERO) == 0 && Val([2, 0, 0, 0]) == 2
  {
    Val4(ONE);
    Val4(ZERO);
    Val4([2, 0, 0, 0]);
  }

  /** The multiplicative inverse modulo a prime, and None exactly on zero. */
  method InvertMod(value: Uint256, modulus: Uint256) returns (r: Option<Uint256>)
    requires Prime(Val(modulus))
    ensures r.None? <==> Val(value) % Val(modulus) == 0
    ensures r.Some? ==> Val(r.value) == Inverse(Val(value), Val(modulus))
    ensures r.Some? ==> Val(r.value) < Val(modulus) && (Val(r.value) * Val(value)) % Val(modulus) == 1
  {
    var reduced := ReduceUint(value, modulus);
    ValOfOne();
    ValBound(modulus);
    if reduced == ZERO {
      return None;
    }
    if Val(reduced) == 0 {
      ValInjective(reduced, ZERO);
    }
    var exponent, borrow := OverflowingSub(modulus, [2, 0, 0, 0]);
    var power := PowMod(reduced, exponent, modulus);
    ModIdempotent(Val(value), Val(modulus));
    PowModCong(Val(reduced), Val(value), Val(modulus) - 2, Val(modulus));
    InverseCorrect(Val(value), Val(modulus));
    return Some(power);
  }

  // ----- big-endian bytes -----

  function LimbFromBytes(b: seq<byte>): u64
    requires |b| == 8
  {
    BEBound(b);
    assert Pow256(8) == LIMB;
    BE(b)
  }

  method FromBEBytes(bytes: seq<byte>) returns (r: Uint256)
    requires |bytes| == 32
    ensures Val(r) == BE(bytes)
  {
    hide LimbPow, Val;
    var limbs := new u64[4](_ => 0);
    var index := 0;
    EmptyVal(limbs[..0]);
    while index < 4
      invariant 0 <= index <= 4
      invariant Val(limbs[..index]) == BE(bytes[32 - 8 * index..])
    {
      var start := 32 - (index + 1) * 8;
      ghost var before := limbs[..index];
      limbs[index] := LimbFromBytes(bytes[start..start + 8]);
      ValStep(limbs[..], index);
      assert limbs[..][..index] == before && limbs[..][..index + 1] == limbs[..index + 1];
      assert bytes[start..] == bytes[start..start + 8] + bytes[start + 8..];
      BEAppend(bytes[start..start + 8], bytes[start + 8..]);
      LimbPowIsPow256(index);
      index := index + 1;
    }
    r := limbs[..];
    assert limbs[..4] == limbs[..] && bytes[0..] == bytes;
  }

  lemma Pow256Adds8(n: nat)
    ensures Pow256(n + 8) == LIMB * Pow256(n)
  {
    assert Pow256(n + 2) == 256 * Pow256(n + 1) && Pow256(n + 1) == 256 * Pow256(n);
    assert Pow256(n + 4) == 256 * Pow256(n + 3) && Pow256(n + 3) == 256 * Pow256(n + 2);
    assert Pow256(n + 6) == 256 * Pow256(n + 5) && Pow256(n + 5) == 256 * Pow256(n + 4);
    assert Pow256(n + 8) == 256 * Pow256(n + 7) && Pow256(n + 7) == 256 * Pow256(n + 6);
  }

  lemma {:induction false} LimbPowIsPow256(i: nat)
    ensures LimbPow(i) == Pow256(8 * i)
  {
    if i != 0 {
      LimbPowIsPow256(i - 1);
      Pow256Adds8(8 * (i - 1));
    }
  }

  lemma EmptyBE(s: seq<byte>)
    requires s == []
    ensures BE(s) == 0
  {
  }

  function LimbToBytes(limb: u64): (b: seq<byte>)
    ensures |b| == 8 && BE(b) == limb
  {
    assert Pow256(8) == LIMB;
    BEOfToBE(limb, 8);
    ToBE(limb, 8)
  }

  method ToBEBytes(value: Uint256) returns (output: seq<byte>)
    ensures |output| == 32 && BE(output) == Val(value) && output == ToBE(Val(value), 32)
  {
    hide LimbPow, Val, Pow256, BE, ToBE;
    var buffer := new byte[32](_ => 0);
    var index := 0;
    EmptyVal(value[..0]);
    EmptyBE(buffer[32..]);
    while index < 4
      invariant 0 <= index <= 4
      invariant BE(buffer[32 - 8 * index..]) == Val(value[..index])
    {
      var start := 32 - (index + 1) * 8;
      ghost var tail := buffer[start + 8..];
      var limb := LimbToBytes(value[index]);
      forall k | start <= k < start + 8 {
        buffer[k] := limb[k - start];
      }
      assert buffer[start..start + 8] == limb;
      assert buffer[start + 8..] == tail;
      assert buffer[start..] == limb + tail;
      BEAppend(limb, tail);
      LimbPowIsPow256(index);
      assert |tail| == 8 * index;
      ValStep(value, index);
      index := index + 1;
    }
    assert value[..4] == value && buffer[0..] == buffer[..] && buffer[..] == buffer[..][..];
    output := buffer[..];
    ToBEOfBE(output);
  }
}
