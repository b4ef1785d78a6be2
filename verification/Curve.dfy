/** The curve y^2 = x^3 - 3x + b over the integers modulo a prime p > 3:
    the affine chord-and-tangent law, and the Jacobian formulas that
    compute it without division. */
module Curve {
  import opened Words
  import opened NumberTheory

  datatype Point = Identity | Affine(x: int, y: int)
  datatype Jacobian = Jacobian(x: int, y: int, z: int)

  ghost predicate Field(p: int) {
    Prime(p) && p > 3
  }

  predicate Reduced(a: int, p: int) {
    0 <= a < p
  }

  // ----- field operations; the limb methods AddMod, SubMod, MulMod and InvertMod compute these -----

  function Add(a: int, b: int, p: int): int
    requires p > 0
  {
    (a + b) % p
  }

  function Sub(a: int, b: int, p: int): int
    requires p > 0
  {
    (a - b) % p
  }

  function Mul(a: int, b: int, p: int): int
    requires p > 0
  {
    (a * b) % p
  }

  function Double(a: int, p: int): int
    requires p > 0
  {
    Add(a, a, p)
  }

  function Triple(a: int, p: int): int
    requires p > 0
  {
    Add(Double(a, p), a, p)
  }

  // Reduction commutes with the ring operations, so a formula evaluated with
  // field operations is the integer formula reduced once.
  lemma AddOf(a: int, A: int, b: int, B: int, p: int)
    requires p > 0 && a == A % p && b == B % p
    ensures Add(a, b, p) == (A + B) % p
  {
    ModIdempotent(A, p);
    ModIdempotent(B, p);
    ModAddCong(a, A, b, B, p);
  }

  lemma SubOf(a: int, A: int, b: int, B: int, p: int)
    requires p > 0 && a == A % p && b == B % p
    ensures Sub(a, b, p) == (A - B) % p
  {
    ModIdempotent(A, p);
    ModIdempotent(B, p);
    ModAddCong(a, A, b, B, p);
  }

  lemma MulOf(a: int, A: int, b: int, B: int, p: int)
    requires p > 0 && a == A % p && b == B % p
    ensures Mul(a, b, p) == (A * B) % p
  {
    ModIdempotent(A, p);
    ModIdempotent(B, p);
    ModMulCong(a, A, b, B, p);
  }

  lemma DoubleOf(a: int, A: int, p: int)
    requires p > 0 && a == A % p
    ensures Double(a, p) == (2 * A) % p
  {
    AddOf(a, A, a, A, p);
  }

  lemma TripleOf(a: int, A: int, p: int)
    requires p > 0 && a == A % p
    ensures Triple(a, p) == (3 * A) % p
  {
    DoubleOf(a, A, p);
    AddOf(Double(a, p), 2 * A, a, A, p);
  }

  // ----- points -----

  ghost predicate ValidPoint(q: Point, p: int) {
    q.Affine? ==> Reduced(q.x, p) && Reduced(q.y, p)
  }

  predicate IsOnCurve(q: Point, p: int, b: int)
    requires p > 3
  {
    match q
    case Identity => true
    case Affine(x, y) =>
      var squared := Mul(x, x, p);
      var cubed := Mul(squared, x, p);
      var ax := Mul(p - 3, x, p);
      Mul(y, y, p) == Add(Add(cubed, ax, p), b, p)
  }

  function Cubic(x: int, b: int): int {
    x * x * x - 3 * x + b
  }

  // The test the code makes is the curve equation: -3 is p - 3.
  lemma IsOnCurveIff(x: int, y: int, p: int, b: int)
    requires p > 3 && Reduced(x, p) && Reduced(y, p) && Reduced(b, p)
    ensures IsOnCurve(Affine(x, y), p, b) <==> (y * y) % p == Cubic(x, b) % p
  {
    ModSmall(x, p);
    ModSmall(b, p);
    MulOf(x, x, x, x, p);
    MulOf(Mul(x, x, p), x * x, x, x, p);
    assert (p - 3) * x - (-3 * x) == x * p;
    ModFromMultiple((p - 3) * x, -3 * x, x, p);
    var cubed, ax := Mul(Mul(x, x, p), x, p), Mul(p - 3, x, p);
    AddOf(cubed, x * x * x, ax, -3 * x, p);
    AddOf(Add(cubed, ax, p), x * x * x + -3 * x, b, b, p);
  }

  // A point the API can hold: reduced coordinates, on the curve.
  ghost predicate CurvePoint(q: Point, p: int, b: int)
    requires p > 3
  {
    ValidPoint(q, p) && IsOnCurve(q, p, b)
  }

  // ----- the affine group law -----

  function Slope(x1: int, y1: int, x2: int, y2: int, p: int): int
    requires p > 3
  {
    if x1 == x2 then (3 * (x1 * x1) - 3) * Inverse(2 * y1, p) else (y2 - y1) * Inverse(x2 - x1, p)
  }

  function ThirdPoint(l: int, x1: int, y1: int, x2: int, p: int): (q: Point)
    requires p > 3
    ensures q.Affine? && Reduced(q.x, p) && Reduced(q.y, p)
  {
    var x3 := l * l - x1 - x2;
    Affine(x3 % p, (l * (x1 - x3) - y1) % p)
  }

  function AddPoints(q: Point, r: Point, p: int): Point
    requires p > 3
  {
    match (q, r)
    case (Identity, _) => r
    case (_, Identity) => q
    case (Affine(x1, y1), Affine(x2, y2)) =>
      if x1 == x2 && (y1 + y2) % p == 0 then Identity
      else ThirdPoint(Slope(x1, y1, x2, y2, p), x1, y1, x2, p)
  }

  lemma DivideOut(num: int, den: int, p: int)
    requires Prime(p) && den % p != 0
    ensures (num * Inverse(den, p) * den) % p == num % p
  {
    InverseCorrect(den, p);
    ModSmall(1, p);
    ModMulCong(num, num, Inverse(den, p) * den, 1, p);
    assert num * Inverse(den, p) * den == num * (Inverse(den, p) * den);
    assert num * 1 == num;
  }

  // Two curve points with one x differ at most in the sign of y.
  lemma SameX(x: int, y1: int, y2: int, p: int, b: int)
    requires Field(p) && Reduced(b, p)
    requires CurvePoint(Affine(x, y1), p, b) && CurvePoint(Affine(x, y2), p, b)
    ensures y1 == y2 || (y1 + y2) % p == 0
  {
    IsOnCurveIff(x, y1, p, b);
    IsOnCurveIff(x, y2, p, b);
    assert (y1 - y2) * (y1 + y2) == y1 * y1 - y2 * y2;
    ModZeroIff(y1 * y1, y2 * y2, p);
    Euclid(y1 - y2, y1 + y2, p);
    ModZeroIff(y1, y2, p);
    ModSmall(y1, p);
    ModSmall(y2, p);
  }

  // The slope solves the equation of the chord, or of the tangent.
  lemma SlopeSolves(x1: int, y1: int, x2: int, y2: int, p: int, b: int)
    requires Field(p) && Reduced(b, p)
    requires CurvePoint(Affine(x1, y1), p, b) && CurvePoint(Affine(x2, y2), p, b)
    requires !(x1 == x2 && (y1 + y2) % p == 0)
    ensures var l := Slope(x1, y1, x2, y2, p);
            if x1 == x2 then y1 == y2 && (2 * y1) % p != 0 && (l * (2 * y1)) % p == (3 * (x1 * x1) - 3) % p
            else (x2 - x1) % p != 0 && (l * (x2 - x1)) % p == (y2 - y1) % p
  {
    if x1 == x2 {
      SameX(x1, y1, y2, p, b);
      DivideOut(3 * (x1 * x1) - 3, 2 * y1, p);
    } else {
      ModZeroIff(x2, x1, p);
      ModSmall(x1, p);
      ModSmall(x2, p);
      DivideOut(y2 - y1, x2 - x1, p);
    }
  }

  // ----- the line through two points meets the curve again at the third -----

  // Cubic minus squared line minus (t - x1)(t - x2)(t - x3) is linear in t.
  function LinearPart(l: int, x1: int, y1: int, x2: int): int {
    var x3 := l * l - x1 - x2;
    var c := y1 - l * x1;
    -3 - 2 * (l * c) - (x1 * x2 + x1 * x3 + x2 * x3)
  }

  function ConstantPart(l: int, x1: int, y1: int, x2: int, b: int): int {
    var x3 := l * l - x1 - x2;
    var c := y1 - l * x1;
    b - c * c + x1 * x2 * x3
  }

  function LineSquared(l: int, x1: int, y1: int, t: int): int {
    (l * (t - x1) + y1) * (l * (t - x1) + y1)
  }

  lemma LineSquaredExpanded(l: int, x1: int, y1: int, t: int)
    ensures var c := y1 - l * x1; LineSquared(l, x1, y1, t) == l * l * (t * t) + 2 * (l * c) * t + c * c
  {
    var c := y1 - l * x1;
    assert l * (t - x1) + y1 == l * t + c;
    assert (l * t + c) * (l * t + c) == (l * t) * (l * t) + 2 * ((l * t) * c) + c * c;
    assert (l * t) * (l * t) == l * l * (t * t);
    assert (l * t) * c == (l * c) * t;
  }

  lemma QuadraticTimesRoot(t: int, u: int, v: int, x3: int)
    ensures (t * t - u * t + v) * (t - x3) == t * t * t - (u + x3) * (t * t) + (v + u * x3) * t - v * x3
  {
    var w := t * t - u * t + v;
    assert w * (t - x3) == w * t - w * x3;
    assert w * t == t * t * t - u * t * t + v * t;
    assert u * t * t == u * (t * t);
    assert w * x3 == t * t * x3 - u * t * x3 + v * x3;
    assert (u + x3) * (t * t) == u * (t * t) + t * t * x3;
    assert (v + u * x3) * t == v * t + u * t * x3;
  }

  lemma RootsExpanded(x1: int, x2: int, x3: int, t: int)
    ensures (t - x1) * (t - x2) * (t - x3)
         == t * t * t - (x1 + x2 + x3) * (t * t) + (x1 * x2 + x1 * x3 + x2 * x3) * t - x1 * x2 * x3
  {
    assert (t - x1) * (t - x2) == t * t - (x1 + x2) * t + x1 * x2;
    QuadraticTimesRoot(t, x1 + x2, x1 * x2, x3);
    assert (x1 + x2) * x3 == x1 * x3 + x2 * x3;
  }

  lemma Interpolation(l: int, x1: int, y1: int, x2: int, b: int, t: int)
    ensures Cubic(t, b) - LineSquared(l, x1, y1, t) - (t - x1) * (t - x2) * (t - (l * l - x1 - x2))
         == LinearPart(l, x1, y1, x2) * t + ConstantPart(l, x1, y1, x2, b)
  {
    var x3 := l * l - x1 - x2;
    LineSquaredExpanded(l, x1, y1, t);
    RootsExpanded(x1, x2, x3, t);
    var c := y1 - l * x1;
    var e2 := x1 * x2 + x1 * x3 + x2 * x3;
    assert (-3 - 2 * (l * c) - e2) * t == -3 * t - 2 * (l * c) * t - e2 * t;
  }

  lemma LineAtEnds(l: int, x1: int, y1: int, x3: int)
    ensures var y3 := l * (x1 - x3) - y1;
            LineSquared(l, x1, y1, x1) == y1 * y1 && LineSquared(l, x1, y1, x3) == y3 * y3
  {
    var y3 := l * (x1 - x3) - y1;
    assert l * (x3 - x1) == -(l * (x1 - x3));
    assert (-y3) * (-y3) == y3 * y3;
  }

  // If the linear part vanishes and the curve equation holds at x1, it holds at the third root.
  lemma ThirdRoot(l: int, x1: int, y1: int, x2: int, p: int, b: int)
    requires p > 3 && LinearPart(l, x1, y1, x2) % p == 0
    requires (y1 * y1) % p == Cubic(x1, b) % p
    ensures var x3 := l * l - x1 - x2; var y3 := l * (x1 - x3) - y1;
            (y3 * y3) % p == Cubic(x3, b) % p
  {
    hide LinearPart, ConstantPart, LineSquared, Cubic;
    var x3 := l * l - x1 - x2;
    var y3 := l * (x1 - x3) - y1;
    var m, k := LinearPart(l, x1, y1, x2), ConstantPart(l, x1, y1, x2, b);
    Interpolation(l, x1, y1, x2, b, x1);
    Interpolation(l, x1, y1, x2, b, x3);
    LineAtEnds(l, x1, y1, x3);
    assert (x1 - x1) * (x1 - x2) * (x1 - x3) == 0;
    assert (x3 - x1) * (x3 - x2) * (x3 - x3) == 0;
    SameLinear(Cubic(x1, b), y1 * y1, Cubic(x3, b), y3 * y3, m, k, x1, x3, p);
  }

  lemma SameLinear(c1: int, s1: int, c3: int, s3: int, m: int, k: int, x1: int, x3: int, p: int)
    requires p > 3 && m % p == 0 && c1 - s1 == m * x1 + k && c3 - s3 == m * x3 + k && s1 % p == c1 % p
    ensures s3 % p == c3 % p
  {
    assert m * (x3 - x1) == m * x3 - m * x1;
    ModSmall(0, p);
    ModZeroIff(c1, s1, p);
    ModMulCong(m, 0, x3 - x1, x3 - x1, p);
    ModAddCong(m * (x3 - x1), 0, c1 - s1, 0, p);
    ModZeroIff(c3, s3, p);
  }

  lemma ChordLinearPart(l: int, x1: int, y1: int, x2: int, y2: int, p: int, b: int)
    requires Field(p) && (x2 - x1) % p != 0 && (l * (x2 - x1)) % p == (y2 - y1) % p
    requires (y1 * y1) % p == Cubic(x1, b) % p && (y2 * y2) % p == Cubic(x2, b) % p
    ensures LinearPart(l, x1, y1, x2) % p == 0
  {
    var m, k := LinearPart(l, x1, y1, x2), ConstantPart(l, x1, y1, x2, b);
    Interpolation(l, x1, y1, x2, b, x1);
    Interpolation(l, x1, y1, x2, b, x2);
    assert LineSquared(l, x1, y1, x1) == y1 * y1;
    var line := l * (x2 - x1) + y1;
    assert Cubic(x1, b) - y1 * y1 == m * x1 + k;
    assert Cubic(x2, b) - line * line == m * x2 + k;
    ModAddCong(l * (x2 - x1), y2 - y1, y1, y1, p);
    ModMulCong(line, y2, line, y2, p);
    ModZeroIff(Cubic(x1, b), y1 * y1, p);
    ModZeroIff(Cubic(x2, b), line * line, p);
    ModSmall(0, p);
    ModAddCong(Cubic(x2, b) - line * line, 0, Cubic(x1, b) - y1 * y1, 0, p);
    assert m * (x2 - x1) == m * x2 - m * x1;
    Euclid(m, x2 - x1, p);
  }

  lemma TangentIdentity(l: int, x: int, y: int)
    ensures LinearPart(l, x, y, x) == (3 * (x * x) - 3) - l * (2 * y)
  {
    var m := x * (l * l);
    var x3 := l * l - x - x;
    assert x * x3 == m - 2 * (x * x);
    var c := y - l * x;
    assert l * c == l * y - l * (l * x);
    assert l * (l * x) == m;
    assert l * (2 * y) == 2 * (l * y);
  }

  lemma TangentLinearPart(l: int, x: int, y: int, p: int)
    requires p > 3 && (l * (2 * y)) % p == (3 * (x * x) - 3) % p
    ensures LinearPart(l, x, y, x) % p == 0
  {
    TangentIdentity(l, x, y);
    ModZeroIff(3 * (x * x) - 3, l * (2 * y), p);
  }

  /** The curve is closed under the chord-and-tangent law. */
  lemma AddPointsOnCurve(q: Point, r: Point, p: int, b: int)
    requires Field(p) && Reduced(b, p) && CurvePoint(q, p, b) && CurvePoint(r, p, b)
    ensures CurvePoint(AddPoints(q, r, p), p, b)
  {
    if q.Affine? && r.Affine? && !(q.x == r.x && (q.y + r.y) % p == 0) {
      var x1, y1, x2, y2 := q.x, q.y, r.x, r.y;
      var l := Slope(x1, y1, x2, y2, p);
      SlopeSolves(x1, y1, x2, y2, p, b);
      IsOnCurveIff(x1, y1, p, b);
      IsOnCurveIff(x2, y2, p, b);
      if x1 == x2 {
        TangentLinearPart(l, x1, y1, p);
      } else {
        ChordLinearPart(l, x1, y1, x2, y2, p, b);
      }
      ThirdRoot(l, x1, y1, x2, p, b);
      var x3 := l * l - x1 - x2;
      var y3 := l * (x1 - x3) - y1;
      ReducedOnCurve(x3, y3, p, b);
    }
  }

  lemma ReducedOnCurve(x: int, y: int, p: int, b: int)
    requires p > 3 && Reduced(b, p) && (y * y) % p == Cubic(x, b) % p
    ensures IsOnCurve(Affine(x % p, y % p), p, b)
  {
    ModIdempotent(x, p);
    ModIdempotent(y, p);
    ModMulCong(y % p, y, y % p, y, p);
    ModMulCong(x % p, x, x % p, x, p);
    ModMulCong(x % p * (x % p), x * x, x % p, x, p);
    ModMulCong(3, 3, x % p, x, p);
    ModAddCong(x % p * (x % p) * (x % p), x * x * x, 3 * (x % p), 3 * x, p);
    ModAddCong(x % p * (x % p) * (x % p) - 3 * (x % p), x * x * x - 3 * x, b, b, p);
    IsOnCurveIff(x % p, y % p, p, b);
  }

  // ----- Jacobian coordinates -----

  const JACOBIAN_IDENTITY: Jacobian := Jacobian(0, 1, 0)

  function FromPoint(q: Point): Jacobian {
    match q
    case Identity => JACOBIAN_IDENTITY
    case Affine(x, y) => Jacobian(x, y, 1)
  }

  function ToPoint(j: Jacobian, p: int): Point
    requires p > 3
  {
    if j.z == 0 then Identity
    else
      var zInverse := Inverse(j.z, p);
      var zInverseSquared := Mul(zInverse, zInverse, p);
      Affine(Mul(j.x, zInverseSquared, p), Mul(Mul(j.y, zInverseSquared, p), zInverse, p))
  }

  function JacobianDouble(j: Jacobian, p: int): Jacobian
    requires p > 3
  {
    if j.z == 0 || j.y == 0 then JACOBIAN_IDENTITY
    else
      var delta := Mul(j.z, j.z, p);
      var gamma := Mul(j.y, j.y, p);
      var beta := Mul(j.x, gamma, p);
      var alpha := Triple(Mul(Sub(j.x, delta, p), Add(j.x, delta, p), p), p);
      var eightBeta := Double(Double(Double(beta, p), p), p);
      var x := Sub(Mul(alpha, alpha, p), eightBeta, p);
      var yz := Add(j.y, j.z, p);
      var z := Sub(Sub(Mul(yz, yz, p), gamma, p), delta, p);
      var fourBeta := Double(Double(beta, p), p);
      var eightGammaSquared := Double(Double(Double(Mul(gamma, gamma, p), p), p), p);
      var y := Sub(Mul(alpha, Sub(fourBeta, x, p), p), eightGammaSquared, p);
      Jacobian(x, y, z)
  }

  function JacobianAdd(j: Jacobian, k: Jacobian, p: int): Jacobian
    requires p > 3
  {
    if j.z == 0 then k
    else if k.z == 0 then j
    else
      var z1Squared := Mul(j.z, j.z, p);
      var z2Squared := Mul(k.z, k.z, p);
      var u1 := Mul(j.x, z2Squared, p);
      var u2 := Mul(k.x, z1Squared, p);
      var s1 := Mul(Mul(j.y, k.z, p), z2Squared, p);
      var s2 := Mul(Mul(k.y, j.z, p), z1Squared, p);
      if u1 == u2 then
        if s1 != s2 then JACOBIAN_IDENTITY else JacobianDouble(j, p)
      else
        var h := Sub(u2, u1, p);
        var i := Mul(Double(h, p), Double(h, p), p);
        var jj := Mul(h, i, p);
        var r := Double(Sub(s2, s1, p), p);
        var v := Mul(u1, i, p);
        var x := Sub(Sub(Mul(r, r, p), jj, p), Double(v, p), p);
        var y := Sub(Mul(r, Sub(v, x, p), p), Double(Mul(s1, jj, p), p), p);
        var zz := Add(j.z, k.z, p);
        var z := Mul(Sub(Sub(Mul(zz, zz, p), z1Squared, p), z2Squared, p), h, p);
        Jacobian(x, y, z)
  }

  // (X, Y, Z) stands for the affine point (X/Z^2, Y/Z^3), and Z = 0 for the identity.
  ghost predicate Represents(j: Jacobian, q: Point, p: int)
    requires p > 3
  {
    && Reduced(j.x, p) && Reduced(j.y, p) && Reduced(j.z, p)
    && match q
       case Identity => j.z == 0
       case Affine(x, y) =>
         j.z != 0 && j.x == (x * (j.z * j.z)) % p && j.y == (y * (j.z * j.z * j.z)) % p
  }

  lemma FromPointRepresents(q: Point, p: int)
    requires p > 3 && ValidPoint(q, p)
    ensures Represents(FromPoint(q), q, p)
  {
    if q.Affine? {
      ModSmall(q.x, p);
      ModSmall(q.y, p);
    }
  }

  lemma CancelInverse(x: int, z: int, i: int, p: int)
    requires p > 1 && (i * z) % p == 1
    ensures ((x * (z * z)) * (i * i)) % p == x % p
    ensures ((x * (z * z * z)) * (i * i) * i) % p == x % p
  {
    var w := i * z;
    ModSmall(1, p);
    ModMulCong(w, 1, w, 1, p);
    ModMulCong(x, x, w * w, 1, p);
    assert (x * (z * z)) * (i * i) == x * (w * w) by {
      assert (z * z) * (i * i) == w * w by { assert (z * z) * (i * i) == z * (z * i) * i; }
      Associate(x, z * z, i * i);
    }
    ModMulCong(x * (w * w), x, w, 1, p);
    assert (x * (z * z * z)) * (i * i) * i == x * (w * w) * w by {
      assert x * (z * z * z) == (x * (z * z)) * z;
      var y := x * (z * z);
      Regroup(y, z, i);
    }
  }

  lemma Regroup(y: int, z: int, i: int)
    ensures (y * z) * (i * i) * i == y * (i * i) * (i * z)
  {
    var s := i * i;
    assert (y * z) * s * i == y * s * (i * z);
  }

  lemma Associate(x: int, u: int, v: int)
    ensures (x * u) * v == x * (u * v)
  {
  }

  /** Dividing out Z recovers the point a Jacobian triple stands for. */
  lemma ToPointRepresents(j: Jacobian, q: Point, p: int)
    requires Field(p) && ValidPoint(q, p) && Represents(j, q, p)
    ensures ToPoint(j, p) == q
  {
    if q.Affine? {
      var z, i := j.z, Inverse(j.z, p);
      ModSmall(z, p);
      ModSmall(i, p);
      InverseCorrect(z, p);
      MulOf(i, i, i, i, p);
      var x2, y3 := q.x * (z * z), q.y * (z * z * z);
      MulOf(j.x, x2, Mul(i, i, p), i * i, p);
      MulOf(j.y, y3, Mul(i, i, p), i * i, p);
      MulOf(Mul(j.y, Mul(i, i, p), p), y3 * (i * i), i, i, p);
      CancelInverse(q.x, z, i, p);
      CancelInverse(q.y, z, i, p);
      ModSmall(q.x, p);
      ModSmall(q.y, p);
    }
  }

  // Scaling reduced coordinates scales the integers they came from.
  lemma ScaledRepresents(j: Jacobian, x: int, y: int, t: int, p: int)
    requires p > 3 && t % p != 0
    requires j == Jacobian((x * (t * t)) % p, (y * (t * t * t)) % p, t % p)
    ensures Represents(j, Affine(x % p, y % p), p)
  {
    ModIdempotent(x, p);
    ModIdempotent(y, p);
    ModIdempotent(t, p);
    var z := t % p;
    ModMulCong(z, t, z, t, p);
    ModMulCong(z * z, t * t, z, t, p);
    ModMulCong(x % p, x, z * z, t * t, p);
    ModMulCong(y % p, y, z * z * z, t * t * t, p);
  }
}
