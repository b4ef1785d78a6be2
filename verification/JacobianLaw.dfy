/** The Jacobian formulas compute the affine chord-and-tangent law.

    A triple (X, Y, Z) of a point (x, y) is written X = x Z^2, Y = y Z^3. The
    lemmas below express every intermediate value of the formulas as a
    polynomial in the affine coordinates, the slope and one scale factor T,
    and end in X3 = x3 T^2, Y3 = y3 T^3, Z3 = T. */
module JacobianLaw {
  import opened Words
  import opened NumberTheory
  import opened Curve

  // ----- integer identities behind the chord -----

  lemma CommonScale(x: int, y: int, z1: int, z2: int)
    ensures var w := z1 * z2;
            (x * (z1 * z1)) * (z2 * z2) == x * (w * w) && ((y * (z1 * z1 * z1)) * z2) * (z2 * z2) == y * (w * w * w)
  {
    var w := z1 * z2;
    var a, b := z1 * z1, z2 * z2;
    assert a * b == w * w by { assert a * b == z1 * (z1 * z2) * z2; }
    Associate(x, a, b);
    assert (y * (a * z1)) * z2 == y * (a * w) by { assert a * z1 * z2 == a * w; Associate(y, a * z1, z2); }
    assert (a * w) * b == w * (a * b);
    Associate(y, a * w, b);
  }

  // With d = x2 - x1, h = d w^2 and t = 2 w h.
  lemma ChordScale(d: int, w: int)
    ensures var h := d * (w * w); var t := 2 * (w * h);
            && h * (4 * (h * h)) == d * (t * t)
            && (w * w) * (4 * (h * h)) == t * t
            && 2 * (d * (w * w * w)) == t
  {
    var h := d * (w * w);
    var t := 2 * (w * h);
    assert (w * w) * (h * h) == (w * h) * (w * h);
    assert t * t == 4 * ((w * h) * (w * h));
    Associate(d, w * w, 4 * (h * h));
    assert w * h == d * (w * w * w);
  }

  lemma ChordX(l: int, x1: int, x2: int, t: int)
    ensures (l * t) * (l * t) - (x2 - x1) * (t * t) - 2 * (x1 * (t * t)) == (l * l - x1 - x2) * (t * t)
  {
    assert (l * t) * (l * t) == (l * l) * (t * t);
    var u := t * t;
    assert (x2 - x1) * u == x2 * u - x1 * u;
    assert (l * l - x1 - x2) * u == (l * l) * u - x1 * u - x2 * u;
  }

  lemma ChordY(l: int, x1: int, x3: int, y1: int, t: int)
    ensures (l * t) * (x1 * (t * t) - x3 * (t * t)) - y1 * (t * t * t) == (l * (x1 - x3) - y1) * (t * t * t)
  {
    var u := t * t;
    assert x1 * u - x3 * u == (x1 - x3) * u;
    var d := x1 - x3;
    assert (l * t) * (d * u) == (l * d) * (u * t);
    assert (l * d - y1) * (u * t) == (l * d) * (u * t) - y1 * (u * t);
  }

  // ----- the chord case -----

  // The values shared by both cases: u = x w^2 and s = y w^3.
  lemma ScaledCoordinates(X: int, Y: int, x: int, y: int, z1: int, z2: int, p: int)
    requires p > 3 && X == (x * (z1 * z1)) % p && Y == (y * (z1 * z1 * z1)) % p && Reduced(z1, p) && Reduced(z2, p)
    ensures var w := z1 * z2;
            Mul(X, Mul(z2, z2, p), p) == (x * (w * w)) % p
            && Mul(Mul(Y, z2, p), Mul(z2, z2, p), p) == (y * (w * w * w)) % p
  {
    ModSmall(z2, p);
    MulOf(z2, z2, z2, z2, p);
    MulOf(X, x * (z1 * z1), Mul(z2, z2, p), z2 * z2, p);
    MulOf(Y, y * (z1 * z1 * z1), z2, z2, p);
    MulOf(Mul(Y, z2, p), (y * (z1 * z1 * z1)) * z2, Mul(z2, z2, p), z2 * z2, p);
    CommonScale(x, y, z1, z2);
  }

  lemma SquareOfSum(a: int, b: int)
    ensures (a + b) * (a + b) - a * a - b * b == 2 * (a * b)
  {
  }

  // The z coordinate of a sum: ((Z1 + Z2)^2 - Z1^2 - Z2^2) h = 2 Z1 Z2 h.
  lemma SumZ(z1: int, z2: int, h: int, H: int, p: int)
    requires p > 3 && Reduced(z1, p) && Reduced(z2, p) && h == H % p
    ensures var zz := Add(z1, z2, p);
            Mul(Sub(Sub(Mul(zz, zz, p), Mul(z1, z1, p), p), Mul(z2, z2, p), p), h, p) == (2 * (z1 * z2 * H)) % p
  {
    var zz := Add(z1, z2, p);
    ModSmall(z1, p);
    ModSmall(z2, p);
    MulOf(z1, z1, z1, z1, p);
    MulOf(z2, z2, z2, z2, p);
    AddOf(z1, z1, z2, z2, p);
    var s := z1 + z2;
    MulOf(zz, s, zz, s, p);
    SubOf(Mul(zz, zz, p), s * s, Mul(z1, z1, p), z1 * z1, p);
    SubOf(Sub(Mul(zz, zz, p), Mul(z1, z1, p), p), s * s - z1 * z1, Mul(z2, z2, p), z2 * z2, p);
    SquareOfSum(z1, z2);
    MulOf(Sub(Sub(Mul(zz, zz, p), Mul(z1, z1, p), p), Mul(z2, z2, p), p), 2 * (z1 * z2), h, H, p);
    Associate(2, z1 * z2, H);
  }

  // From h, r, i and s1 to the result, given T with r = l T.
  lemma ChordFromScale(u1: int, s1: int, h: int, r: int, x1: int, y1: int, x2: int, w: int, l: int, p: int)
    requires p > 3
    requires u1 == (x1 * (w * w)) % p && s1 == (y1 * (w * w * w)) % p
    requires h == ((x2 - x1) * (w * w)) % p && r == (l * (2 * (w * ((x2 - x1) * (w * w))))) % p
    ensures var i := Mul(Double(h, p), Double(h, p), p);
            var j, v := Mul(h, i, p), Mul(u1, i, p);
            var x := Sub(Sub(Mul(r, r, p), j, p), Double(v, p), p);
            var y := Sub(Mul(r, Sub(v, x, p), p), Double(Mul(s1, j, p), p), p);
            var t := 2 * (w * ((x2 - x1) * (w * w)));
            var x3 := l * l - x1 - x2;
            x == (x3 * (t * t)) % p && y == ((l * (x1 - x3) - y1) * (t * t * t)) % p
  {
    var d := x2 - x1;
    var H := d * (w * w);
    var t := 2 * (w * H);
    var x3 := l * l - x1 - x2;
    ChordScale(d, w);
    var i := Mul(Double(h, p), Double(h, p), p);
    DoubleOf(h, H, p);
    MulOf(Double(h, p), 2 * H, Double(h, p), 2 * H, p);
    var I := 4 * (H * H);
    assert (2 * H) * (2 * H) == I;
    var j, v := Mul(h, i, p), Mul(u1, i, p);
    MulOf(h, H, i, I, p);
    assert j == (d * (t * t)) % p;
    MulOf(u1, x1 * (w * w), i, I, p);
    Associate(x1, w * w, I);
    assert v == (x1 * (t * t)) % p;
    ChordXOf(r, j, v, l, x1, x2, t, p);
    var x := Sub(Sub(Mul(r, r, p), j, p), Double(v, p), p);
    ChordYOf(r, s1, j, v, x, l, x1, x3, y1, d, w, t, p);
  }

  lemma ChordXOf(r: int, j: int, v: int, l: int, x1: int, x2: int, t: int, p: int)
    requires p > 3 && r == (l * t) % p && j == ((x2 - x1) * (t * t)) % p && v == (x1 * (t * t)) % p
    ensures Sub(Sub(Mul(r, r, p), j, p), Double(v, p), p) == ((l * l - x1 - x2) * (t * t)) % p
  {
    MulOf(r, l * t, r, l * t, p);
    SubOf(Mul(r, r, p), (l * t) * (l * t), j, (x2 - x1) * (t * t), p);
    DoubleOf(v, x1 * (t * t), p);
    SubOf(Sub(Mul(r, r, p), j, p), (l * t) * (l * t) - (x2 - x1) * (t * t), Double(v, p), 2 * (x1 * (t * t)), p);
    ChordX(l, x1, x2, t);
  }

  lemma ChordYOf(r: int, s1: int, j: int, v: int, x: int, l: int, x1: int, x3: int, y1: int, d: int, w: int, t: int, p: int)
    requires p > 3 && r == (l * t) % p && s1 == (y1 * (w * w * w)) % p && j == (d * (t * t)) % p
    requires v == (x1 * (t * t)) % p && x == (x3 * (t * t)) % p && 2 * (d * (w * w * w)) == t
    ensures Sub(Mul(r, Sub(v, x, p), p), Double(Mul(s1, j, p), p), p) == ((l * (x1 - x3) - y1) * (t * t * t)) % p
  {
    SubOf(v, x1 * (t * t), x, x3 * (t * t), p);
    MulOf(r, l * t, Sub(v, x, p), x1 * (t * t) - x3 * (t * t), p);
    MulOf(s1, y1 * (w * w * w), j, d * (t * t), p);
    DoubleOf(Mul(s1, j, p), (y1 * (w * w * w)) * (d * (t * t)), p);
    SquareTimesDouble(y1, w * w * w, d, t);
    SubOf(Mul(r, Sub(v, x, p), p), (l * t) * (x1 * (t * t) - x3 * (t * t)),
          Double(Mul(s1, j, p), p), y1 * (t * t * t), p);
    ChordY(l, x1, x3, y1, t);
  }

  lemma SquareTimesDouble(y: int, c: int, d: int, t: int)
    requires 2 * (d * c) == t
    ensures 2 * ((y * c) * (d * (t * t))) == y * (t * t * t)
  {
    var u := t * t;
    assert (y * c) * (d * u) == y * ((d * c) * u);
    assert 2 * (y * ((d * c) * u)) == y * (2 * (d * c) * u);
  }

  // The r of the code is the slope times T.
  lemma SlopeTimesScale(s1: int, s2: int, y1: int, y2: int, d: int, w: int, l: int, p: int)
    requires p > 3 && s1 == (y1 * (w * w * w)) % p && s2 == (y2 * (w * w * w)) % p
    requires (l * d) % p == (y2 - y1) % p
    ensures Double(Sub(s2, s1, p), p) == (l * (2 * (w * (d * (w * w))))) % p
  {
    var c := w * w * w;
    SubOf(s2, y2 * c, s1, y1 * c, p);
    assert y2 * c - y1 * c == (y2 - y1) * c;
    DoubleOf(Sub(s2, s1, p), (y2 - y1) * c, p);
    assert 2 * ((y2 - y1) * c) == (y2 - y1) * (2 * c);
    ModMulCong(l * d, y2 - y1, 2 * c, 2 * c, p);
    ChordScale(d, w);
    assert (l * d) * (2 * c) == l * (2 * (d * c));
  }

  lemma ScaleNonzero(d: int, w: int, p: int)
    requires Field(p) && d % p != 0 && w % p != 0
    ensures (2 * (w * (d * (w * w)))) % p != 0
  {
    ModSmall(2, p);
    Euclid(w, w, p);
    Euclid(d, w * w, p);
    Euclid(w, d * (w * w), p);
    Euclid(2, w * (d * (w * w)), p);
  }

  // The sum in scaled form, for any slope l of the chord.
  lemma ChordSum(j: Jacobian, k: Jacobian, x1: int, y1: int, x2: int, y2: int, l: int, p: int)
    requires p > 3 && Reduced(j.z, p) && Reduced(k.z, p) && j.z != 0 && k.z != 0
    requires j.x == (x1 * (j.z * j.z)) % p && j.y == (y1 * (j.z * j.z * j.z)) % p
    requires k.x == (x2 * (k.z * k.z)) % p && k.y == (y2 * (k.z * k.z * k.z)) % p
    requires (l * (x2 - x1)) % p == (y2 - y1) % p
    requires Mul(j.x, Mul(k.z, k.z, p), p) != Mul(k.x, Mul(j.z, j.z, p), p)
    ensures var w := j.z * k.z; var t := 2 * (w * ((x2 - x1) * (w * w))); var x3 := l * l - x1 - x2;
            JacobianAdd(j, k, p) == Jacobian((x3 * (t * t)) % p, ((l * (x1 - x3) - y1) * (t * t * t)) % p, t % p)
  {
    hide Mul, Add, Sub, Double;
    var d, w := x2 - x1, j.z * k.z;
    ScaledCoordinates(j.x, j.y, x1, y1, j.z, k.z, p);
    ScaledCoordinates(k.x, k.y, x2, y2, k.z, j.z, p);
    assert k.z * j.z == w;
    var u1, u2 := Mul(j.x, Mul(k.z, k.z, p), p), Mul(k.x, Mul(j.z, j.z, p), p);
    var s1 := Mul(Mul(j.y, k.z, p), Mul(k.z, k.z, p), p);
    var s2 := Mul(Mul(k.y, j.z, p), Mul(j.z, j.z, p), p);
    SlopeTimesScale(s1, s2, y1, y2, d, w, l, p);
    SubOf(u2, x2 * (w * w), u1, x1 * (w * w), p);
    var h := Sub(u2, u1, p);
    assert x2 * (w * w) - x1 * (w * w) == d * (w * w);
    ChordFromScale(u1, s1, h, Double(Sub(s2, s1, p), p), x1, y1, x2, w, l, p);
    SumZ(j.z, k.z, h, d * (w * w), p);
  }

  lemma ChordRepresents(j: Jacobian, k: Jacobian, q: Point, r: Point, p: int, b: int)
    requires Field(p) && Reduced(b, p) && CurvePoint(q, p, b) && CurvePoint(r, p, b)
    requires q.Affine? && r.Affine? && q.x != r.x && Represents(j, q, p) && Represents(k, r, p)
    requires Mul(j.x, Mul(k.z, k.z, p), p) != Mul(k.x, Mul(j.z, j.z, p), p)
    ensures Represents(JacobianAdd(j, k, p), AddPoints(q, r, p), p)
  {
    hide Slope, IsOnCurve, Prime, Mul, JacobianAdd;
    var d, w, l := r.x - q.x, j.z * k.z, Slope(q.x, q.y, r.x, r.y, p);
    SlopeSolves(q.x, q.y, r.x, r.y, p, b);
    ChordSum(j, k, q.x, q.y, r.x, r.y, l, p);
    ModSmall(j.z, p);
    ModSmall(k.z, p);
    Euclid(j.z, k.z, p);
    ScaleNonzero(d, w, p);
    var x3 := l * l - q.x - r.x;
    ScaledRepresents(JacobianAdd(j, k, p), x3, l * (q.x - x3) - q.y, 2 * (w * (d * (w * w))), p);
  }

  // ----- the tangent case -----

  lemma TangentScale(x: int, y: int, z: int)
    ensures var t := 2 * ((y * (z * z * z)) * z); var g := (y * (z * z * z)) * (y * (z * z * z));
            && 4 * ((x * (z * z)) * g) == x * (t * t)
            && 8 * (g * g) == y * (t * t * t)
  {
    var c := z * z * z;
    var Y := y * c;
    var t := 2 * (Y * z);
    var g := Y * Y;
    assert t * t == 4 * (g * (z * z)) by { assert (Y * z) * (Y * z) == (Y * Y) * (z * z); }
    assert (x * (z * z)) * g == x * (g * (z * z));
    assert t * t * t == 8 * (g * (z * z) * (Y * z));
    assert y * (g * (z * z) * (Y * z)) == (g * Y) * (y * c) by { TangentRegroup(y, g, z, Y); }
  }

  lemma TangentRegroup(y: int, g: int, z: int, Y: int)
    ensures y * (g * (z * z) * (Y * z)) == (g * Y) * (y * (z * z * z))
  {
    assert g * (z * z) * (Y * z) == (g * Y) * (z * z * z) by {
      assert (z * z) * (Y * z) == Y * (z * z * z);
      Associate(g, z * z, Y * z);
    }
    assert y * ((g * Y) * (z * z * z)) == (g * Y) * (y * (z * z * z));
  }

  // alpha = 3 (X - Z^2)(X + Z^2) is the tangent slope times T.
  lemma TangentAlpha(X: int, z: int, x: int, y: int, l: int, p: int)
    requires p > 3 && X == (x * (z * z)) % p && Reduced(z, p)
    requires (l * (2 * y)) % p == (3 * (x * x) - 3) % p
    ensures var delta := Mul(z, z, p);
            Triple(Mul(Sub(X, delta, p), Add(X, delta, p), p), p) == (l * (2 * ((y * (z * z * z)) * z))) % p
  {
    var delta := Mul(z, z, p);
    var e := z * z;
    ModSmall(z, p);
    MulOf(z, z, z, z, p);
    SubOf(X, x * e, delta, e, p);
    AddOf(X, x * e, delta, e, p);
    var A, B := x * e - e, x * e + e;
    MulOf(Sub(X, delta, p), A, Add(X, delta, p), B, p);
    TripleOf(Mul(Sub(X, delta, p), Add(X, delta, p), p), A * B, p);
    DifferenceOfSquares(x, e);
    ModMulCong(l * (2 * y), 3 * (x * x) - 3, e * e, e * e, p);
    FourthPower(l, y, z);
  }

  lemma DifferenceOfSquares(x: int, e: int)
    ensures 3 * ((x * e - e) * (x * e + e)) == (3 * (x * x) - 3) * (e * e)
  {
    var m := x * e;
    assert (m - e) * (m + e) == m * m - e * e;
    assert m * m == (x * x) * (e * e);
  }

  lemma FourthPower(l: int, y: int, z: int)
    ensures (l * (2 * y)) * ((z * z) * (z * z)) == l * (2 * ((y * (z * z * z)) * z))
  {
    var f := (z * z) * (z * z);
    assert f == (z * z * z) * z;
    assert (l * (2 * y)) * f == l * (2 * (y * f));
    Associate(y, z * z * z, z);
  }

  lemma DoubleThrice(a: int, A: int, p: int)
    requires p > 3 && a == A % p
    ensures Double(Double(a, p), p) == (4 * A) % p && Double(Double(Double(a, p), p), p) == (8 * A) % p
  {
    DoubleOf(a, A, p);
    DoubleOf(Double(a, p), 2 * A, p);
    DoubleOf(Double(Double(a, p), p), 4 * A, p);
  }

  // The z coordinate of a double: (Y + Z)^2 - Y^2 - Z^2 = 2 Y Z.
  lemma DoubleZ(Y: int, A: int, z: int, p: int)
    requires p > 3 && Y == A % p && Reduced(z, p)
    ensures var yz := Add(Y, z, p);
            Sub(Sub(Mul(yz, yz, p), Mul(Y, Y, p), p), Mul(z, z, p), p) == (2 * (A * z)) % p
  {
    var yz := Add(Y, z, p);
    ModSmall(z, p);
    AddOf(Y, A, z, z, p);
    MulOf(Y, A, Y, A, p);
    MulOf(z, z, z, z, p);
    MulOf(yz, A + z, yz, A + z, p);
    SubOf(Mul(yz, yz, p), (A + z) * (A + z), Mul(Y, Y, p), A * A, p);
    SubOf(Sub(Mul(yz, yz, p), Mul(Y, Y, p), p), (A + z) * (A + z) - A * A, Mul(z, z, p), z * z, p);
    SquareOfSum(A, z);
  }

  lemma TangentRepresents(j: Jacobian, q: Point, p: int, b: int)
    requires Field(p) && Reduced(b, p) && CurvePoint(q, p, b) && q.Affine? && q.y != 0 && Represents(j, q, p)
    requires j.y != 0
    ensures Represents(JacobianDouble(j, p), AddPoints(q, q, p), p)
  {
    var x, y, z := q.x, q.y, j.z;
    var A := y * (z * z * z);
    DoubleNonzero(y, p);
    var l := Slope(x, y, x, y, p);
    SlopeSolves(x, y, x, y, p, b);
    var t := 2 * (A * z);
    TangentScale(x, y, z);
    TangentAlpha(j.x, z, x, y, l, p);
    DoubleZ(j.y, A, z, p);
    var delta, gamma := Mul(z, z, p), Mul(j.y, j.y, p);
    var beta := Mul(j.x, gamma, p);
    var alpha := Triple(Mul(Sub(j.x, delta, p), Add(j.x, delta, p), p), p);
    MulOf(j.y, A, j.y, A, p);
    MulOf(j.x, x * (z * z), gamma, A * A, p);
    DoubleThrice(beta, (x * (z * z)) * (A * A), p);
    MulOf(gamma, A * A, gamma, A * A, p);
    DoubleThrice(Mul(gamma, gamma, p), (A * A) * (A * A), p);
    TangentXOf(alpha, Double(Double(Double(beta, p), p), p), l, x, t, p);
    var x3 := l * l - x - x;
    var newX := Sub(Mul(alpha, alpha, p), Double(Double(Double(beta, p), p), p), p);
    TangentYOf(alpha, Double(Double(beta, p), p), newX, Double(Double(Double(Mul(gamma, gamma, p), p), p), p),
               l, x, x3, y, t, p);
    ModSmall(z, p);
    ModSmall(j.y, p);
    ModIdempotent(A, p);
    Euclid(A, z, p);
    ModSmall(2, p);
    Euclid(2, A * z, p);
    ScaledRepresents(JacobianDouble(j, p), x3, l * (x - x3) - y, t, p);
  }

  lemma DoubleNonzero(y: int, p: int)
    requires Field(p) && Reduced(y, p) && y != 0
    ensures (y + y) % p != 0
  {
    ModSmall(2, p);
    ModSmall(y, p);
    Euclid(2, y, p);
  }

  lemma TangentXOf(alpha: int, eightBeta: int, l: int, x: int, t: int, p: int)
    requires p > 3 && alpha == (l * t) % p && eightBeta == (2 * (x * (t * t))) % p
    ensures Sub(Mul(alpha, alpha, p), eightBeta, p) == ((l * l - x - x) * (t * t)) % p
  {
    MulOf(alpha, l * t, alpha, l * t, p);
    SubOf(Mul(alpha, alpha, p), (l * t) * (l * t), eightBeta, 2 * (x * (t * t)), p);
    ChordX(l, x, x, t);
    assert (x - x) * (t * t) == 0;
  }

  lemma TangentYOf(alpha: int, fourBeta: int, newX: int, eightGammaSquared: int,
                   l: int, x: int, x3: int, y: int, t: int, p: int)
    requires p > 3 && alpha == (l * t) % p && fourBeta == (x * (t * t)) % p
    requires newX == (x3 * (t * t)) % p && eightGammaSquared == (y * (t * t * t)) % p
    ensures Sub(Mul(alpha, Sub(fourBeta, newX, p), p), eightGammaSquared, p) == ((l * (x - x3) - y) * (t * t * t)) % p
  {
    SubOf(fourBeta, x * (t * t), newX, x3 * (t * t), p);
    MulOf(alpha, l * t, Sub(fourBeta, newX, p), x * (t * t) - x3 * (t * t), p);
    SubOf(Mul(alpha, Sub(fourBeta, newX, p), p), (l * t) * (x * (t * t) - x3 * (t * t)),
          eightGammaSquared, y * (t * t * t), p);
    ChordY(l, x, x3, y, t);
  }

  // ----- the theorems -----

  // A scaled coordinate vanishes exactly when the coordinate does.
  lemma ScaledZero(a: int, s: int, p: int)
    requires Field(p) && Reduced(a, p) && s % p != 0
    ensures (a * s) % p == 0 <==> a == 0
  {
    Euclid(a, s, p);
    ModSmall(a, p);
  }

  lemma CubeNonzero(z: int, p: int)
    requires Field(p) && z % p != 0
    ensures (z * z) % p != 0 && (z * z * z) % p != 0
  {
    Euclid(z, z, p);
    Euclid(z * z, z, p);
  }

  /** Jacobian doubling is affine doubling, on every curve point and its every triple. */
  lemma DoubleRepresents(j: Jacobian, q: Point, p: int, b: int)
    requires Field(p) && Reduced(b, p) && CurvePoint(q, p, b) && Represents(j, q, p)
    ensures Represents(JacobianDouble(j, p), AddPoints(q, q, p), p)
  {
    if q.Affine? {
      ModSmall(j.z, p);
      CubeNonzero(j.z, p);
      ScaledZero(q.y, j.z * j.z * j.z, p);
      if q.y == 0 {
        ModSmall(0, p);
      } else {
        DoubleNonzero(q.y, p);
        TangentRepresents(j, q, p, b);
      }
    }
  }

  lemma SameScaled(a: int, b: int, s: int, p: int)
    requires Field(p) && Reduced(a, p) && Reduced(b, p) && s % p != 0
    ensures (a * s) % p == (b * s) % p <==> a == b
  {
    if (a * s) % p == (b * s) % p {
      CancelFactor(a, b, s, p);
      ModSmall(a, p);
      ModSmall(b, p);
    }
  }

  /** Jacobian addition is affine addition, on every pair of curve points: identity,
      equal and opposite points included. */
  lemma AddRepresents(j: Jacobian, k: Jacobian, q: Point, r: Point, p: int, b: int)
    requires Field(p) && Reduced(b, p) && CurvePoint(q, p, b) && CurvePoint(r, p, b)
    requires Represents(j, q, p) && Represents(k, r, p)
    ensures Represents(JacobianAdd(j, k, p), AddPoints(q, r, p), p)
  {
    if q.Affine? && r.Affine? {
      var w := j.z * k.z;
      ModSmall(j.z, p);
      ModSmall(k.z, p);
      Euclid(j.z, k.z, p);
      CubeNonzero(w, p);
      ScaledCoordinates(j.x, j.y, q.x, q.y, j.z, k.z, p);
      ScaledCoordinates(k.x, k.y, r.x, r.y, k.z, j.z, p);
      assert k.z * j.z == w;
      SameScaled(q.x, r.x, w * w, p);
      SameScaled(q.y, r.y, w * w * w, p);
      if q.x == r.x {
        SameX(q.x, q.y, r.y, p, b);
        if q.y == r.y {
          DoubleRepresents(j, q, p, b);
        }
      } else {
        ChordRepresents(j, k, q, r, p, b);
      }
    }
  }

  /** The public addition: Jacobian addition followed by division is the affine law. */
  lemma AddPointIsAffineLaw(q: Point, r: Point, p: int, b: int)
    requires Field(p) && Reduced(b, p) && CurvePoint(q, p, b) && CurvePoint(r, p, b)
    ensures ToPoint(JacobianAdd(FromPoint(q), FromPoint(r), p), p) == AddPoints(q, r, p)
    ensures ToPoint(JacobianDouble(FromPoint(q), p), p) == AddPoints(q, q, p)
  {
    FromPointRepresents(q, p);
    FromPointRepresents(r, p);
    AddRepresents(FromPoint(q), FromPoint(r), q, r, p, b);
    AddPointsOnCurve(q, r, p, b);
    ToPointRepresents(JacobianAdd(FromPoint(q), FromPoint(r), p), AddPoints(q, r, p), p);
    DoubleRepresents(FromPoint(q), q, p, b);
    AddPointsOnCurve(q, q, p, b);
    ToPointRepresents(JacobianDouble(FromPoint(q), p), AddPoints(q, q, p), p);
  }
}
