/** Points as the program holds them, with four-limb coordinates. Each
    operation denotes the operation of Curve on the numbers of the limbs. The
    program fixes the parameters of P-256; here they are a Domain, so that
    proofs never compute with the constants. */
module LimbPoints {
  import opened Words
  import opened NumberTheory
  import opened Limbs
  import opened Curve
  import opened JacobianLaw
  import opened P256

  // ----- what limbs denote -----

  datatype LimbPoint = Infinity | Coordinates(x: Uint256, y: Uint256)
  datatype LimbJacobian = LimbJacobian(x: Uint256, y: Uint256, z: Uint256)
  datatype Domain = Domain(modulus: Uint256, a: Uint256, b: Uint256, order: Uint256, x: Uint256, y: Uint256)

  const P256_DOMAIN: Domain := Domain(FIELD_MODULUS, CURVE_A, CURVE_B, GROUP_ORDER, GENERATOR_X, GENERATOR_Y)
  const LIMB_IDENTITY: LimbJacobian := LimbJacobian(ZERO, ONE, ZERO)

  function PointOf(q: LimbPoint): Point {
    match q
    case Infinity => Identity
    case Coordinates(x, y) => Affine(Val(x), Val(y))
  }

  function JacobianOf(j: LimbJacobian): Jacobian {
    Jacobian(Val(j.x), Val(j.y), Val(j.z))
  }

  function GroupOf(d: Domain): Group {
    Group(Val(d.modulus), Val(d.b), Val(d.order), Affine(Val(d.x), Val(d.y)))
  }

  lemma P256Domain()
    ensures GroupOf(P256_DOMAIN) == P256_GROUP && Val(P256_DOMAIN.a) == P256_GROUP.p - 3
  {
    hide Val;
    ConstantValues();
  }

  // The parameters of a curve with a = -3.
  ghost predicate ValidDomain(d: Domain) {
    WellFormed(GroupOf(d)) && GroupHypotheses(GroupOf(d)) && Val(d.a) == Val(d.modulus) - 3
  }

  // The point of the API: reduced coordinates, on the curve.
  ghost predicate OnCurve(q: LimbPoint, d: Domain)
    requires Val(d.modulus) > 3
  {
    CurvePoint(PointOf(q), Val(d.modulus), Val(d.b))
  }

  predicate InField(j: LimbJacobian, m: Uint256) {
    Val(j.x) < Val(m) && Val(j.y) < Val(m) && Val(j.z) < Val(m)
  }

  lemma SameLimbs(a: Uint256, b: Uint256)
    ensures a == b <==> Val(a) == Val(b)
  {
    hide Val;
    if Val(a) == Val(b) {
      ValInjective(a, b);
    }
  }

  // ----- field operations -----

  method FieldAdd(a: Uint256, b: Uint256, m: Uint256) returns (r: Uint256)
    requires Val(m) > 0
    ensures Val(r) == Add(Val(a), Val(b), Val(m)) && Val(r) < Val(m)
  {
    hide Val;
    r := AddMod(a, b, m);
  }

  method FieldSub(a: Uint256, b: Uint256, m: Uint256) returns (r: Uint256)
    requires Val(a) < Val(m) && Val(b) < Val(m)
    ensures Val(r) == Sub(Val(a), Val(b), Val(m)) && Val(r) < Val(m)
  {
    hide Val;
    r := SubMod(a, b, m);
  }

  method FieldMul(a: Uint256, b: Uint256, m: Uint256) returns (r: Uint256)
    requires Val(m) > 0
    ensures Val(r) == Mul(Val(a), Val(b), Val(m)) && Val(r) < Val(m)
  {
    hide Val;
    r := MulMod(a, b, m);
  }

  method FieldDouble(a: Uint256, m: Uint256) returns (r: Uint256)
    requires Val(m) > 0
    ensures Val(r) == Double(Val(a), Val(m)) && Val(r) < Val(m)
  {
    hide Val, Add;
    r := FieldAdd(a, a, m);
  }

  method FieldTriple(a: Uint256, m: Uint256) returns (r: Uint256)
    requires Val(m) > 0
    ensures Val(r) == Triple(Val(a), Val(m)) && Val(r) < Val(m)
  {
    hide Val, Add, Double;
    var twice := FieldDouble(a, m);
    r := FieldAdd(twice, a, m);
  }

  method FieldQuadruple(a: Uint256, m: Uint256) returns (r: Uint256)
    requires Val(m) > 0
    ensures Val(r) == Double(Double(Val(a), Val(m)), Val(m)) && Val(r) < Val(m)
  {
    hide Val, Double;
    var twice := FieldDouble(a, m);
    r := FieldDouble(twice, m);
  }

  // ----- Jacobian points -----

  method FromLimbPoint(q: LimbPoint) returns (j: LimbJacobian)
    ensures JacobianOf(j) == FromPoint(PointOf(q))
  {
    hide Val;
    ValOfOne();
    match q
    case Infinity => j := LIMB_IDENTITY;
    case Coordinates(x, y) => j := LimbJacobian(x, y, ONE);
  }

  method ToLimbPoint(j: LimbJacobian, m: Uint256) returns (q: LimbPoint)
    requires Field(Val(m)) && InField(j, m)
    ensures PointOf(q) == ToPoint(JacobianOf(j), Val(m))
  {
    hide Val, Mul, Inverse, Prime;
    ValOfOne();
    SameLimbs(j.z, ZERO);
    if j.z == ZERO {
      return Infinity;
    }
    ModSmall(Val(j.z), Val(m));
    var zInverse := InvertMod(j.z, m);
    var zInverseSquared := FieldMul(zInverse.value, zInverse.value, m);
    var x := FieldMul(j.x, zInverseSquared, m);
    var y := FieldMul(j.y, zInverseSquared, m);
    y := FieldMul(y, zInverse.value, m);
    q := Coordinates(x, y);
  }

  method DoubleLimbs(j: LimbJacobian, m: Uint256) returns (r: LimbJacobian)
    requires Val(m) > 3 && InField(j, m)
    ensures InField(r, m) && JacobianOf(r) == JacobianDouble(JacobianOf(j), Val(m))
  {
    hide Val, Add, Sub, Mul, Double, Triple;
    ValOfOne();
    SameLimbs(j.z, ZERO);
    SameLimbs(j.y, ZERO);
    if j.z == ZERO || j.y == ZERO {
      return LIMB_IDENTITY;
    }
    var delta := FieldMul(j.z, j.z, m);
    var gamma := FieldMul(j.y, j.y, m);
    var beta := FieldMul(j.x, gamma, m);
    var less := FieldSub(j.x, delta, m);
    var more := FieldAdd(j.x, delta, m);
    var product := FieldMul(less, more, m);
    var alpha := FieldTriple(product, m);
    var fourBeta := FieldQuadruple(beta, m);
    var eightBeta := FieldDouble(fourBeta, m);
    var x := FieldMul(alpha, alpha, m);
    x := FieldSub(x, eightBeta, m);
    var yz := FieldAdd(j.y, j.z, m);
    var z := FieldMul(yz, yz, m);
    z := FieldSub(z, gamma, m);
    z := FieldSub(z, delta, m);
    var gammaSquared := FieldMul(gamma, gamma, m);
    var eightGammaSquared := FieldQuadruple(gammaSquared, m);
    eightGammaSquared := FieldDouble(eightGammaSquared, m);
    var y := FieldSub(fourBeta, x, m);
    y := FieldMul(alpha, y, m);
    y := FieldSub(y, eightGammaSquared, m);
    r := LimbJacobian(x, y, z);
  }

  method AddLimbs(j: LimbJacobian, k: LimbJacobian, m: Uint256) returns (r: LimbJacobian)
    requires Val(m) > 3 && InField(j, m) && InField(k, m)
    ensures InField(r, m) && JacobianOf(r) == JacobianAdd(JacobianOf(j), JacobianOf(k), Val(m))
  {
    hide Val, Add, Sub, Mul, Double, JacobianDouble;
    ValOfOne();
    SameLimbs(j.z, ZERO);
    SameLimbs(k.z, ZERO);
    if j.z == ZERO {
      return k;
    }
    if k.z == ZERO {
      return j;
    }
    var z1Squared := FieldMul(j.z, j.z, m);
    var z2Squared := FieldMul(k.z, k.z, m);
    var u1 := FieldMul(j.x, z2Squared, m);
    var u2 := FieldMul(k.x, z1Squared, m);
    var s1 := FieldMul(j.y, k.z, m);
    s1 := FieldMul(s1, z2Squared, m);
    var s2 := FieldMul(k.y, j.z, m);
    s2 := FieldMul(s2, z1Squared, m);
    SameLimbs(u1, u2);
    SameLimbs(s1, s2);
    if u1 == u2 {
      if s1 != s2 {
        return LIMB_IDENTITY;
      }
      r := DoubleLimbs(j, m);
      return;
    }
    r := ChordLimbs(j, k, z1Squared, z2Squared, u1, u2, s1, s2, m);
  }

  // The sum of two points with different x, from their common scale.
  method ChordLimbs(j: LimbJacobian, k: LimbJacobian, z1Squared: Uint256, z2Squared: Uint256,
                    u1: Uint256, u2: Uint256, s1: Uint256, s2: Uint256, m: Uint256)
    returns (sum: LimbJacobian)
    requires Val(m) > 3 && InField(j, m) && InField(k, m)
    requires j.z != ZERO && k.z != ZERO && u1 != u2
    requires Val(z1Squared) == Mul(Val(j.z), Val(j.z), Val(m)) && Val(z1Squared) < Val(m)
    requires Val(z2Squared) == Mul(Val(k.z), Val(k.z), Val(m)) && Val(z2Squared) < Val(m)
    requires Val(u1) == Mul(Val(j.x), Val(z2Squared), Val(m)) && Val(u1) < Val(m)
    requires Val(u2) == Mul(Val(k.x), Val(z1Squared), Val(m)) && Val(u2) < Val(m)
    requires Val(s1) == Mul(Mul(Val(j.y), Val(k.z), Val(m)), Val(z2Squared), Val(m)) && Val(s1) < Val(m)
    requires Val(s2) == Mul(Mul(Val(k.y), Val(j.z), Val(m)), Val(z1Squared), Val(m)) && Val(s2) < Val(m)
    ensures InField(sum, m) && JacobianOf(sum) == JacobianAdd(JacobianOf(j), JacobianOf(k), Val(m))
  {
    hide Val, Add, Sub, Mul, Double, JacobianDouble;
    ValOfOne();
    SameLimbs(j.z, ZERO);
    SameLimbs(k.z, ZERO);
    SameLimbs(u1, u2);
    var h := FieldSub(u2, u1, m);
    var i := FieldDouble(h, m);
    i := FieldMul(i, i, m);
    var jj := FieldMul(h, i, m);
    var r := FieldSub(s2, s1, m);
    r := FieldDouble(r, m);
    var v := FieldMul(u1, i, m);
    var x := FieldMul(r, r, m);
    x := FieldSub(x, jj, m);
    var twice := FieldDouble(v, m);
    x := FieldSub(x, twice, m);
    var y := FieldSub(v, x, m);
    y := FieldMul(r, y, m);
    twice := FieldMul(s1, jj, m);
    twice := FieldDouble(twice, m);
    y := FieldSub(y, twice, m);
    var z := FieldAdd(j.z, k.z, m);
    z := FieldMul(z, z, m);
    z := FieldSub(z, z1Squared, m);
    z := FieldSub(z, z2Squared, m);
    z := FieldMul(z, h, m);
    sum := LimbJacobian(x, y, z);
  }

  // ----- points -----

  method IsOnCurveLimbs(q: LimbPoint, d: Domain) returns (r: bool)
    requires Val(d.modulus) > 3 && Val(d.a) == Val(d.modulus) - 3
    ensures r == IsOnCurve(PointOf(q), Val(d.modulus), Val(d.b))
  {
    hide Val, Add, Mul;
    if q.Infinity? {
      return true;
    }
    var m := d.modulus;
    var squared := FieldMul(q.x, q.x, m);
    var cubed := FieldMul(squared, q.x, m);
    var ax := FieldMul(d.a, q.x, m);
    var right := FieldAdd(cubed, ax, m);
    right := FieldAdd(right, d.b, m);
    var left := FieldMul(q.y, q.y, m);
    SameLimbs(left, right);
    r := left == right;
  }

  /** The group law of the curve, computed on limbs without a division but the last. */
  method AddPoint(q: LimbPoint, r: LimbPoint, d: Domain) returns (sum: LimbPoint)
    requires ValidDomain(d) && OnCurve(q, d) && OnCurve(r, d)
    ensures PointOf(sum) == AddPoints(PointOf(q), PointOf(r), Val(d.modulus)) && OnCurve(sum, d)
  {
    hide Val, Prime, Associative, JacobianAdd, ToPoint, IsOnCurve, AddPoints;
    var p, b := Val(d.modulus), Val(d.b);
    ValOfOne();
    var j := FromLimbPoint(q);
    var k := FromLimbPoint(r);
    var s := AddLimbs(j, k, d.modulus);
    AddPointIsAffineLaw(PointOf(q), PointOf(r), p, b);
    AddPointsOnCurve(PointOf(q), PointOf(r), p, b);
    sum := ToLimbPoint(s, d.modulus);
  }

  method DoublePoint(q: LimbPoint, d: Domain) returns (r: LimbPoint)
    requires ValidDomain(d) && OnCurve(q, d)
    ensures PointOf(r) == AddPoints(PointOf(q), PointOf(q), Val(d.modulus)) && OnCurve(r, d)
  {
    hide Val, Prime, Associative, JacobianDouble, ToPoint, IsOnCurve, AddPoints;
    var p, b := Val(d.modulus), Val(d.b);
    ValOfOne();
    var j := FromLimbPoint(q);
    j := DoubleLimbs(j, d.modulus);
    AddPointIsAffineLaw(PointOf(q), PointOf(q), p, b);
    AddPointsOnCurve(PointOf(q), PointOf(q), p, b);
    r := ToLimbPoint(j, d.modulus);
  }

  /** Double-and-add over the limbs computes the k-fold sum for every 256-bit k. */
  method MultiplyUint(q: LimbPoint, scalar: Uint256, d: Domain) returns (r: LimbPoint)
    requires ValidDomain(d) && OnCurve(q, d)
    ensures PointOf(r) == Multiple(Val(scalar), PointOf(q), Val(d.modulus)) && OnCurve(r, d)
  {
    hide Associative, CurvePoint, Prime, Represents, Val, JacobianAdd, JacobianDouble, Leading, Multiple, ToPoint;
    ghost var p, b, point := Val(d.modulus), Val(d.b), PointOf(q);
    var addend := FromLimbPoint(q);
    var result := LIMB_IDENTITY;
    ElementsInField(q, addend, d);
    StartMultiply(point, scalar, p, b);
    ValOfOne();
    var bitIndex := 256;
    while bitIndex > 0
      invariant 0 <= bitIndex <= 256 && InField(result, d.modulus)
      invariant Represents(JacobianOf(result), Multiple(Leading(Val(scalar), bitIndex), point, p), p)
    {
      bitIndex := bitIndex - 1;
      ghost var k := Leading(Val(scalar), bitIndex);
      LeadingStep(Val(scalar), bitIndex);
      LeadingBit(scalar, bitIndex);
      DoubleStep(JacobianOf(result), k / 2, point, p, b);
      result := DoubleLimbs(result, d.modulus);
      if BitOf(scalar, bitIndex) {
        AddStep(JacobianOf(result), k - 1, point, p, b);
        result := AddLimbs(result, addend, d.modulus);
      }
    }
    LeadingAll(Val(scalar));
    FinishMultiply(JacobianOf(result), Val(scalar), point, p, b);
    MultipleOnCurve(Val(scalar), point, p, b);
    r := ToLimbPoint(result, d.modulus);
  }

  lemma ElementsInField(q: LimbPoint, j: LimbJacobian, d: Domain)
    requires Val(d.modulus) > 3 && OnCurve(q, d) && JacobianOf(j) == FromPoint(PointOf(q))
    ensures InField(j, d.modulus)
  {
    hide Val;
  }
}
