/** P-256: domain parameters and multiples of points. What is known about the parameters but not provable here by
    computation (primality, associativity of the group law, the order of the
    generator) is collected in the predicate GroupHypotheses and required by
    every result that needs it. */
module P256 {
  import opened Words
  import opened NumberTheory
  import opened Limbs
  import opened Curve
  import opened JacobianLaw

  // ----- domain parameters -----

  const FIELD_MODULUS: Uint256 := [0xffff_ffff_ffff_ffff, 0x0000_0000_ffff_ffff, 0x0000_0000_0000_0000, 0xffff_ffff_0000_0001]
  const GROUP_ORDER: Uint256 := [0xf3b9_cac2_fc63_2551, 0xbce6_faad_a717_9e84, 0xffff_ffff_ffff_ffff, 0xffff_ffff_0000_0000]
  const CURVE_A: Uint256 := [0xffff_ffff_ffff_fffc, 0x0000_0000_ffff_ffff, 0x0000_0000_0000_0000, 0xffff_ffff_0000_0001]
  const CURVE_B: Uint256 := [0x3bce_3c3e_27d2_604b, 0x651d_06b0_cc53_b0f6, 0xb3eb_bd55_7698_86bc, 0x5ac6_35d8_aa3a_93e7]
  const GENERATOR_X: Uint256 := [0xf4a1_3945_d898_c296, 0x7703_7d81_2deb_33a0, 0xf8bc_e6e5_63a4_40f2, 0x6b17_d1f2_e12c_4247]
  const GENERATOR_Y: Uint256 := [0xcbb6_4068_37bf_51f5, 0x2bce_3357_6b31_5ece, 0x8ee7_eb4a_7c0f_9e16, 0x4fe3_42e2_fe1a_7f9b]

  const P: int := 0xffffffff_00000001_00000000_00000000_00000000_ffffffff_ffffffff_ffffffff
  const N: int := 0xffffffff_00000000_ffffffff_ffffffff_bce6faad_a7179e84_f3b9cac2_fc632551
  const B: int := 0x5ac635d8_aa3a93e7_b3ebbd55_769886bc_651d06b0_cc53b0f6_3bce3c3e_27d2604b
  const GX: int := 0x6b17d1f2_e12c4247_f8bce6e5_63a440f2_77037d81_2deb33a0_f4a13945_d898c296
  const GY: int := 0x4fe342e2_fe1a7f9b_8ee7eb4a_7c0f9e16_2bce3357_6b315ece_cbb64068_37bf51f5

  lemma LimbPowValues()
    ensures LimbPow(1) == 0x1_0000000000000000
    ensures LimbPow(2) == 0x1_0000000000000000_0000000000000000
    ensures LimbPow(3) == 0x1_0000000000000000_0000000000000000_0000000000000000
  {
    assert LimbPow(2) == LIMB * LimbPow(1);
    assert LimbPow(3) == LIMB * LimbPow(2);
  }

  // The limb constants denote the published numbers; in particular a = p - 3.
  lemma ConstantValues()
    ensures Val(FIELD_MODULUS) == P && Val(GROUP_ORDER) == N && Val(CURVE_B) == B
    ensures Val(CURVE_A) == P - 3
    ensures Val(GENERATOR_X) == GX && Val(GENERATOR_Y) == GY
  {
    hide Val, LimbPow;
    LimbPowValues();
    Val4(FIELD_MODULUS);
    Val4(GROUP_ORDER);
    Val4(CURVE_A);
    Val4(CURVE_B);
    Val4(GENERATOR_X);
    Val4(GENERATOR_Y);
  }

  lemma GeneratorOnCurve()
    ensures CurvePoint(Affine(GX, GY), P, B)
  {
    GeneratorEquation();
    IsOnCurveIff(GX, GY, P, B);
  }

  lemma GeneratorEquation()
    ensures (GY * GY) % P == Cubic(GX, B) % P
  {
    var k := 0x12bdd1ad23dfc833dccf5f6141d6bb4a1f365dc1430b0e600b52dd851938d2d6933106a72efbf035fdaf43963b37fd5456e90c6581a8fb7a0d8a46a3629f0458;
    assert Cubic(GX, B) - GY * GY == k * P;
    ModFromMultiple(Cubic(GX, B), GY * GY, k, P);
  }

  // ----- the group -----

  datatype Group = Group(p: int, b: int, n: int, g: Point)

  const P256_GROUP: Group := Group(P, B, N, Affine(GX, GY))

  ghost predicate Associative(p: int, b: int)
    requires p > 3
  {
    forall q, r, s ::
      CurvePoint(q, p, b) && CurvePoint(r, p, b) && CurvePoint(s, p, b)
      ==> AddPoints(AddPoints(q, r, p), s, p) == AddPoints(q, AddPoints(r, s, p), p)
  }

  // What domain parameters satisfy and can be checked by computation.
  ghost predicate WellFormed(c: Group) {
    c.p > 3 && 2 < c.n && Reduced(c.b, c.p) && CurvePoint(c.g, c.p, c.b) && c.g.Affine?
    && c.p < LimbPow(4) && c.n < LimbPow(4)
  }

  // What the standard guarantees of the parameters.
  ghost predicate GroupHypotheses(c: Group)
    requires WellFormed(c)
  {
    Prime(c.p) && Prime(c.n) && Associative(c.p, c.b) && Multiple(c.n, c.g, c.p) == Identity
  }

  lemma P256WellFormed()
    ensures WellFormed(P256_GROUP)
  {
    GeneratorOnCurve();
    LimbPow4();
  }

  // ----- scalar multiples -----

  // The k-fold sum of q.
  function Multiple(k: nat, q: Point, p: int): Point
    requires p > 3
  {
    if k == 0 then Identity else AddPoints(Multiple(k - 1, q, p), q, p)
  }

  lemma {:induction false} MultipleOnCurve(k: nat, q: Point, p: int, b: int)
    requires Field(p) && Reduced(b, p) && CurvePoint(q, p, b)
    ensures CurvePoint(Multiple(k, q, p), p, b)
  {
    if k != 0 {
      MultipleOnCurve(k - 1, q, p, b);
      AddPointsOnCurve(Multiple(k - 1, q, p), q, p, b);
    }
  }

  lemma {:induction false} MultipleAdds(j: nat, k: nat, q: Point, p: int, b: int)
    requires Field(p) && Reduced(b, p) && CurvePoint(q, p, b) && Associative(p, b)
    ensures AddPoints(Multiple(j, q, p), Multiple(k, q, p), p) == Multiple(j + k, q, p)
  {
    if k != 0 {
      MultipleAdds(j, k - 1, q, p, b);
      MultipleOnCurve(j, q, p, b);
      MultipleOnCurve(k - 1, q, p, b);
      assert Multiple(j + k, q, p) == AddPoints(Multiple(j + (k - 1), q, p), q, p);
    }
  }

  lemma {:induction false} MultipleOfMultiple(j: nat, k: nat, q: Point, p: int, b: int)
    requires Field(p) && Reduced(b, p) && CurvePoint(q, p, b) && Associative(p, b)
    ensures j * k >= 0 && Multiple(j, Multiple(k, q, p), p) == Multiple(j * k, q, p)
  {
    MulNonneg(j, k);
    if j != 0 {
      MulNonneg(j - 1, k);
      assert (j - 1) * k + k == j * k;
      MultipleOfMultiple(j - 1, k, q, p, b);
      MultipleAdds((j - 1) * k, k, q, p, b);
    }
  }

  lemma {:induction false} MultipleOfIdentity(k: nat, p: int)
    requires p > 3
    ensures Multiple(k, Identity, p) == Identity
  {
    if k != 0 {
      MultipleOfIdentity(k - 1, p);
    }
  }

  // Only the residue of k modulo the order matters ...
  lemma MultipleModOrder(k: nat, c: Group)
    requires WellFormed(c) && GroupHypotheses(c)
    ensures Multiple(k, c.g, c.p) == Multiple(k % c.n, c.g, c.p)
  {
    var t, r := k / c.n, k % c.n;
    DivNonneg(k, c.n);
    assert k == t * c.n + r;
    MultipleOfMultiple(t, c.n, c.g, c.p, c.b);
    MultipleOfIdentity(t, c.p);
    MultipleAdds(t * c.n, r, c.g, c.p, c.b);
    MultipleOnCurve(r, c.g, c.p, c.b);
  }

  /** ... and the order is exactly n: a multiple of the generator vanishes only when n divides the scalar. */
  lemma GeneratorOrder(k: nat, c: Group)
    requires WellFormed(c) && GroupHypotheses(c)
    ensures Multiple(k, c.g, c.p) == Identity <==> k % c.n == 0
  {
    assert Multiple(1, c.g, c.p) == AddPoints(Multiple(0, c.g, c.p), c.g, c.p);
    MultipleModOrder(k, c);
    if k % c.n != 0 && Multiple(k, c.g, c.p) == Identity {
      var i := Inverse(k, c.n);
      InverseCorrect(k, c.n);
      MultipleOfMultiple(i, k, c.g, c.p, c.b);
      MultipleOfIdentity(i, c.p);
      MultipleModOrder(i * k, c);
    }
  }

  // ----- double-and-add -----

  lemma StartMultiply(q: Point, scalar: Uint256, p: int, b: int)
    requires Field(p)
    ensures Leading(Val(scalar), 256) == 0 && Represents(JACOBIAN_IDENTITY, Multiple(0, q, p), p)
  {
    ValBound(scalar);
    LimbPowIsPow2(4);
    ModSmall(Val(scalar), Pow2(256));
  }

  lemma DoubleStep(j: Jacobian, k: nat, q: Point, p: int, b: int)
    requires Field(p) && Reduced(b, p) && CurvePoint(q, p, b) && Associative(p, b)
    requires Represents(j, Multiple(k, q, p), p)
    ensures Represents(JacobianDouble(j, p), Multiple(2 * k, q, p), p)
  {
    MultipleOnCurve(k, q, p, b);
    DoubleRepresents(j, Multiple(k, q, p), p, b);
    MultipleAdds(k, k, q, p, b);
  }

  lemma AddStep(j: Jacobian, k: nat, q: Point, p: int, b: int)
    requires Field(p) && Reduced(b, p) && CurvePoint(q, p, b)
    requires Represents(j, Multiple(k, q, p), p)
    ensures Represents(JacobianAdd(j, FromPoint(q), p), Multiple(k + 1, q, p), p)
  {
    MultipleOnCurve(k, q, p, b);
    FromPointRepresents(q, p);
    AddRepresents(j, FromPoint(q), Multiple(k, q, p), q, p, b);
  }

  lemma FinishMultiply(j: Jacobian, k: nat, q: Point, p: int, b: int)
    requires Field(p) && Reduced(b, p) && CurvePoint(q, p, b) && Represents(j, Multiple(k, q, p), p)
    ensures ToPoint(j, p) == Multiple(k, q, p)
  {
    MultipleOnCurve(k, q, p, b);
    ToPointRepresents(j, Multiple(k, q, p), p);
  }
}
