/** Public-key operations on P-256: point encoding, Diffie-Hellman, and
    deterministic ECDSA. The code fixes the P-256 parameters; the group is a
    parameter here so that proofs never compute with the constants. */
module Ecc {
  import opened Words
  import opened NumberTheory
  import opened Limbs
  import opened Curve
  import opened JacobianLaw
  import opened P256
  import opened LimbPoints

  // ----- uncompressed SEC 1 encoding -----

  datatype PointError =
    | InvalidEncodingLength(length: nat)
    | UnsupportedEncoding(prefix: byte)
    | CoordinateOutOfRange
    | PointNotOnCurve
    | IdentityCannotBeEncoded

  function FromCoordinates(x: nat, y: nat, p: int, b: int): Result<Point, PointError>
    requires p > 3
  {
    if x >= p || y >= p then Err(CoordinateOutOfRange)
    else if !IsOnCurve(Affine(x, y), p, b) then Err(PointNotOnCurve)
    else Ok(Affine(x, y))
  }

  function ToSec1(q: Point): Result<seq<byte>, PointError>
  {
    match q
    case Identity => Err(IdentityCannotBeEncoded)
    case Affine(x, y) => Ok([0x04] + ToBE(x, 32) + ToBE(y, 32))
  }

  function FromSec1(encoded: seq<byte>, p: int, b: int): Result<Point, PointError>
    requires p > 3
  {
    if |encoded| != 65 then Err(InvalidEncodingLength(|encoded|))
    else if encoded[0] != 0x04 then Err(UnsupportedEncoding(encoded[0]))
    else FromCoordinates(BE(encoded[1..33]), BE(encoded[33..65]), p, b)
  }

  /** Every point except the identity reads back from its encoding. */
  lemma Sec1RoundTrip(q: Point, p: int, b: int)
    requires p > 3 && p < LimbPow(4) && CurvePoint(q, p, b) && q.Affine?
    ensures ToSec1(q).Ok? && |ToSec1(q).value| == 65 && FromSec1(ToSec1(q).value, p, b) == Ok(q)
  {
    hide BE, ToBE, LimbPow, Pow256, IsOnCurve;
    LimbPowIsPow256(4);
    BEOfToBE(q.x, 32);
    BEOfToBE(q.y, 32);
    var e := ToSec1(q).value;
    assert e[1..33] == ToBE(q.x, 32);
    assert e[33..65] == ToBE(q.y, 32);
  }

  /** Whatever is accepted is a curve point, and re-encodes to the same bytes. */
  lemma Sec1Canonical(encoded: seq<byte>, p: int, b: int)
    requires p > 3 && FromSec1(encoded, p, b).Ok?
    ensures var q := FromSec1(encoded, p, b).value;
            CurvePoint(q, p, b) && q.Affine? && ToSec1(q) == Ok(encoded)
  {
    ToBEOfBE(encoded[1..33]);
    ToBEOfBE(encoded[33..65]);
    assert encoded == [encoded[0]] + encoded[1..33] + encoded[33..65];
  }

  method PointFromCoordinates(x: Uint256, y: Uint256, d: Domain) returns (r: Result<LimbPoint, PointError>)
    requires ValidDomain(d)
    ensures match FromCoordinates(Val(x), Val(y), Val(d.modulus), Val(d.b))
            case Ok(point) => r.Ok? && PointOf(r.value) == point && OnCurve(r.value, d)
            case Err(error) => r == Err(error)
  {
    hide Val, IsOnCurve, Prime, Associative;
    var orderingX := CompareLimbs(x, d.modulus);
    var orderingY := CompareLimbs(y, d.modulus);
    if orderingX != Less || orderingY != Less {
      return Err(CoordinateOutOfRange);
    }
    var onCurve := IsOnCurveLimbs(Coordinates(x, y), d);
    if !onCurve {
      return Err(PointNotOnCurve);
    }
    r := Ok(Coordinates(x, y));
  }

  method PointToSec1(q: LimbPoint) returns (r: Result<seq<byte>, PointError>)
    ensures r == ToSec1(PointOf(q))
  {
    hide Val, ToBE;
    if q.Infinity? {
      return Err(IdentityCannotBeEncoded);
    }
    var x := ToBEBytes(q.x);
    var y := ToBEBytes(q.y);
    r := Ok([0x04] + x + y);
  }

  method PointFromSec1(encoded: seq<byte>, d: Domain) returns (r: Result<LimbPoint, PointError>)
    requires ValidDomain(d)
    ensures match FromSec1(encoded, Val(d.modulus), Val(d.b))
            case Ok(point) => r.Ok? && PointOf(r.value) == point && OnCurve(r.value, d)
            case Err(error) => r == Err(error)
  {
    hide Val, BE, FromCoordinates, Prime, Associative;
    if |encoded| != 65 {
      return Err(InvalidEncodingLength(|encoded|));
    }
    if encoded[0] != 0x04 {
      return Err(UnsupportedEncoding(encoded[0]));
    }
    var x := FromBEBytes(encoded[1..33]);
    var y := FromBEBytes(encoded[33..65]);
    r := PointFromCoordinates(x, y, d);
  }

  // ----- Diffie-Hellman -----

  datatype EcdhError = ZeroPrivateScalar | IdentityPeerPublicKey | SharedPointAtInfinity

  function EcdhSpec(scalar: nat, peer: Point, p: int): Result<seq<byte>, EcdhError>
    requires p > 3
  {
    if scalar == 0 then Err(ZeroPrivateScalar)
    else if peer.Identity? then Err(IdentityPeerPublicKey)
    else
      var shared := Multiple(scalar, peer, p);
      if shared.Identity? then Err(SharedPointAtInfinity) else Ok(ToBE(shared.x, 32))
  }

  method Ecdh(scalar: Uint256, peer: LimbPoint, d: Domain) returns (r: Result<seq<byte>, EcdhError>)
    requires ValidDomain(d) && OnCurve(peer, d)
    ensures r == EcdhSpec(Val(scalar), PointOf(peer), Val(d.modulus))
  {
    hide Val, Multiple, ToBE, CurvePoint, Prime, Associative;
    ValOfOne();
    SameLimbs(scalar, ZERO);
    if scalar == ZERO {
      return Err(ZeroPrivateScalar);
    }
    if peer.Infinity? {
      return Err(IdentityPeerPublicKey);
    }
    var shared := MultiplyUint(peer, scalar, d);
    if shared.Infinity? {
      return Err(SharedPointAtInfinity);
    }
    var x := ToBEBytes(shared.x);
    r := Ok(x);
  }

  /** Both ends of an exchange compute the same 32 bytes, and neither fails. */
  lemma EcdhAgreement(a: nat, b: nat, c: Group)
    requires WellFormed(c) && GroupHypotheses(c) && 1 <= a < c.n && 1 <= b < c.n
    ensures EcdhSpec(a, Multiple(b, c.g, c.p), c.p) == EcdhSpec(b, Multiple(a, c.g, c.p), c.p)
    ensures EcdhSpec(a, Multiple(b, c.g, c.p), c.p).Ok? && |EcdhSpec(a, Multiple(b, c.g, c.p), c.p).value| == 32
  {
    MultipleOnCurve(a, c.g, c.p, c.b);
    MultipleOnCurve(b, c.g, c.p, c.b);
    MultipleOfMultiple(a, b, c.g, c.p, c.b);
    MultipleOfMultiple(b, a, c.g, c.p, c.b);
    assert a * b == b * a;
    ModSmall(a, c.n);
    ModSmall(b, c.n);
    Euclid(a, b, c.n);
    GeneratorOrder(a, c);
    GeneratorOrder(b, c);
    GeneratorOrder(a * b, c);
  }

  // ----- RFC 6979 nonces -----

  type Digest = s: seq<byte> | |s| == 32 witness seq(32, _ => 0)
  type Mac = (seq<byte>, seq<byte>) -> Digest

  datatype Generator = Generator(k: Digest, v: Digest)
  datatype Draw = Exhausted | Drawn(nonce: nat, next: Generator, budget: nat)

  function Seed(hmac: Mac, scalar: nat, hash: Digest, n: int): Generator
    requires n > 0
  {
    var zeros: Digest := seq(32, _ => 0);
    var ones: Digest := seq(32, _ => 1);
    var octets := ToBE(scalar, 32) + ToBE(BE(hash) % n, 32);
    var k1 := hmac(zeros, ones + [0] + octets);
    var v1 := hmac(k1, ones);
    var k2 := hmac(k1, v1 + [1] + octets);
    Generator(k2, hmac(k2, v1))
  }

  function Reject(hmac: Mac, g: Generator): Generator {
    var k := hmac(g.k, g.v + [0]);
    Generator(k, hmac(k, g.v))
  }

  // The next candidate in [1, n-1] among the first budget outputs.
  function NextDraw(hmac: Mac, g: Generator, n: int, budget: nat): (d: Draw)
    ensures d.Drawn? ==> 1 <= d.nonce < n && d.budget < budget
    decreases budget
  {
    if budget == 0 then Exhausted
    else
      var v := hmac(g.k, g.v);
      if BE(v) != 0 && BE(v) < n then Drawn(BE(v), Generator(g.k, v), budget - 1)
      else NextDraw(hmac, Reject(hmac, Generator(g.k, v)), n, budget - 1)
  }

  class Rfc6979 {
    const hmac: Mac
    var k: Digest
    var v: Digest

    ghost function State(): Generator
      reads this
    {
      Generator(k, v)
    }

    constructor (hmac: Mac, scalar: Uint256, hash: Digest, order: Uint256)
      requires Val(order) > 0
      ensures this.hmac == hmac && State() == Seed(hmac, Val(scalar), hash, Val(order))
    {
      var privateOctets := ToBEBytes(scalar);
      var hashValue := FromBEBytes(hash);
      var hashScalar := ReduceUint(hashValue, order);
      var hashOctets := ToBEBytes(hashScalar);
      var zeros: Digest := seq(32, _ => 0);
      var ones: Digest := seq(32, _ => 1);
      var input := ones + [0] + privateOctets + hashOctets;
      var k1 := hmac(zeros, input);
      var v1 := hmac(k1, ones);
      assert input == ones + [0] + (privateOctets + hashOctets);
      input := v1 + [1] + privateOctets + hashOctets;
      assert input == v1 + [1] + (privateOctets + hashOctets);
      var k2 := hmac(k1, input);
      this.hmac := hmac;
      k := k2;
      v := hmac(k2, v1);
    }

    method RejectCandidate()
      modifies this
      ensures State() == Reject(hmac, old(State()))
    {
      k := hmac(k, v + [0]);
      v := hmac(k, v);
    }

    // Wherever the loop ends, it ends with the draw; bound is some number of outputs after which it does.
    method NextScalar(order: Uint256, ghost bound: nat) returns (nonce: Uint256, ghost left: nat)
      requires NextDraw(hmac, State(), Val(order), bound).Drawn?
      modifies this
      ensures NextDraw(hmac, old(State()), Val(order), bound) == Drawn(Val(nonce), State(), left)
    {
      hide Val, BE;
      left := bound;
      ValOfOne();
      while true
        invariant NextDraw(hmac, State(), Val(order), left) == NextDraw(hmac, old(State()), Val(order), bound)
        decreases left
      {
        v := hmac(k, v);
        left := left - 1;
        var candidate := FromBEBytes(v);
        SameLimbs(candidate, ZERO);
        var ordering := CompareLimbs(candidate, order);
        if candidate != ZERO && ordering == Less {
          return candidate, left;
        }
        RejectCandidate();
      }
    }
  }

  // ----- ECDSA -----

  datatype Signature = Signature(r: int, s: int)
  datatype LimbSignature = LimbSignature(r: Uint256, s: Uint256)
  datatype EcdsaError = ZeroSigningScalar | InvalidR | InvalidS

  function SignatureOf(signature: LimbSignature): Signature {
    Signature(Val(signature.r), Val(signature.s))
  }

  function FromComponents(r: int, s: int, n: int): (sig: Result<Signature, EcdsaError>)
    requires r >= 0 && s >= 0
    ensures sig.Ok? <==> 1 <= r < n && 1 <= s < n
  {
    if r == 0 || r >= n then Err(InvalidR)
    else if s == 0 || s >= n then Err(InvalidS)
    else Ok(Signature(r, s))
  }

  method SignatureFromComponents(r: Uint256, s: Uint256, d: Domain) returns (signature: Result<LimbSignature, EcdsaError>)
    ensures match FromComponents(Val(r), Val(s), Val(d.order))
            case Ok(numbers) => signature.Ok? && SignatureOf(signature.value) == numbers
            case Err(error) => signature == Err(error)
  {
    hide Val;
    ValOfOne();
    SameLimbs(r, ZERO);
    SameLimbs(s, ZERO);
    var orderingR := CompareLimbs(r, d.order);
    var orderingS := CompareLimbs(s, d.order);
    if r == ZERO || orderingR != Less {
      return Err(InvalidR);
    }
    if s == ZERO || orderingS != Less {
      return Err(InvalidS);
    }
    signature := Ok(LimbSignature(r, s));
  }

  // The signature a nonce and its multiple of the generator give, if they give one.
  function SignatureAt(n: int, point: Point, scalar: nat, z: nat, nonce: nat): Option<Signature>
    requires n > 2
  {
    match point
    case Identity => None
    case Affine(x, _) =>
      var r := x % n;
      if r == 0 then None
      else
        var s := Mul(Inverse(nonce, n), Add(z, Mul(scalar, r, n), n), n);
        if s == 0 then None else Some(Signature(r, s))
  }

  function TryNonce(c: Group, scalar: nat, z: nat, nonce: nat): Option<Signature>
    requires c.p > 3 && c.n > 2
  {
    SignatureAt(c.n, Multiple(nonce, c.g, c.p), scalar, z, nonce)
  }

  // The signing loop, over at most budget outputs of the generator.
  function SignWith(hmac: Mac, c: Group, scalar: nat, z: nat, g: Generator, budget: nat): Option<Signature>
    requires c.p > 3 && c.n > 2
    decreases budget
  {
    var d := NextDraw(hmac, g, c.n, budget);
    if d.Exhausted? then None
    else
      match TryNonce(c, scalar, z, d.nonce)
      case Some(signature) => Some(signature)
      case None => SignWith(hmac, c, scalar, z, Reject(hmac, d.next), d.budget)
  }

  function Verify(c: Group, publicKey: Point, z: nat, signature: Signature): bool
    requires c.p > 3 && c.n > 2
  {
    if publicKey.Identity? then false
    else
      var w := Inverse(signature.s, c.n);
      var u1 := Mul(z, w, c.n);
      var u2 := Mul(signature.r, w, c.n);
      match AddPoints(Multiple(u1, c.g, c.p), Multiple(u2, publicKey, c.p), c.p)
      case Identity => false
      case Affine(x, _) => x % c.n == signature.r
  }

  // s k = z + d r modulo the order.
  lemma SignatureEquation(d: int, z: int, k: int, r: int, s: int, n: int)
    requires Prime(n) && 1 <= k < n && s == Mul(Inverse(k, n), Add(z, Mul(d, r, n), n), n)
    ensures (s * k) % n == (z + d * r) % n
  {
    hide Inverse;
    var i, t := Inverse(k, n), z + d * r;
    ModSmall(k, n);
    InverseCorrect(k, n);
    ModSmall(i, n);
    ModIdempotent(d * r, n);
    ModAddCong(z, z, Mul(d, r, n), d * r, n);
    MulOf(i, i, Add(z, Mul(d, r, n), n), t, n);
    ModIdempotent(i * t, n);
    ModMulCong(s, i * t, k, k, n);
    ModSmall(1, n);
    ModMulCong(i * k, 1, t, t, n);
    assert (i * t) * k == (i * k) * t;
  }

  // u1 + u2 d is the nonce again, modulo the order.
  lemma NonceRecovered(d: int, z: int, k: int, r: int, s: int, n: int)
    requires Prime(n) && 1 <= k < n && 1 <= s < n && (s * k) % n == (z + d * r) % n
    ensures var w := Inverse(s, n); (Mul(z, w, n) + Mul(r, w, n) * d) % n == k
  {
    hide Inverse;
    var w, t := Inverse(s, n), z + d * r;
    ModSmall(k, n);
    ModSmall(s, n);
    InverseCorrect(s, n);
    ModIdempotent(z * w, n);
    ModIdempotent(r * w, n);
    ModMulCong(Mul(r, w, n), r * w, d, d, n);
    ModAddCong(Mul(z, w, n), z * w, Mul(r, w, n) * d, (r * w) * d, n);
    Collect(z, d, r, w);
    ModMulCong(t, s * k, w, w, n);
    ModSmall(1, n);
    ModMulCong(w * s, 1, k, k, n);
    assert (s * k) * w == (w * s) * k;
  }

  lemma Collect(z: int, d: int, r: int, w: int)
    ensures z * w + (r * w) * d == (z + d * r) * w
  {
    assert (z + d * r) * w == z * w + (d * r) * w;
  }

  // In range, and accepted under the public key of the private scalar d.
  ghost predicate GoodSignature(c: Group, d: nat, z: nat, signature: Signature)
    requires c.p > 3 && c.n > 2
  {
    && 1 <= signature.r < c.n && 1 <= signature.s < c.n
    && FromComponents(signature.r, signature.s, c.n) == Ok(signature)
    && Verify(c, Multiple(d, c.g, c.p), z, signature)
  }

  /** Every signature a nonce gives has both components in range, and verifies under the
      matching public key. */
  lemma SignatureVerifies(c: Group, d: nat, z: nat, k: nat)
    requires WellFormed(c) && GroupHypotheses(c) && 1 <= d < c.n && 1 <= k < c.n
    requires TryNonce(c, d, z, k).Some?
    ensures GoodSignature(c, d, z, TryNonce(c, d, z, k).value)
  {
    hide Inverse, Associative, CurvePoint, Prime;
    var p, n, g := c.p, c.n, c.g;
    var signature := TryNonce(c, d, z, k).value;
    var w := Inverse(signature.s, n);
    var u1, u2 := Mul(z, w, n), Mul(signature.r, w, n);
    var q := Multiple(d, g, p);
    MultipleOnCurve(k, g, p, c.b);
    SignatureEquation(d, z, k, signature.r, signature.s, n);
    NonceRecovered(d, z, k, signature.r, signature.s, n);
    MultipleOfMultiple(u2, d, g, p, c.b);
    MultipleAdds(u1, u2 * d, g, p, c.b);
    MultipleModOrder(u1 + u2 * d, c);
    GeneratorOrder(d, c);
    ModSmall(d, n);
  }

  /** The whole signing loop, whatever the nonces it had to reject. */
  lemma {:induction false} SignThenVerify(hmac: Mac, c: Group, d: nat, z: nat, g: Generator, budget: nat)
    requires WellFormed(c) && GroupHypotheses(c) && 1 <= d < c.n
    ensures SignWith(hmac, c, d, z, g, budget).Some? ==>
              GoodSignature(c, d, z, SignWith(hmac, c, d, z, g, budget).value)
    decreases budget
  {
    hide GroupHypotheses, GoodSignature, TryNonce, CurvePoint;
    var draw := NextDraw(hmac, g, c.n, budget);
    if draw.Drawn? {
      if TryNonce(c, d, z, draw.nonce).Some? {
        SignatureVerifies(c, d, z, draw.nonce);
      } else {
        SignThenVerify(hmac, c, d, z, Reject(hmac, draw.next), draw.budget);
      }
    }
  }

  lemma {:induction false} MoreDraws(hmac: Mac, g: Generator, n: int, budget: nat, extra: nat)
    requires NextDraw(hmac, g, n, budget).Drawn?
    ensures var d := NextDraw(hmac, g, n, budget);
            NextDraw(hmac, g, n, budget + extra) == Drawn(d.nonce, d.next, d.budget + extra)
    decreases budget
  {
    var v := hmac(g.k, g.v);
    if !(BE(v) != 0 && BE(v) < n) {
      MoreDraws(hmac, Reject(hmac, Generator(g.k, v)), n, budget - 1, extra);
    }
  }

  // What the loop finds does not depend on how many outputs it may use.
  lemma {:induction false} BudgetIrrelevant(hmac: Mac, c: Group, d: nat, z: nat, g: Generator, budget: nat, extra: nat)
    requires c.p > 3 && c.n > 2 && SignWith(hmac, c, d, z, g, budget).Some?
    ensures SignWith(hmac, c, d, z, g, budget + extra) == SignWith(hmac, c, d, z, g, budget)
    decreases budget
  {
    var draw := NextDraw(hmac, g, c.n, budget);
    MoreDraws(hmac, g, c.n, budget, extra);
    if TryNonce(c, d, z, draw.nonce).None? {
      BudgetIrrelevant(hmac, c, d, z, Reject(hmac, draw.next), draw.budget, extra);
    }
  }

  /** The signature that the loop, started in this state, ends with. */
  ghost predicate Signs(hmac: Mac, c: Group, d: nat, z: nat, g: Generator, signature: Signature)
    requires c.p > 3 && c.n > 2
  {
    exists bound: nat :: SignWith(hmac, c, d, z, g, bound) == Some(signature)
  }

  lemma SignsOnce(hmac: Mac, c: Group, d: nat, z: nat, g: Generator, signature: Signature, other: Signature)
    requires c.p > 3 && c.n > 2 && Signs(hmac, c, d, z, g, signature) && Signs(hmac, c, d, z, g, other)
    ensures signature == other
  {
    hide SignWith;
    var bound: nat :| SignWith(hmac, c, d, z, g, bound) == Some(signature);
    var bound': nat :| SignWith(hmac, c, d, z, g, bound') == Some(other);
    if bound <= bound' {
      BudgetIrrelevant(hmac, c, d, z, g, bound, bound' - bound);
    } else {
      BudgetIrrelevant(hmac, c, d, z, g, bound', bound - bound');
    }
  }

  // What one nonce gives, on limbs.
  method AttemptSignature(d: Domain, point: LimbPoint, scalar: Uint256, z: Uint256, nonce: Uint256)
    returns (r: Option<LimbSignature>)
    requires ValidDomain(d) && 1 <= Val(nonce) < Val(d.order)
    ensures var signature := SignatureAt(Val(d.order), PointOf(point), Val(scalar), Val(z), Val(nonce));
            && (r.Some? <==> signature.Some?) && (r.Some? ==> SignatureOf(r.value) == signature.value)
  {
    hide Val, Mul, Add, Inverse, Prime, Associative, CurvePoint;
    var n := d.order;
    ValOfOne();
    if point.Infinity? {
      return None;
    }
    var x := ReduceUint(point.x, n);
    SameLimbs(x, ZERO);
    if x == ZERO {
      return None;
    }
    ModSmall(Val(nonce), Val(n));
    var nonceInverse := InvertMod(nonce, n);
    var s := FieldMul(scalar, x, n);
    s := FieldAdd(z, s, n);
    s := FieldMul(nonceInverse.value, s, n);
    SameLimbs(s, ZERO);
    if s == ZERO {
      return None;
    }
    r := Some(LimbSignature(x, s));
  }

  /** Signs a hash. Wherever the loop ends, which it does with some signature, it ends with that one, and the
      signature verifies. */
  method Sign(hmac: Mac, d: Domain, scalar: Uint256, hash: Digest) returns (r: Result<LimbSignature, EcdsaError>)
    requires ValidDomain(d) && Val(scalar) < Val(d.order)
    requires Val(scalar) != 0 ==>
               var c := GroupOf(d);
               exists s :: Signs(hmac, c, Val(scalar), BE(hash) % c.n, Seed(hmac, Val(scalar), hash, c.n), s)
    ensures Val(scalar) == 0 ==> r == Err(ZeroSigningScalar)
    ensures Val(scalar) != 0 ==>
              var c := GroupOf(d);
              var z := BE(hash) % c.n;
              && r.Ok? && Signs(hmac, c, Val(scalar), z, Seed(hmac, Val(scalar), hash, c.n), SignatureOf(r.value))
              && GoodSignature(c, Val(scalar), z, SignatureOf(r.value))
  {
    hide GoodSignature, CurvePoint, SignatureAt, Seed, Prime, Associative, Val, BE, Multiple, NextDraw;
    ValOfOne();
    SameLimbs(scalar, ZERO);
    if scalar == ZERO {
      return Err(ZeroSigningScalar);
    }
    ghost var c := GroupOf(d);
    var hashValue := FromBEBytes(hash);
    var z := ReduceUint(hashValue, d.order);
    var generator := new Rfc6979(hmac, scalar, hash, d.order);
    ghost var start := generator.State();
    ghost var signature :| Signs(hmac, c, Val(scalar), Val(z), start, signature);
    ghost var bound: nat :| SignWith(hmac, c, Val(scalar), Val(z), start, bound) == Some(signature);
    SignThenVerify(hmac, c, Val(scalar), Val(z), start, bound);
    ghost var left := bound;
    while true
      invariant generator.hmac == hmac && fresh(generator)
      invariant SignWith(hmac, c, Val(scalar), Val(z), generator.State(), left) == Some(signature)
      decreases left
    {
      var nonce;
      nonce, left := generator.NextScalar(d.order, left);
      var point := MultiplyUint(Coordinates(d.x, d.y), nonce, d);
      var attempt := AttemptSignature(d, point, scalar, z, nonce);
      if attempt.Some? {
        return Ok(attempt.value);
      }
      generator.RejectCandidate();
    }
  }

  /** Verification of a signature whose components are in range, on limbs. */
  method VerifySignature(d: Domain, publicKey: LimbPoint, hash: Digest, signature: LimbSignature) returns (ok: bool)
    requires ValidDomain(d) && OnCurve(publicKey, d)
    requires 1 <= Val(signature.r) < Val(d.order) && 1 <= Val(signature.s) < Val(d.order)
    ensures ok == Verify(GroupOf(d), PointOf(publicKey), BE(hash) % Val(d.order), SignatureOf(signature))
  {
    hide Val, BE, Mul, Inverse, Prime, Associative, CurvePoint, Multiple, AddPoints;
    if publicKey.Infinity? {
      return false;
    }
    var n := d.order;
    ModSmall(Val(signature.s), Val(n));
    var sInverse := InvertMod(signature.s, n);
    var hashValue := FromBEBytes(hash);
    var z := ReduceUint(hashValue, n);
    var u1 := FieldMul(z, sInverse.value, n);
    var u2 := FieldMul(signature.r, sInverse.value, n);
    var left := MultiplyUint(Coordinates(d.x, d.y), u1, d);
    var right := MultiplyUint(publicKey, u2, d);
    var point := AddPoint(left, right, d);
    if point.Infinity? {
      return false;
    }
    var x := ReduceUint(point.x, n);
    SameLimbs(x, signature.r);
    ok := x == signature.r;
  }

  // ----- the curve of the program -----

  // What is taken of P-256 without proof.
  ghost predicate P256Hypotheses() {
    P256WellFormed();
    GroupHypotheses(P256_GROUP)
  }

  lemma P256IsValid()
    requires P256Hypotheses()
    ensures ValidDomain(P256_DOMAIN) && GroupOf(P256_DOMAIN) == P256_GROUP
  {
    hide Val, GroupHypotheses, WellFormed;
    P256WellFormed();
    P256Domain();
  }

  /** On P-256, both ends compute the same 32 bytes, and neither fails. */
  lemma P256EcdhAgreement(a: nat, b: nat)
    requires P256Hypotheses() && 1 <= a < N && 1 <= b < N
    ensures EcdhSpec(a, Multiple(b, P256_GROUP.g, P), P) == EcdhSpec(b, Multiple(a, P256_GROUP.g, P), P)
    ensures EcdhSpec(a, Multiple(b, P256_GROUP.g, P), P).Ok?
  {
    hide EcdhSpec, Multiple, GroupHypotheses, WellFormed;
    P256WellFormed();
    EcdhAgreement(a, b, P256_GROUP);
  }

  /** On P-256, whatever the signing loop ends with is accepted under the matching public key. */
  lemma P256SignThenVerify(hmac: Mac, d: nat, z: nat, g: Generator, signature: Signature)
    requires P256Hypotheses() && 1 <= d < N && Signs(hmac, P256_GROUP, d, z, g, signature)
    ensures GoodSignature(P256_GROUP, d, z, signature)
  {
    hide SignWith, GoodSignature, GroupHypotheses, WellFormed;
    P256WellFormed();
    var bound: nat :| SignWith(hmac, P256_GROUP, d, z, g, bound) == Some(signature);
    SignThenVerify(hmac, P256_GROUP, d, z, g, bound);
  }
}
