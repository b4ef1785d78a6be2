/** Residues modulo a positive integer, and Fermat's little theorem. */
module NumberTheory {
  import opened Words

  // ----- residues -----

  lemma ModFromMultiple(a: int, b: int, k: int, m: int)
    requires m > 0 && a - b == k * m
    ensures a % m == b % m
  {
    assert b == b / m * m + b % m;
    assert a == (b / m + k) * m + b % m;
    DivModUnique(b / m + k, b % m, m);
  }

  // The number of times m divides the difference of two congruent integers.
  lemma ModWitness(a: int, b: int, m: int) returns (k: int)
    requires m > 0 && a % m == b % m
    ensures a - b == k * m
  {
    k := a / m - b / m;
    assert a == a / m * m + a % m;
    assert b == b / m * m + b % m;
  }

  lemma ModIdempotent(a: int, m: int)
    requires m > 0
    ensures a % m % m == a % m
  {
    ModSmall(a % m, m);
  }

  lemma ModSmall(a: int, m: int)
    requires 0 <= a < m
    ensures a % m == a && a / m == 0
  {
    DivModUnique(0, a, m);
  }

  lemma ModAddCong(a: int, a': int, b: int, b': int, m: int)
    requires m > 0 && a % m == a' % m && b % m == b' % m
    ensures (a + b) % m == (a' + b') % m
    ensures (a - b) % m == (a' - b') % m
  {
    var j := ModWitness(a, a', m);
    var k := ModWitness(b, b', m);
    assert (j + k) * m == j * m + k * m && (j - k) * m == j * m - k * m;
    ModFromMultiple(a + b, a' + b', j + k, m);
    ModFromMultiple(a - b, a' - b', j - k, m);
  }

  lemma ModMulCong(a: int, a': int, b: int, b': int, m: int)
    requires m > 0 && a % m == a' % m && b % m == b' % m
    ensures (a * b) % m == (a' * b') % m
  {
    var j := ModWitness(a, a', m);
    var k := ModWitness(b, b', m);
    assert a * b - a' * b' == (a - a') * b + a' * (b - b');
    assert (j * m) * b + a' * (k * m) == (j * b + a' * k) * m;
    ModFromMultiple(a * b, a' * b', j * b + a' * k, m);
  }

  // A sum may be reduced before it is multiplied, and the product before it is compared.
  lemma ModSumProduct(v: int, c: int, r: int, total: int, k: int, w: int, m: int)
    requires m > 0 && (v + c) * r == total + m * k && w % m == total % m
    ensures w % m == ((v % m + c) * r) % m
  {
    ModIdempotent(v, m);
    ModAddCong(v % m, v, c, c, m);
    ModMulCong(v % m + c, v + c, r, r, m);
    ModFromMultiple(total, (v + c) * r, -k, m);
  }

  lemma ModZeroIff(a: int, b: int, m: int)
    requires m > 0
    ensures (a - b) % m == 0 <==> a % m == b % m
  {
    ModSmall(0, m);
    if (a - b) % m == 0 {
      var k := ModWitness(a - b, 0, m);
      ModFromMultiple(a, b, k, m);
    }
    if a % m == b % m {
      var k := ModWitness(a, b, m);
      ModFromMultiple(a - b, 0, k, m);
    }
  }

  // ----- powers -----

  function Pow(b: int, e: nat): int {
    if e == 0 then 1 else b * Pow(b, e - 1)
  }

  lemma {:induction false} PowAdds(b: int, d: nat, e: nat)
    ensures Pow(b, d + e) == Pow(b, d) * Pow(b, e)
  {
    if d != 0 {
      PowAdds(b, d - 1, e);
      assert b * (Pow(b, d - 1) * Pow(b, e)) == (b * Pow(b, d - 1)) * Pow(b, e);
    }
  }

  lemma {:induction false} PowModCong(a: int, b: int, e: nat, m: int)
    requires m > 0 && a % m == b % m
    ensures Pow(a, e) % m == Pow(b, e) % m
  {
    if e != 0 {
      PowModCong(a, b, e - 1, m);
      ModMulCong(a, b, Pow(a, e - 1), Pow(b, e - 1), m);
    }
  }

  // ----- primes -----

  ghost predicate Prime(p: int) {
    p >= 2 && forall d :: 2 <= d < p ==> p % d != 0
  }

  lemma RemainderDivides(a: int, b: int, p: int, q: int, r: int, k: int)
    requires p > 0 && p == a * q + r && a * b == k * p
    ensures (r * b) % p == 0
  {
    assert r * b == p * b - q * (a * b);
    assert p * b - q * (k * p) == (b - q * k) * p;
    ModSmall(0, p);
    ModFromMultiple(r * b, 0, b - q * k, p);
  }

  // Euclid's lemma: a prime that divides a product divides a factor.
  lemma {:induction false} EuclidReduced(a: int, b: int, p: int)
    requires Prime(p) && 0 < a < p && (a * b) % p == 0
    ensures b % p == 0
    decreases a
  {
    if a != 1 {
      var r := p % a;
      ModSmall(0, p);
      var k := ModWitness(a * b, 0, p);
      RemainderDivides(a, b, p, p / a, r, k);
      EuclidReduced(r, b, p);
    }
  }

  lemma Euclid(a: int, b: int, p: int)
    requires Prime(p)
    ensures (a * b) % p == 0 <==> a % p == 0 || b % p == 0
  {
    ModSmall(0, p);
    ModIdempotent(a, p);
    ModMulCong(a, a % p, b, b, p);
    if (a * b) % p == 0 && a % p != 0 {
      EuclidReduced(a % p, b, p);
    }
    if a % p == 0 {
      ModMulCong(a, 0, b, b, p);
    }
    if b % p == 0 {
      ModMulCong(a, a, b, 0, p);
    }
  }

  lemma CancelFactor(a: int, b: int, c: int, p: int)
    requires p >= 2 && Prime(p) && c % p != 0 && (a * c) % p == (b * c) % p
    ensures a % p == b % p
  {
    hide Prime;
    var x, y, d := a * c, b * c, a - b;
    assert x - y == d * c;
    ModZeroIff(x, y, p);
    Euclid(d, c, p);
    ModZeroIff(a, b, p);
  }

  // ----- Fermat's little theorem -----

  // The product of the elements of s among 1, ..., n.
  ghost function SetProduct(s: set<int>, n: nat): int {
    if n == 0 then 1 else (if n in s then n else 1) * SetProduct(s, n - 1)
  }

  lemma Swap(f: int, x: int, y: int)
    ensures f * (x * y) == x * (f * y)
  {
  }

  lemma {:induction false} SetProductInsert(s: set<int>, x: int, n: nat)
    requires x !in s && 1 <= x
    ensures SetProduct(s + {x}, n) == if x <= n then x * SetProduct(s, n) else SetProduct(s, n)
  {
    if n != 0 {
      SetProductInsert(s, x, n - 1);
      Swap(if n in s then n else 1, x, SetProduct(s, n - 1));
    }
  }

  // The residues of a, 2a, ..., ka.
  ghost function Multiples(a: int, k: nat, p: int): set<int>
    requires p > 0
  {
    if k == 0 then {} else Multiples(a, k - 1, p) + {(a * k) % p}
  }

  lemma {:induction false} MultiplesMember(a: int, k: nat, p: int, x: int)
    requires p > 0 && x in Multiples(a, k, p)
    ensures exists i :: 1 <= i <= k && x == (a * i) % p
  {
    if x != (a * k) % p {
      MultiplesMember(a, k - 1, p, x);
    }
  }

  lemma NoRepeat(a: int, i: int, k: int, p: int)
    requires Prime(p) && a % p != 0 && 0 <= i < k < p
    ensures (a * k) % p != (a * i) % p
  {
    if (a * k) % p == (a * i) % p {
      assert a * k == k * a && a * i == i * a;
      CancelFactor(k, i, a, p);
      ModSmall(i, p);
      ModSmall(k, p);
    }
  }

  // Multiplication by a nonzero residue never repeats a value ...
  lemma MultiplesFresh(a: int, k: nat, p: int)
    requires Prime(p) && a % p != 0 && 1 <= k < p
    ensures (a * k) % p !in Multiples(a, k - 1, p) && 1 <= (a * k) % p
  {
    var x := (a * k) % p;
    assert x != 0 by {
      ModSmall(0, p);
      NoRepeat(a, 0, k, p);
    }
    if x in Multiples(a, k - 1, p) {
      MultiplesMember(a, k - 1, p, x);
      var i :| 1 <= i <= k - 1 && x == (a * i) % p;
      NoRepeat(a, i, k, p);
    }
  }

  // ... so its product over 1, ..., k is a^k * k!, reduced term by term.
  lemma {:induction false} MultiplesProduct(a: int, k: nat, p: int)
    requires Prime(p) && a % p != 0 && k < p
    ensures |Multiples(a, k, p)| == k
    ensures forall x :: x in Multiples(a, k, p) ==> 1 <= x < p
    ensures SetProduct(Multiples(a, k, p), p - 1) % p == (Pow(a, k) * Factorial(k)) % p
  {
    if k == 0 {
      EmptyProduct(p - 1);
    } else {
      MultiplesProduct(a, k - 1, p);
      MultiplesFresh(a, k, p);
      var x := (a * k) % p;
      var s := Multiples(a, k - 1, p);
      SetProductInsert(s, x, p - 1);
      ModIdempotent(a * k, p);
      ModMulCong(x, a * k, SetProduct(s, p - 1), Pow(a, k - 1) * Factorial(k - 1), p);
      Regroup(a, k, Pow(a, k - 1), Factorial(k - 1));
    }
  }

  lemma Regroup(a: int, k: int, u: int, v: int)
    ensures (a * k) * (u * v) == (a * u) * (k * v)
  {
    assert (a * k) * (u * v) == a * (k * (u * v));
    assert k * (u * v) == u * (k * v);
  }

  lemma {:induction false} EmptyProduct(n: nat)
    ensures SetProduct({}, n) == 1
  {
    if n != 0 {
      EmptyProduct(n - 1);
    }
  }

  function Factorial(n: nat): int {
    if n == 0 then 1 else n * Factorial(n - 1)
  }

  ghost function Range(n: nat): (s: set<int>)
    ensures |s| == n && forall x :: x in s <==> 1 <= x <= n
  {
    if n == 0 then {} else Range(n - 1) + {n}
  }

  lemma {:induction false} RangeProduct(s: set<int>, n: nat)
    requires forall x :: 1 <= x <= n ==> x in s
    ensures SetProduct(s, n) == Factorial(n)
  {
    if n != 0 {
      RangeProduct(s, n - 1);
    }
  }

  lemma {:induction false} FactorialNonzero(k: nat, p: int)
    requires Prime(p) && k < p
    ensures Factorial(k) % p != 0
  {
    if k == 0 {
      ModSmall(1, p);
    } else {
      FactorialNonzero(k - 1, p);
      ModSmall(k, p);
      Euclid(k, Factorial(k - 1), p);
    }
  }

  lemma SubsetSameSize(s: set<int>, t: set<int>)
    requires s <= t && |s| == |t|
    ensures s == t
  {
    assert |t - s| == |t| - |s|;
  }

  lemma Fermat(a: int, p: int)
    requires Prime(p) && a % p != 0
    ensures Pow(a, p - 1) % p == 1
  {
    MultiplesProduct(a, p - 1, p);
    SubsetSameSize(Multiples(a, p - 1, p), Range(p - 1));
    RangeProduct(Range(p - 1), p - 1);
    FactorialNonzero(p - 1, p);
    CancelFactor(Pow(a, p - 1), 1, Factorial(p - 1), p);
    ModSmall(1, p);
  }

  // The power that inverts every nonzero residue, and sends zero to zero.
  function Inverse(a: int, p: int): (r: int)
    requires p >= 2
    ensures 0 <= r < p
  {
    Pow(a, p - 2) % p
  }

  lemma InverseCorrect(a: int, p: int)
    requires Prime(p) && a % p != 0
    ensures (Inverse(a, p) * a) % p == 1
  {
    Fermat(a, p);
    var e := Pow(a, p - 2);
    ModIdempotent(e, p);
    ModMulCong(e % p, e, a, a, p);
    assert e * a == Pow(a, p - 1);
  }

  lemma InverseUnique(a: int, x: int, p: int)
    requires Prime(p) && 0 <= x < p && (x * a) % p == 1
    ensures a % p != 0 && x == Inverse(a, p)
  {
    ModSmall(0, p);
    Euclid(x, a, p);
    InverseCorrect(a, p);
    CancelFactor(x, Inverse(a, p), a, p);
    ModSmall(x, p);
    ModSmall(Inverse(a, p), p);
  }
}
