/**
  Integer powers and the modular exponentiation that Python's three-argument
  `pow(b, e, m)` performs, for a non-negative exponent and a positive modulus.
  Dafny's `%` is Euclidean; for a positive divisor it agrees with Python's
  floored `%`, which is the only case used here.
 */
module ModArith {

  /** b^e over the unbounded integers. */
  function Pow(b: int, e: nat): int
  {
    if e == 0 then 1 else b * Pow(b, e - 1)
  }

  /** Euclidean division is unique: any decomposition a == q*m + r with 0 <= r < m is the one `/` and `%` give. */
  lemma ModUnique(a: int, m: int, q: int, r: int)
    requires m > 0 && a == q * m + r && 0 <= r < m
    ensures a % m == r && a / m == q
  {
    var q0, r0 := a / m, a % m;
    assert a == q0 * m + r0;
    var d := q - q0;
    assert d * m == q * m - q0 * m;
    assert d * m == r0 - r;
    if d > 0 {
      MulAtLeast(d, m);
    } else if d < 0 {
      MulAtLeast(-d, m);
    }
  }

  lemma MulAtLeast(d: int, m: int)
    requires d >= 1 && m > 0
    ensures d * m >= m
  {
  }

  /** Adding a multiple of the modulus does not change the residue. */
  lemma ModAddMultiple(k: int, m: int, y: int)
    requires m > 0
    ensures (k * m + y) % m == y % m
  {
    ModUnique(k * m + y, m, k + y / m, y % m);
  }

  /** A number minus its residue is a multiple of the modulus. */
  lemma ModSubResidue(a: int, m: int)
    requires m > 0
    ensures (a - a % m) % m == 0
  {
    ModUnique(a - a % m, m, a / m, 0);
  }

  /** Residues multiply: (a*b) mod m is determined by a mod m and b mod m. */
  lemma ModMul(a: int, b: int, m: int)
    requires m > 0
    ensures (a * b) % m == ((a % m) * (b % m)) % m
  {
    var qa, ra := a / m, a % m;
    var qb, rb := b / m, b % m;
    assert a * b == qa * m * b + ra * b;
    assert ra * b == ra * qb * m + ra * rb;
    assert a * b == (qa * b + ra * qb) * m + ra * rb;
    ModAddMultiple(qa * b + ra * qb, m, ra * rb);
  }

  /** Reducing the right factor of a product first does not change its residue. */
  lemma ModMulRight(a: int, b: int, m: int)
    requires m > 0
    ensures (a * (b % m)) % m == (a * b) % m
  {
    ModMul(a, b % m, m);
    ModMul(a, b, m);
    ModUnique(b % m, m, 0, b % m);
  }

  /** Congruent left factors give congruent products. */
  lemma ModMulCongruent(a: int, a': int, b: int, m: int)
    requires m > 0 && a % m == a' % m
    ensures (a * b) % m == (a' * b) % m
  {
    ModMul(a, b, m);
    ModMul(a', b, m);
  }

  lemma {:induction false} PowAdd(b: int, e1: nat, e2: nat)
    ensures Pow(b, e1 + e2) == Pow(b, e1) * Pow(b, e2)
  {
    if e1 > 0 {
      PowAdd(b, e1 - 1, e2);
      assert Pow(b, e1 + e2) == b * Pow(b, (e1 - 1) + e2);
    }
  }

  lemma {:induction false} PowMul(b: int, e1: nat, e2: nat)
    ensures Pow(b, e1 * e2) == Pow(Pow(b, e1), e2)
  {
    if e2 > 0 {
      PowMul(b, e1, e2 - 1);
      assert e1 * e2 == e1 + e1 * (e2 - 1);
      PowAdd(b, e1, e1 * (e2 - 1));
    }
  }

  lemma {:induction false} PowOfOne(e: nat)
    ensures Pow(1, e) == 1
  {
    if e > 0 {
      PowOfOne(e - 1);
    }
  }

  /** Reducing the base modulo m first does not change b^e mod m. */
  lemma {:induction false} PowModBase(b: int, e: nat, m: int)
    requires m > 0
    ensures Pow(b % m, e) % m == Pow(b, e) % m
  {
    if e > 0 {
      PowModBase(b, e - 1, m);
      calc {
        Pow(b % m, e) % m;
        ((b % m) * Pow(b % m, e - 1)) % m;
        { ModMulRight(b % m, Pow(b % m, e - 1), m); }
        ((b % m) * (Pow(b % m, e - 1) % m)) % m;
        ((b % m) * (Pow(b, e - 1) % m)) % m;
        { ModMul(b, Pow(b, e - 1), m); }
        (b * Pow(b, e - 1)) % m;
      }
    }
  }

  /** Every power of a unit residue is the unit residue. */
  lemma PowOfUnit(a: int, k: nat, m: int)
    requires m >= 2 && a % m == 1
    ensures Pow(a, k) % m == 1
  {
    PowModBase(a, k, m);
    PowOfOne(k);
  }

  /**
    When g^(p-1) = 1 (mod p) -- Fermat's little theorem for a prime p and a
    base p does not divide -- exponents may be reduced modulo p-1.
   */
  lemma FermatReduce(g: int, p: int, e: nat)
    requires p >= 2 && Pow(g, p - 1) % p == 1
    ensures Pow(g, e) % p == Pow(g, e % (p - 1)) % p
  {
    var n := p - 1;
    var q: nat, s: nat := e / n, e % n;
    assert e == n * q + s;
    DropFullTurns(g, p, q, s);
  }

  /** Under the same hypothesis, g^((p-1)*a + k) = g^k (mod p). */
  lemma DropFullTurns(g: int, p: int, a: nat, k: nat)
    requires p >= 2 && Pow(g, p - 1) % p == 1
    ensures Pow(g, (p - 1) * a + k) % p == Pow(g, k) % p
  {
    PowMul(g, p - 1, a);
    PowOfUnit(Pow(g, p - 1), a, p);
    PowAdd(g, (p - 1) * a, k);
    ModMulCongruent(Pow(g, (p - 1) * a), 1, Pow(g, k), p);
  }

  /** Under the same hypothesis, a common exponent offset cancels: g^(a+k) = g^(a+j) implies g^k = g^j (mod p). */
  lemma CancelPow(g: int, p: int, a: nat, k: nat, j: nat)
    requires p >= 2 && Pow(g, p - 1) % p == 1
    requires Pow(g, a + k) % p == Pow(g, a + j) % p
    ensures Pow(g, k) % p == Pow(g, j) % p
  {
    // Multiplying both sides by g^((p-1)*a - a) turns the offset a into a multiple of p-1.
    var n := (p - 1) * a;
    if a > 0 {
      MulAtLeast(p - 1, a);
    }
    ShiftPow(g, p, n - a, a + k, a + j);
    assert n - a + (a + k) == n + k;
    assert n - a + (a + j) == n + j;
    DropFullTurns(g, p, a, k);
    DropFullTurns(g, p, a, j);
  }

  /** Under the Fermat hypothesis, g^(a+c) = g^a (mod p) exactly when g^c = 1 (mod p). */
  lemma ShiftedExponent(g: int, p: int, a: nat, c: nat)
    requires p >= 2 && Pow(g, p - 1) % p == 1
    ensures Pow(g, a + c) % p == Pow(g, a) % p <==> Pow(g, c) % p == 1
  {
    assert Pow(g, 0) % p == 1;
    assert a + 0 == a;
    if Pow(g, a + c) % p == Pow(g, a) % p {
      CancelPow(g, p, a, c, 0);
    }
    if Pow(g, c) % p == 1 {
      ShiftPow(g, p, a, c, 0);
    }
  }

  /** One multiplication step: from v = g^k mod m follows g^(k+1) = v*g (mod m). */
  lemma PowStep(g: int, m: int, k: nat, v: int)
    requires m >= 1 && Pow(g, k) % m == v
    ensures Pow(g, k + 1) % m == (v * g) % m
  {
    ModUnique(v, m, 0, v);
    ModMulCongruent(v, Pow(g, k), g, m);
    assert Pow(g, k + 1) == Pow(g, k) * g;
  }

  /** Offsetting both exponents by the same amount keeps congruent powers congruent. */
  lemma ShiftPow(g: int, p: int, a: nat, k: nat, j: nat)
    requires p >= 1 && Pow(g, k) % p == Pow(g, j) % p
    ensures Pow(g, a + k) % p == Pow(g, a + j) % p
  {
    PowAdd(g, a, k);
    PowAdd(g, a, j);
    ModMulRight(Pow(g, a), Pow(g, k), p);
    ModMulRight(Pow(g, a), Pow(g, j), p);
  }

  /** The squaring step of ModPow: for even e, (b*b mod m)^(e/2) = b^e (mod m). */
  lemma SquareStep(b: int, e: nat, m: int)
    requires m >= 1 && e % 2 == 0
    ensures Pow((b * b) % m, e / 2) % m == Pow(b, e) % m
  {
    PowModBase(b * b, e / 2, m);
    assert Pow(b, 2) == b * Pow(b, 1) == b * b;
    PowMul(b, 2, e / 2);
    assert 2 * (e / 2) == e;
  }

  /**
    b^e mod m by square-and-multiply, standing for Python's `pow(b, e, m)`.
    Its result is the residue of the mathematical power, in [0, m).
   */
  function ModPow(b: int, e: nat, m: int): (r: int)
    requires m >= 1
    ensures r == Pow(b, e) % m
    ensures 0 <= r < m
    decreases e
  {
    if e == 0 then
      1 % m
    else if e % 2 == 0 then
      SquareStep(b, e, m);
      ModPow((b * b) % m, e / 2, m)
    else
      ModMulRight(b, Pow(b, e - 1), m);
      (b * ModPow(b, e - 1, m)) % m
  }
}
