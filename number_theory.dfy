/** Integer arithmetic the scheme rests on: powers, divisibility, greatest common
    divisors, primality, and the laws of reduction modulo m. */
module NumberTheory {

  function Abs(n: int): nat { if n < 0 then -n else n }

  /** b raised to the e-th power, over the integers. */
  function Pow(b: int, e: nat): (r: int)
    ensures b >= 0 ==> r >= 0
    ensures b >= 1 ==> r >= 1
    decreases e
  {
    if e == 0 then 1 else b * Pow(b, e - 1)
  }

  /** d divides n; for d == 0 this means n == 0. */
  predicate Divides(d: nat, n: int) {
    if d == 0 then n == 0 else n % d == 0
  }

  /** g is the (non-negative) greatest common divisor of a and b: a common divisor
      that every common divisor divides. */
  ghost predicate IsGcd(g: int, a: int, b: int) {
    g >= 0 && Divides(g, a) && Divides(g, b) &&
    forall d: nat :: Divides(d, a) && Divides(d, b) ==> Divides(d, g)
  }

  ghost predicate IsPrime(p: nat) {
    p >= 2 && forall d :: 2 <= d < p ==> p % d != 0
  }

  /** Number of binary digits of n (num_bigint's `bits()`): 0 for 0. */
  function BitLength(n: nat): (r: nat)
    ensures n < Pow(2, r)
    ensures n > 0 ==> r >= 1 && Pow(2, r - 1) <= n
  {
    if n == 0 then 0 else 1 + BitLength(n / 2)
  }

  // ---------------------------------------------------------------------------
  // Ring laws the solver does not always find on its own

  lemma MulLeftCommute(x: int, y: int, z: int)
    ensures x * (y * z) == y * (x * z)
  {
  }

  lemma MulRightCommute(x: int, y: int, z: int)
    ensures (x * y) * z == (x * z) * y
  {
  }

  lemma MulAssociates(x: int, y: int, z: int)
    ensures (x * y) * z == x * (y * z)
  {
  }

  lemma MulDistributes(x: int, y: int, z: int)
    ensures x * (y + z) == x * y + x * z
  {
  }

  // ---------------------------------------------------------------------------
  // Division and remainder

  lemma MulAtLeast(m: int, k: int)
    requires m > 0 && k >= 1
    ensures m * k >= m
  {
    assert m * k == m * (k - 1) + m;
    if k > 1 {
      MulAtLeast(m, k - 1);
    }
  }

  /** Quotient and remainder are determined by the division equation. */
  lemma DivModUnique(x: int, m: int, q: int, r: int)
    requires m > 0 && 0 <= r < m && x == m * q + r
    ensures x % m == r && x / m == q
  {
    var q', r' := x / m, x % m;
    assert x == m * q' + r';
    assert m * (q - q') == r' - r;
    if q > q' {
      MulAtLeast(m, q - q');
    } else if q < q' {
      MulAtLeast(m, q' - q);
    }
  }

  lemma ModAddMultiple(x: int, k: int, m: int)
    requires m > 0
    ensures (x + m * k) % m == x % m
  {
    assert x + m * k == m * (x / m + k) + x % m;
    DivModUnique(x + m * k, m, x / m + k, x % m);
  }

  lemma ModIdempotent(x: int, m: int)
    requires m > 0
    ensures (x % m) % m == x % m
  {
    DivModUnique(x % m, m, 0, x % m);
  }

  lemma ModSmall(x: int, m: int)
    requires m > 0 && 0 <= x < m
    ensures x % m == x
  {
    DivModUnique(x, m, 0, x);
  }

  lemma AddMod(a: int, b: int, m: int)
    requires m > 0
    ensures (a + b) % m == (a % m + b % m) % m
  {
    assert a + b == (a % m + b % m) + m * (a / m + b / m);
    ModAddMultiple(a % m + b % m, a / m + b / m, m);
  }

  lemma SubMod(a: int, b: int, m: int)
    requires m > 0
    ensures (a - b) % m == (a % m - b % m) % m
  {
    assert a - b == (a % m - b % m) + m * (a / m - b / m);
    ModAddMultiple(a % m - b % m, a / m - b / m, m);
  }

  lemma MulMod(a: int, b: int, m: int)
    requires m > 0
    ensures (a * b) % m == ((a % m) * (b % m)) % m
  {
    var qa, ra := a / m, a % m;
    var qb, rb := b / m, b % m;
    calc {
      a * b;
      (m * qa + ra) * (m * qb + rb);
      ra * rb + m * (qa * (m * qb + rb) + ra * qb);
    }
    ModAddMultiple(ra * rb, qa * (m * qb + rb) + ra * qb, m);
  }

  /** Products respect congruence modulo m. */
  lemma MulCongruent(a: int, a': int, b: int, b': int, m: int)
    requires m > 0 && a % m == a' % m && b % m == b' % m
    ensures (a * b) % m == (a' * b') % m
  {
    MulMod(a, b, m);
    MulMod(a', b', m);
  }

  /** A multiple of m times anything is a multiple of m. */
  lemma MulByMultiple(u: int, v: int, m: int)
    requires m > 0 && u % m == 0
    ensures (u * v) % m == 0
  {
    MulMod(u, v, m);
    assert (u % m) * (v % m) == 0;
  }

  /** Sums respect congruence modulo m. */
  lemma AddCongruent(a: int, a': int, b: int, b': int, m: int)
    requires m > 0 && a % m == a' % m && b % m == b' % m
    ensures (a + b) % m == (a' + b') % m
  {
    AddMod(a, b, m);
    AddMod(a', b', m);
  }

  /** Congruent values differ by a multiple of m, and conversely. */
  lemma CongruentIffDifference(a: int, b: int, m: int)
    requires m > 0
    ensures a % m == b % m <==> (a - b) % m == 0
  {
    SubMod(a, b, m);
    var ra, rb := a % m, b % m;
    if ra - rb < 0 {
      DivModUnique(ra - rb, m, -1, ra - rb + m);
    } else {
      DivModUnique(ra - rb, m, 0, ra - rb);
    }
  }

  // ---------------------------------------------------------------------------
  // Divisibility and gcd

  /** Whatever divides u and v divides every integer combination of them. */
  lemma DividesCombination(d: nat, u: int, v: int, s: int, t: int)
    requires Divides(d, u) && Divides(d, v)
    ensures Divides(d, u * s + v * t)
  {
    if d > 0 {
      MulMod(u, s, d);
      MulMod(v, t, d);
      AddMod(u * s, v * t, d);
      assert (0 * (s % d)) % d == 0;
    }
  }

  /** A divisor of the modulus divides a value iff it divides its remainder. */
  lemma DividesRemainder(d: nat, a: int, m: int)
    requires m > 0 && Divides(d, m)
    ensures Divides(d, a) <==> Divides(d, a % m)
  {
    assert a == m * (a / m) + a % m;
    if Divides(d, a) {
      DividesCombination(d, a, m, 1, -(a / m));
      assert a * 1 + m * -(a / m) == a % m;
    }
    if Divides(d, a % m) {
      DividesCombination(d, m, a % m, a / m, 1);
    }
  }

  lemma DividesLe(d: nat, n: int)
    requires d > 0 && n > 0 && Divides(d, n)
    ensures d <= n
  {
    assert n == d * (n / d);
    if n / d >= 1 {
      MulAtLeast(d, n / d);
    }
  }

  /** Two non-negative numbers that divide each other are equal. */
  lemma MutualDivisors(g1: nat, g2: nat)
    requires Divides(g1, g2) && Divides(g2, g1)
    ensures g1 == g2
  {
    if g1 > 0 && g2 > 0 {
      DividesLe(g1, g2);
      DividesLe(g2, g1);
    }
  }

  /** The greatest common divisor is unique. */
  lemma GcdUnique(g1: int, g2: int, a: int, b: int)
    requires IsGcd(g1, a, b) && IsGcd(g2, a, b)
    ensures g1 == g2
  {
    assert Divides(g1, g2);
    assert Divides(g2, g1);
    MutualDivisors(g1, g2);
  }

  /** The only non-negative divisors of a prime are 1 and itself. */
  lemma PrimeDivisors(p: nat, g: nat)
    requires IsPrime(p) && Divides(g, p)
    ensures g == 1 || g == p
  {
    DividesLe(g, p);
  }

  // ---------------------------------------------------------------------------
  // Exponent laws

  lemma {:induction false} PowAdd(b: int, e1: nat, e2: nat)
    ensures Pow(b, e1 + e2) == Pow(b, e1) * Pow(b, e2)
    decreases e1
  {
    if e1 > 0 {
      PowAdd(b, e1 - 1, e2);
      assert Pow(b, e1 + e2) == b * Pow(b, e1 - 1 + e2);
      MulAssociates(b, Pow(b, e1 - 1), Pow(b, e2));
    }
  }

  lemma {:induction false} PowMul(b: int, e1: nat, e2: nat)
    ensures Pow(b, e1 * e2) == Pow(Pow(b, e1), e2)
    decreases e2
  {
    if e2 > 0 {
      var lo: nat := e1 * (e2 - 1);
      var n: nat := e1 * e2;
      assert n == lo + e1 by { MulDistributes(e1, e2 - 1, 1); }
      calc {
        Pow(b, n);
        Pow(b, lo + e1);
        { PowAdd(b, lo, e1); }
        Pow(b, lo) * Pow(b, e1);
        { PowMul(b, e1, e2 - 1); }
        Pow(Pow(b, e1), e2 - 1) * Pow(b, e1);
        Pow(Pow(b, e1), e2);
      }
    }
  }

  /** Reducing the base modulo m does not change the power modulo m. */
  lemma {:induction false} PowMod(b: int, e: nat, m: int)
    requires m > 0
    ensures Pow(b, e) % m == Pow(b % m, e) % m
    decreases e
  {
    if e > 0 {
      PowMod(b, e - 1, m);
      ModIdempotent(b, m);
      MulCongruent(b, b % m, Pow(b, e - 1), Pow(b % m, e - 1), m);
    }
  }

  lemma {:induction false} PowOne(e: nat)
    ensures Pow(1, e) == 1
    decreases e
  {
    if e > 0 {
      PowOne(e - 1);
    }
  }

  /** If b^n ≡ 1 (mod m), exponents of b act modulo n. */
  lemma PowReduceExponent(b: int, e: nat, n: nat, m: int)
    requires m > 0 && n > 0 && Pow(b, n) % m == 1 % m
    ensures Pow(b, e) % m == Pow(b, e % n) % m
  {
    var k: nat, r: nat := e / n, e % n;
    var nk: nat := e - r;
    assert nk == n * k;
    PowAdd(b, nk, r);
    PowMul(b, n, k);
    PowMod(Pow(b, n), k, m);
    PowMod(1, k, m);
    PowOne(k);
    assert Pow(Pow(b, n), k) % m == 1 % m;
    MulCongruent(Pow(Pow(b, n), k), 1, Pow(b, r), Pow(b, r), m);
  }
}
