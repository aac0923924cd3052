/** The arithmetic layer of the scheme (src/utils/mod.rs): the sharing polynomial,
    modular exponentiation, the extended Euclidean algorithm, the modular inverse
    and Lagrange interpolation at zero. */
module Utils {
  import opened NumberTheory

  datatype Option<T> = None | Some(value: T)

  /** A polynomial given by its coefficients, constant term first. */
  datatype Polynomial = Polynomial(coefficients: seq<nat>)

  // ---------------------------------------------------------------------------
  // Polynomial

  /** Σ_{k<|c|} c[k]·x^k over the integers, with no reduction. */
  ghost function PolyValue(c: seq<nat>, x: nat): nat
  {
    if |c| == 0 then 0 else PolyValue(c[..|c| - 1], x) + c[|c| - 1] * Pow(x, |c| - 1)
  }

  /** At zero every term but the constant one vanishes. */
  lemma {:induction false} PolyValueAtZero(c: seq<nat>)
    ensures PolyValue(c, 0) == if |c| == 0 then 0 else c[0]
  {
    if |c| > 1 {
      PolyValueAtZero(c[..|c| - 1]);
      assert c[..|c| - 1][0] == c[0];
    }
  }

  /** `Polynomial::new_for_shamir`: the secret followed by `threshold - 1` random
      coefficients. The random coefficients are the caller-supplied `draws`, each
      in [1, 2^secretBits) as the generator's range promises. */
  method NewForShamir(threshold: nat, secretBits: nat, secret: nat, draws: seq<nat>)
    returns (p: Polynomial)
    requires |draws| == if threshold == 0 then 0 else threshold - 1
    requires forall k :: 0 <= k < |draws| ==> 1 <= draws[k] < Pow(2, secretBits)
    ensures p.coefficients == [secret] + draws
    ensures |p.coefficients| == if threshold == 0 then 1 else threshold
    ensures p.coefficients[0] == secret
    ensures forall k :: 1 <= k < |p.coefficients| ==> 1 <= p.coefficients[k] < Pow(2, secretBits)
  {
    var coefficients := [secret];
    for i := 1 to if threshold == 0 then 1 else threshold
      invariant coefficients == [secret] + draws[..i - 1]
    {
      var coef := draws[i - 1];
      coefficients := coefficients + [coef];
    }
    assert draws[..|draws|] == draws;
    p := Polynomial(coefficients);
  }

  /** `Polynomial::evaluate`: the exact value Σ c[k]·x^k, accumulated term by term. */
  method Evaluate(p: Polynomial, x: nat) returns (result: nat)
    ensures result == PolyValue(p.coefficients, x)
  {
    result := 0;
    var xPow: nat := 1;
    for i := 0 to |p.coefficients|
      invariant result == PolyValue(p.coefficients[..i], x)
      invariant xPow == Pow(x, i)
    {
      assert p.coefficients[..i + 1][..i] == p.coefficients[..i];
      result := result + p.coefficients[i] * xPow;
      xPow := xPow * x;
    }
    assert p.coefficients[..|p.coefficients|] == p.coefficients;
  }

  // ---------------------------------------------------------------------------
  // Modular exponentiation

  /** `mod_exp` (and `BigUint::modpow`): base^exponent mod modulus by square and
      multiply, every intermediate value below the modulus. */
  function ModExp(base: nat, exponent: nat, modulus: nat): (r: nat)
    requires modulus > 0
    ensures r == Pow(base, exponent) % modulus
    decreases exponent
  {
    if exponent == 0 then 1 % modulus
    else if exponent % 2 == 0 then
      var half := ModExp(base, exponent / 2, modulus);
      PowAdd(base, exponent / 2, exponent / 2);
      MulMod(Pow(base, exponent / 2), Pow(base, exponent / 2), modulus);
      ModIdempotent(Pow(base, exponent / 2), modulus);
      (half * half) % modulus
    else
      var rest := ModExp(base, exponent - 1, modulus);
      MulMod(base, Pow(base, exponent - 1), modulus);
      ModIdempotent(Pow(base, exponent - 1), modulus);
      (base % modulus * rest) % modulus
  }

  // ---------------------------------------------------------------------------
  // Extended Euclid and the modular inverse

  /** Rust's `/` on BigInt: the quotient truncated toward zero. */
  function TDiv(b: int, a: int): int
    requires a != 0
  {
    if (b < 0) == (a < 0) then Abs(b) / Abs(a) else -(Abs(b) / Abs(a))
  }

  /** The truncated quotient has the sign of b·a and the largest magnitude
      whose multiple of |a| does not exceed |b|. */
  lemma TDivTruncates(b: int, a: int)
    requires a != 0
    ensures (b < 0) == (a < 0) ==> TDiv(b, a) >= 0
    ensures (b < 0) != (a < 0) ==> TDiv(b, a) <= 0
    ensures Abs(TDiv(b, a)) * Abs(a) <= Abs(b) < Abs(TDiv(b, a)) * Abs(a) + Abs(a)
  {
    var n, d := Abs(b), Abs(a);
    var q, rem := n / d, n % d;
    assert n == q * d + rem;
    assert Abs(TDiv(b, a)) == q;
  }

  /** Rust's `%` on BigInt: the remainder takes the sign of the dividend. */
  function TMod(b: int, a: int): (r: int)
    requires a != 0
    ensures b == a * TDiv(b, a) + r
    ensures Abs(r) < Abs(a)
    ensures b >= 0 ==> r >= 0
    ensures b <= 0 ==> r <= 0
    ensures b >= 0 && a > 0 ==> r == b % a
  {
    var q, s := Abs(b) / Abs(a), Abs(b) % Abs(a);
    assert Abs(b) == Abs(a) * q + s;
    if b < 0 then -s else s
  }

  /** `egcd`: (g, x, y) with a·x + b·y == g, by the recursive Euclidean algorithm
      with Rust's truncating division. */
  function Egcd(a: int, b: int): (r: (int, int, int))
    ensures a * r.1 + b * r.2 == r.0
    decreases Abs(a)
  {
    if a == 0 then (b, 0, 1)
    else
      var t := Egcd(TMod(b, a), a);
      var (g, x, y) := t;
      BezoutStep(a, b, TDiv(b, a), TMod(b, a), x, y, g);
      (g, y - TDiv(b, a) * x, x)
  }

  /** Back-substitution: from rem·x + a·y == g with rem == b − a·q,
      a·(y − q·x) + b·x == g. */
  lemma BezoutStep(a: int, b: int, q: int, rem: int, x: int, y: int, g: int)
    requires b == a * q + rem && rem * x + a * y == g
    ensures a * (y - q * x) + b * x == g
  {
    calc {
      a * (y - q * x) + b * x;
      { MulDistributes(a, y, -(q * x)); }
      a * y - a * (q * x) + b * x;
      { MulAssociates(a, q, x); }
      a * y - (a * q) * x + b * x;
      a * y + (b - a * q) * x;
      a * y + rem * x;
    }
  }

  /** For non-negative arguments the first component of `egcd` is their gcd. */
  lemma {:induction false} EgcdIsGcd(a: int, b: int)
    requires a >= 0 && b >= 0
    ensures IsGcd(Egcd(a, b).0, a, b)
    decreases a
  {
    var r := Egcd(a, b);
    if a == 0 {
      assert Divides(b, 0);
    } else {
      var rem := TMod(b, a);
      EgcdIsGcd(rem, a);
      var g := r.0;
      assert IsGcd(g, rem, a);
      // g divides b = a·(b / a) + (b % a)
      DividesCombination(g, a, rem, TDiv(b, a), 1);
      // every common divisor of a and b divides g = a·x + b·y
      forall d: nat | Divides(d, a) && Divides(d, b) ensures Divides(d, g) {
        DividesCombination(d, a, b, r.1, r.2);
      }
    }
  }

  /** `mod_inv`: the inverse of a modulo m in [0, m), present exactly when
      gcd(a, m) == 1. */
  function ModInv(a: nat, m: nat): (r: Option<nat>)
    requires m > 0 || a != 1
    ensures r.Some? <==> IsGcd(1, a, m)
    ensures r.Some? ==> m > 0 && r.value < m && (a * r.value) % m == 1 % m
  {
    var t := Egcd(a, m);
    var (g, x, y) := t;
    EgcdIsGcd(a, m);
    if g == 1 then
      assert m > 0 by {
        if m == 0 {
          UnitGcdWithZero(a);
        }
      }
      var xModM := TMod(TMod(x, m) + m, m);
      NormalizedInverse(a, x, y, m);
      Some(xModM)
    else
      assert !IsGcd(1, a, m) by {
        if IsGcd(1, a, m) {
          GcdUnique(g, 1, a, m);
        }
      }
      None
  }

  /** gcd(a, 0) is 1 only for a == 1. */
  lemma UnitGcdWithZero(a: nat)
    requires IsGcd(1, a, 0)
    ensures a == 1
  {
    assert Divides(a, a) && Divides(a, 0);
    if a >= 2 {
      ModSmall(1, a);
    }
  }

  /** The normalisation `((x % m) + m) % m` of a Bézout coefficient x of a
      lands in [0, m) and is an inverse of a modulo m. */
  lemma NormalizedInverse(a: int, x: int, y: int, m: nat)
    requires m > 0 && a * x + m * y == 1
    ensures 0 <= TMod(TMod(x, m) + m, m) < m
    ensures (a * TMod(TMod(x, m) + m, m)) % m == 1 % m
  {
    NormalizeResidue(x, m);
    ModIdempotent(x, m);
    assert (a * x) % m == 1 % m by {
      assert a * x == 1 + m * -y;
      ModAddMultiple(1, -y, m);
    }
    MulCongruent(a, a, x % m, x, m);
  }

  /** The normalisation `((x % m) + m) % m`, with truncating `%`, is the
      least non-negative residue of x. */
  lemma NormalizeResidue(x: int, m: nat)
    requires m > 0
    ensures TMod(TMod(x, m) + m, m) == x % m
  {
    var t := TMod(x, m);
    assert x == m * TDiv(x, m) + t;
    ModAddMultiple(t, 1, m);
    ModAddMultiple(t, TDiv(x, m), m);
  }

  /** Two inverses of a modulo m in [0, m) are the same number. */
  lemma InverseUnique(a: int, r1: nat, r2: nat, m: nat)
    requires m > 0 && r1 < m && r2 < m
    requires (a * r1) % m == 1 % m && (a * r2) % m == 1 % m
    ensures r1 == r2
  {
    calc {
      r1 % m;
      (r1 * 1) % m;
      { MulCongruent(r1, r1, 1, a * r2, m); }
      (r1 * (a * r2)) % m;
      { assert r1 * (a * r2) == (a * r1) * r2; }
      ((a * r1) * r2) % m;
      { MulCongruent(a * r1, 1, r2, r2, m); }
      (1 * r2) % m;
    }
    ModSmall(r1, m);
    ModSmall(r2, m);
  }

  /** The inverse depends only on the residue of a modulo m. */
  lemma ModInvCongruent(a: nat, m: nat)
    requires m > 0
    ensures ModInv(a, m) == ModInv(a % m, m)
  {
    forall d: nat | Divides(d, m) ensures Divides(d, a) <==> Divides(d, a % m) {
      DividesRemainder(d, a, m);
    }
    assert Divides(1, m);
    assert IsGcd(1, a, m) <==> IsGcd(1, a % m, m);
    var r1, r2 := ModInv(a, m), ModInv(a % m, m);
    if r1.Some? {
      ModIdempotent(a, m);
      MulCongruent(a % m, a, r2.value, r2.value, m);
      InverseUnique(a, r1.value, r2.value, m);
    }
  }

  // ---------------------------------------------------------------------------
  // Lagrange interpolation at zero

  /** Π_{j<k, j≠i} (z − x_j): the i-th Lagrange basis product over the first k
      points, at z. */
  ghost function BasisProduct(points: seq<(nat, nat)>, i: nat, z: int, k: nat): int
    requires k <= |points|
  {
    if k == 0 then 1
    else if k - 1 == i then BasisProduct(points, i, z, k - 1)
    else BasisProduct(points, i, z, k - 1) * (z - points[k - 1].0)
  }

  /** Π_{j≠i} (0 − x_j). */
  ghost function Numerator(points: seq<(nat, nat)>, i: nat): int {
    BasisProduct(points, i, 0, |points|)
  }

  /** Π_{j≠i} (x_i − x_j). */
  ghost function Denominator(points: seq<(nat, nat)>, i: nat): int
    requires i < |points|
  {
    BasisProduct(points, i, points[i].0, |points|)
  }

  /** Σ_{i<k} y_i·numerator_i·denominator_i⁻¹ mod m over the first k points, or
      None when some denominator among them has no inverse modulo m. */
  ghost function LagrangeUpTo(points: seq<(nat, nat)>, m: nat, k: nat): (r: Option<nat>)
    requires m > 0 && k <= |points|
    ensures r.Some? && k > 0 ==> r.value < m
    ensures r.None? <==>
      exists i :: 0 <= i < k && !IsGcd(1, Denominator(points, i) % m, m)
  {
    if k == 0 then Some(0)
    else
      var inv := ModInv(Denominator(points, k - 1) % m, m);
      match LagrangeUpTo(points, m, k - 1)
      case None => None
      case Some(s) =>
        if inv.None? then None
        else Some((s + (points[k - 1].1 * Numerator(points, k - 1) * inv.value) % m) % m)
  }

  /** Lagrange interpolation at zero: f(0) mod m for the polynomial through the
      points, or None when a denominator is not invertible modulo m. */
  ghost function LagrangeZero(points: seq<(nat, nat)>, m: nat): (r: Option<nat>)
    requires points != [] ==> m > 0
    ensures points == [] ==> r == Some(0)
    ensures points != [] && r.Some? ==> r.value < m
    ensures points != [] ==> (r.None? <==>
      exists i :: 0 <= i < |points| && !IsGcd(1, Denominator(points, i) % m, m))
  {
    if points == [] then Some(0) else LagrangeUpTo(points, m, |points|)
  }

  /** The inputs `lagrange_interpolation_zero` accepts without panicking: a
      non-zero modulus once there is a point and, once there are two, no
      BigUint subtraction `modulus - x_j` that underflows. Round 0 subtracts
      every x but x_0, so those are at most the modulus; x_0 is subtracted
      only from round 1 on, which is never reached when round 0's denominator
      has no inverse. */
  ghost predicate Admissible(points: seq<(nat, nat)>, modulus: nat) {
    (points != [] ==> modulus > 0) &&
    (|points| > 1 ==>
      (forall k :: 1 <= k < |points| ==> points[k].0 <= modulus) &&
      (points[0].0 > modulus ==> LagrangeUpTo(points, modulus, 1).None?))
  }

  /** `lagrange_interpolation_zero`: two nested loops accumulating numerator,
      denominator and secret, leaving early with None when a denominator has no
      inverse. */
  method LagrangeInterpolationZero(points: seq<(nat, nat)>, modulus: nat) returns (r: Option<nat>)
    requires Admissible(points, modulus)
    ensures r == LagrangeZero(points, modulus)
  {
    if points == [] {
      return Some(0);
    }
    var secret: nat := 0;
    for i := 0 to |points|
      invariant LagrangeUpTo(points, modulus, i) == Some(secret)
      invariant |points| > 1 && i >= 1 ==> points[0].0 <= modulus
    {
      var (xi, yi) := points[i];
      var numerator: nat := 1;
      var denominator: nat := 1;
      SubtrahendsInRange(points, modulus, i);
      for j := 0 to |points|
        invariant numerator % modulus == BasisProduct(points, i, 0, j) % modulus
        invariant denominator % modulus == BasisProduct(points, i, xi, j) % modulus
      {
        if i != j {
          var xj := points[j].0;
          var xDiff := (modulus - xj) % modulus;
          NumeratorStep(points, i, j, numerator, modulus);
          numerator := (numerator * xDiff) % modulus;
          DenominatorStep(points, i, j, denominator, modulus);
          denominator := ((denominator * (xi + modulus - xj)) % modulus) % modulus;
        }
      }
      var inv := ModInv(denominator, modulus);
      if inv.None? {
        LagrangeStaysNone(points, modulus, i, denominator);
        return None;
      }
      var term := (yi * numerator * inv.value) % modulus;
      LagrangeStep(points, modulus, i, secret, numerator, denominator);
      secret := (secret + term) % modulus;
      if i == 0 && |points| > 1 {
        FirstInRange(points, modulus);
      }
    }
    return Some(secret);
  }

  /** Round i subtracts every x_j with j ≠ i from the modulus; none of them
      exceeds it, x_0 because round 0 went through. */
  lemma SubtrahendsInRange(points: seq<(nat, nat)>, m: nat, i: nat)
    requires Admissible(points, m) && i < |points|
    requires |points| > 1 && i >= 1 ==> points[0].0 <= m
    ensures forall j :: 0 <= j < |points| && j != i ==> points[j].0 <= m
  {
  }

  /** An x_0 above the modulus is accepted when round 0 already gives up: with
      modulus 2 and nodes 3 and 1 the denominator 3 − 1 is even, so the result
      is None and `modulus - x_0` is never computed. */
  lemma RoundZeroExitAdmitsLargeFirst()
    ensures Admissible([(3, 0), (1, 0)], 2)
    ensures LagrangeZero([(3, 0), (1, 0)], 2).None?
  {
    var points: seq<(nat, nat)> := [(3, 0), (1, 0)];
    assert Denominator(points, 0) == 2 by {
      assert BasisProduct(points, 0, 3, 1) == 1;
    }
    assert !Divides(2, 1);
    assert !IsGcd(1, Denominator(points, 0) % 2, 2);
  }

  /** Once round 0 has found its inverse, x_0 is at most the modulus. */
  lemma FirstInRange(points: seq<(nat, nat)>, m: nat)
    requires Admissible(points, m) && |points| > 1
    requires LagrangeUpTo(points, m, 1).Some?
    ensures points[0].0 <= m
  {
  }

  /** One factor (0 − x_j) of the numerator, computed as (m − x_j) mod m. */
  lemma NumeratorStep(points: seq<(nat, nat)>, i: nat, j: nat, num: nat, m: nat)
    requires m > 0 && j < |points| && i != j && points[j].0 <= m
    requires num % m == BasisProduct(points, i, 0, j) % m
    ensures ((num * ((m - points[j].0) % m)) % m) % m == BasisProduct(points, i, 0, j + 1) % m
  {
    var xj := points[j].0;
    var prod := BasisProduct(points, i, 0, j);
    assert BasisProduct(points, i, 0, j + 1) == prod * (0 - xj);
    ModIdempotent(num * ((m - xj) % m), m);
    ModAddMultiple(0 - xj, 1, m);
    ModIdempotent(m - xj, m);
    MulCongruent(num, prod, (m - xj) % m, 0 - xj, m);
  }

  /** One factor (x_i − x_j) of the denominator, computed as (x_i + m − x_j) mod m. */
  lemma DenominatorStep(points: seq<(nat, nat)>, i: nat, j: nat, den: nat, m: nat)
    requires m > 0 && i < |points| && j < |points| && i != j && points[j].0 <= m
    requires den % m == BasisProduct(points, i, points[i].0, j) % m
    ensures (((den * (points[i].0 + m - points[j].0)) % m) % m) % m
         == BasisProduct(points, i, points[i].0, j + 1) % m
  {
    var xi, xj := points[i].0, points[j].0;
    var prod := BasisProduct(points, i, xi, j);
    assert BasisProduct(points, i, xi, j + 1) == prod * (xi - xj);
    ModIdempotent(den * (xi + m - xj), m);
    ModIdempotent((den * (xi + m - xj)) % m, m);
    ModAddMultiple(xi - xj, 1, m);
    MulCongruent(den, prod, xi + m - xj, xi - xj, m);
  }

  /** One round of the outer loop: with numerator and denominator congruent to
      point i's, the running sum grows by y_i·numerator·inverse. */
  lemma LagrangeStep(points: seq<(nat, nat)>, m: nat, i: nat, secret: nat, numerator: nat, denominator: nat)
    requires m > 0 && i < |points|
    requires LagrangeUpTo(points, m, i) == Some(secret)
    requires numerator % m == Numerator(points, i) % m
    requires denominator % m == Denominator(points, i) % m
    requires ModInv(denominator, m).Some?
    ensures LagrangeUpTo(points, m, i + 1)
         == Some((secret + (points[i].1 * numerator * ModInv(denominator, m).value) % m) % m)
  {
    var yi := points[i].1;
    ModInvCongruent(denominator, m);
    ModInvCongruent(Denominator(points, i) % m, m);
    ModIdempotent(Denominator(points, i), m);
    var inv := ModInv(denominator, m).value;
    assert ModInv(Denominator(points, i) % m, m) == Some(inv);
    MulCongruent(yi, yi, numerator, Numerator(points, i), m);
    MulCongruent(yi * numerator, yi * Numerator(points, i), inv, inv, m);
  }

  /** Once a denominator has failed, the result stays None. */
  lemma LagrangeStaysNone(points: seq<(nat, nat)>, m: nat, i: nat, denominator: nat)
    requires m > 0 && i < |points|
    requires denominator % m == Denominator(points, i) % m
    requires ModInv(denominator, m).None?
    ensures LagrangeZero(points, m).None?
  {
    ModInvCongruent(denominator, m);
    ModInvCongruent(Denominator(points, i) % m, m);
    ModIdempotent(Denominator(points, i), m);
    assert !IsGcd(1, Denominator(points, i) % m, m);
  }
}
