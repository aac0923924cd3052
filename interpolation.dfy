/** Why `lagrange_interpolation_zero` recovers the constant term: polynomials with
    integer coefficients, division by (X − r), the fact that a polynomial of
    fewer than n coefficients with n distinct roots modulo a prime vanishes
    everywhere modulo that prime, and the Lagrange interpolating polynomial. */
module Interpolation {
  import opened NumberTheory
  import opened Utils

  // ---------------------------------------------------------------------------
  // Polynomials over the integers, constant term first

  /** Horner's rule: c[0] + z·(c[1] + z·(…)). */
  function Horner(c: seq<int>, z: int): int
  {
    if c == [] then 0 else c[0] + z * Horner(c[1..], z)
  }

  lemma {:induction false} PolyValueSplit(c: seq<nat>, x: nat)
    requires |c| >= 1
    ensures PolyValue(c, x) == c[0] + x * PolyValue(c[1..], x)
    decreases |c|
  {
    var n := |c|;
    if n == 1 {
      assert c[1..] == [];
    } else {
      var front, tail := c[..n - 1], c[1..];
      PolyValueSplit(front, x);
      assert c[..n - 1] == front;
      assert tail[..n - 2] == front[1..];
      var a, b, last := PolyValue(front[1..], x), Pow(x, n - 2), c[n - 1];
      assert PolyValue(tail, x) == a + last * b;
      assert Pow(x, n - 1) == x * b;
      calc {
        PolyValue(c, x);
        PolyValue(front, x) + last * Pow(x, n - 1);
        c[0] + x * a + last * (x * b);
        { MulDistributes(x, a, last * b); MulLeftCommute(x, last, b); }
        c[0] + x * (a + last * b);
        c[0] + x * PolyValue(tail, x);
      }
    }
  }

  /** The sum of terms c[k]·x^k and Horner's rule agree. */
  lemma {:induction false} PolyValueIsHorner(c: seq<nat>, x: nat)
    ensures PolyValue(c, x) == Horner(c, x)
    decreases |c|
  {
    if |c| > 0 {
      PolyValueSplit(c, x);
      PolyValueIsHorner(c[1..], x);
    }
  }

  function PolyAdd(a: seq<int>, b: seq<int>): (r: seq<int>)
    ensures |r| == if |a| < |b| then |b| else |a|
  {
    if a == [] then b
    else if b == [] then a
    else [a[0] + b[0]] + PolyAdd(a[1..], b[1..])
  }

  lemma {:induction false} PolyAddEval(a: seq<int>, b: seq<int>, z: int)
    ensures Horner(PolyAdd(a, b), z) == Horner(a, z) + Horner(b, z)
    decreases |a|
  {
    if a != [] && b != [] {
      PolyAddEval(a[1..], b[1..], z);
      var r := PolyAdd(a, b);
      assert r[1..] == PolyAdd(a[1..], b[1..]);
    }
  }

  function PolyScale(a: seq<int>, s: int): (r: seq<int>)
    ensures |r| == |a|
  {
    if a == [] then [] else [s * a[0]] + PolyScale(a[1..], s)
  }

  lemma {:induction false} PolyScaleEval(a: seq<int>, s: int, z: int)
    ensures Horner(PolyScale(a, s), z) == s * Horner(a, z)
    decreases |a|
  {
    if a != [] {
      PolyScaleEval(a[1..], s, z);
      var r := PolyScale(a, s);
      assert r[1..] == PolyScale(a[1..], s);
    }
  }

  /** The coefficients of (X − r)·a(X). */
  function MulLinear(a: seq<int>, r: int): (res: seq<int>)
    ensures |res| == |a| + 1
  {
    PolyAdd([0] + a, PolyScale(a, -r))
  }

  lemma MulLinearEval(a: seq<int>, r: int, z: int)
    ensures Horner(MulLinear(a, r), z) == (z - r) * Horner(a, z)
  {
    PolyAddEval([0] + a, PolyScale(a, -r), z);
    PolyScaleEval(a, -r, z);
    assert ([0] + a)[1..] == a;
  }

  /** Synthetic division of c by (X − r): the quotient. */
  function SynDiv(c: seq<int>, r: int): (h: seq<int>)
    ensures |h| == if |c| == 0 then 0 else |c| - 1
  {
    if |c| <= 1 then [] else [Horner(c[1..], r)] + SynDiv(c[1..], r)
  }

  /** c(z) = (z − r)·q(z) + c(r) for the quotient q of c by (X − r). */
  lemma {:induction false} SynDivEval(c: seq<int>, r: int, z: int)
    ensures Horner(c, z) == (z - r) * Horner(SynDiv(c, r), z) + Horner(c, r)
    decreases |c|
  {
    if |c| == 1 {
      assert c[1..] == [];
    } else if |c| > 1 {
      var t := c[1..];
      var h := SynDiv(c, r);
      SynDivEval(t, r, z);
      assert h[1..] == SynDiv(t, r);
      var q := Horner(SynDiv(t, r), z);
      assert Horner(h, z) == Horner(t, r) + z * q;
      assert Horner(t, z) == (z - r) * q + Horner(t, r);
      calc {
        (z - r) * Horner(h, z) + Horner(c, r);
        (z - r) * (Horner(t, r) + z * q) + c[0] + r * Horner(t, r);
        c[0] + z * ((z - r) * q + Horner(t, r));
        Horner(c, z);
      }
    }
  }

  // ---------------------------------------------------------------------------
  // Arithmetic modulo a prime

  /** Every number strictly between 0 and a prime p is coprime to p. */
  lemma CoprimeToPrime(a: nat, p: nat)
    requires IsPrime(p) && 0 < a < p
    ensures IsGcd(1, a, p)
  {
    var g := Egcd(a, p).0;
    EgcdIsGcd(a, p);
    PrimeDivisors(p, g);
    ModSmall(a, p);
  }

  /** Euclid's lemma: a prime dividing a product divides one of the factors. */
  lemma EuclidLemma(a: int, b: int, p: nat)
    requires IsPrime(p) && (a * b) % p == 0
    ensures a % p == 0 || b % p == 0
  {
    if a % p != 0 {
      var ra := a % p;
      CoprimeToPrime(ra, p);
      var inv := ModInv(ra, p).value;
      ModIdempotent(a, p);
      MulCongruent(a, ra, inv, inv, p);
      CancelInverse(a, b, inv, p);
    }
  }

  /** A factor with an inverse modulo p can be cancelled from a product that
      vanishes modulo p. */
  lemma CancelInverse(a: int, b: int, inv: int, p: nat)
    requires p > 0 && (a * inv) % p == 1 % p && (a * b) % p == 0
    ensures b % p == 0
  {
    MulCongruent(b, b, 1, a * inv, p);
    assert b * (a * inv) == (a * b) * inv by {
      MulLeftCommute(b, a, inv);
      MulAssociates(a, b, inv);
    }
    MulByMultiple(a * b, inv, p);
  }

  /** Pairwise distinct modulo p. */
  ghost predicate DistinctModulo(xs: seq<int>, p: nat)
    requires p > 0
  {
    forall i, j :: 0 <= i < j < |xs| ==> xs[i] % p != xs[j] % p
  }

  /** A polynomial with at most n coefficients that vanishes modulo a prime p at
      n points distinct modulo p vanishes modulo p everywhere. */
  lemma {:induction false} VanishesEverywhere(c: seq<int>, roots: seq<int>, p: nat, z: int)
    requires IsPrime(p) && DistinctModulo(roots, p)
    requires |c| <= |roots|
    requires forall k :: 0 <= k < |roots| ==> Horner(c, roots[k]) % p == 0
    ensures Horner(c, z) % p == 0
    decreases |roots|
  {
    if |c| > 0 {
      var n := |roots|;
      var r := roots[n - 1];
      var h := SynDiv(c, r);
      var rest := roots[..n - 1];
      forall k | 0 <= k < |rest| ensures Horner(h, rest[k]) % p == 0 {
        var x := rest[k];
        assert x == roots[k];
        SynDivEval(c, r, x);
        CongruentIffDifference(Horner(c, x), Horner(c, r), p);
        assert ((x - r) * Horner(h, x)) % p == 0;
        CongruentIffDifference(x, r, p);
        EuclidLemma(x - r, Horner(h, x), p);
      }
      VanishesEverywhere(h, rest, p, z);
      SynDivEval(c, r, z);
      MulCongruent(z - r, z - r, Horner(h, z), 0, p);
      AddCongruent((z - r) * Horner(h, z), 0, Horner(c, r), 0, p);
    }
  }

  // ---------------------------------------------------------------------------
  // The Lagrange basis and the interpolating polynomial

  /** The coefficients of Π_{j<k, j≠i} (X − x_j). */
  function BasisPoly(points: seq<(nat, nat)>, i: nat, k: nat): (b: seq<int>)
    requires k <= |points|
    ensures |b| == if i < k then k else k + 1
  {
    if k == 0 then [1]
    else if k - 1 == i then BasisPoly(points, i, k - 1)
    else MulLinear(BasisPoly(points, i, k - 1), points[k - 1].0)
  }

  lemma {:induction false} BasisPolyEval(points: seq<(nat, nat)>, i: nat, k: nat, z: int)
    requires k <= |points|
    ensures Horner(BasisPoly(points, i, k), z) == BasisProduct(points, i, z, k)
    decreases k
  {
    if k == 0 {
      assert Horner([], z) == 0;
      assert Horner([1], z) == 1 + z * 0;
    } else {
      BasisPolyEval(points, i, k - 1, z);
      if k - 1 != i {
        BasisPolyStep(points, i, k, z);
        assert BasisProduct(points, i, z, k) == BasisProduct(points, i, z, k - 1) * (z - points[k - 1].0);
      } else {
        assert BasisPoly(points, i, k) == BasisPoly(points, i, k - 1);
        assert BasisProduct(points, i, z, k) == BasisProduct(points, i, z, k - 1);
      }
    }
  }

  lemma BasisPolyStep(points: seq<(nat, nat)>, i: nat, k: nat, z: int)
    requires 0 < k <= |points| && k - 1 != i
    ensures Horner(BasisPoly(points, i, k), z) == Horner(BasisPoly(points, i, k - 1), z) * (z - points[k - 1].0)
  {
    var prev := BasisPoly(points, i, k - 1);
    var r: int := points[k - 1].0;
    assert BasisPoly(points, i, k) == MulLinear(prev, r);
    MulLinearEval(prev, r, z);
  }

  /** The i-th basis product vanishes at every other node. */
  lemma {:induction false} BasisVanishesAtOtherNodes(points: seq<(nat, nat)>, i: nat, t: nat, k: nat)
    requires t < k <= |points| && t != i
    ensures BasisProduct(points, i, points[t].0, k) == 0
    decreases k
  {
    if t < k - 1 {
      BasisVanishesAtOtherNodes(points, i, t, k - 1);
    }
  }

  /** The i-th basis product at x_i is non-zero modulo a prime when the nodes are
      distinct modulo it. */
  lemma {:induction false} BasisNonzeroAtOwnNode(points: seq<(nat, nat)>, i: nat, p: nat, k: nat)
    requires IsPrime(p) && i < |points| && k <= |points|
    requires forall a, b :: 0 <= a < b < |points| ==> points[a].0 % p != points[b].0 % p
    ensures BasisProduct(points, i, points[i].0, k) % p != 0
    decreases k
  {
    if k == 0 {
      ModSmall(1, p);
    } else {
      BasisNonzeroAtOwnNode(points, i, p, k - 1);
      if k - 1 != i {
        var prev := BasisProduct(points, i, points[i].0, k - 1);
        var factor := points[i].0 as int - points[k - 1].0;
        CongruentIffDifference(points[i].0, points[k - 1].0, p);
        if (prev * factor) % p == 0 {
          EuclidLemma(prev, factor, p);
        }
      }
    }
  }

  /** y_i·(denominator_i)⁻¹, the weight of the i-th basis polynomial. */
  ghost function Weight(points: seq<(nat, nat)>, m: nat, i: nat): int
    requires m > 0 && i < |points|
  {
    var inv := ModInv(Denominator(points, i) % m, m);
    if inv.Some? then points[i].1 * inv.value else 0
  }

  /** Σ_{i<k} Weight_i·BasisPoly_i: the interpolating polynomial of the first k
      weighted basis polynomials. */
  ghost function InterpPoly(points: seq<(nat, nat)>, m: nat, k: nat): (r: seq<int>)
    requires m > 0 && k <= |points|
    ensures |r| <= |points|
  {
    if k == 0 then []
    else PolyAdd(InterpPoly(points, m, k - 1), PolyScale(BasisPoly(points, k - 1, |points|), Weight(points, m, k - 1)))
  }

  /** Σ_{i<k} Weight_i·Π_{j≠i}(z − x_j): the interpolating polynomial at z,
      term by term. */
  ghost function InterpSum(points: seq<(nat, nat)>, m: nat, k: nat, z: int): int
    requires m > 0 && k <= |points|
  {
    if k == 0 then 0
    else InterpSum(points, m, k - 1, z) + Weight(points, m, k - 1) * BasisProduct(points, k - 1, z, |points|)
  }

  lemma {:induction false} InterpPolyEval(points: seq<(nat, nat)>, m: nat, k: nat, z: int)
    requires m > 0 && k <= |points|
    ensures Horner(InterpPoly(points, m, k), z) == InterpSum(points, m, k, z)
    decreases k
  {
    if k == 0 {
      assert Horner([], z) == 0;
    } else {
      InterpPolyEval(points, m, k - 1, z);
      InterpPolyStep(points, m, k, z);
    }
  }

  lemma InterpPolyStep(points: seq<(nat, nat)>, m: nat, k: nat, z: int)
    requires m > 0 && 0 < k <= |points|
    ensures Horner(InterpPoly(points, m, k), z)
         == Horner(InterpPoly(points, m, k - 1), z) + Weight(points, m, k - 1) * BasisProduct(points, k - 1, z, |points|)
  {
    var b := BasisPoly(points, k - 1, |points|);
    var w := Weight(points, m, k - 1);
    PolyAddEval(InterpPoly(points, m, k - 1), PolyScale(b, w), z);
    PolyScaleEval(b, w, z);
    BasisPolyEval(points, k - 1, |points|, z);
  }

  /** While every denominator is invertible, the loop's running sum is the
      interpolating polynomial at zero, reduced modulo m. */
  lemma {:induction false} LagrangeIsInterpAtZero(points: seq<(nat, nat)>, m: nat, k: nat)
    requires m > 0 && k <= |points|
    requires forall i :: 0 <= i < k ==> ModInv(Denominator(points, i) % m, m).Some?
    ensures LagrangeUpTo(points, m, k) == Some(InterpSum(points, m, k, 0) % m)
    decreases k
  {
    if k == 0 {
      assert InterpSum(points, m, 0, 0) % m == 0;
    } else {
      LagrangeIsInterpAtZero(points, m, k - 1);
      var inv: int := ModInv(Denominator(points, k - 1) % m, m).value;
      var y: int, num := points[k - 1].1, Numerator(points, k - 1);
      var h := InterpSum(points, m, k - 1, 0);
      var w := Weight(points, m, k - 1);
      assert w == y * inv;
      assert InterpSum(points, m, k, 0) == h + w * num;
      LagrangeUpToStep(points, m, k, h % m);
      SumStep(h, y, num, inv, m);
      assert LagrangeUpTo(points, m, k) == Some((h + w * num) % m);
    }
  }

  /** One more point adds y·numerator·inverse to the running sum. */
  lemma LagrangeUpToStep(points: seq<(nat, nat)>, m: nat, k: nat, s: nat)
    requires m > 0 && 0 < k <= |points|
    requires LagrangeUpTo(points, m, k - 1) == Some(s)
    requires ModInv(Denominator(points, k - 1) % m, m).Some?
    ensures LagrangeUpTo(points, m, k) == Some((s + (points[k - 1].1 * Numerator(points, k - 1)
      * ModInv(Denominator(points, k - 1) % m, m).value) % m) % m)
  {
  }

  lemma SumStep(h: int, y: int, num: int, inv: int, m: nat)
    requires m > 0
    ensures (h % m + (y * num * inv) % m) % m == (h + (y * inv) * num) % m
  {
    MulRightCommute(y, inv, num);
    AddMod(h, y * num * inv, m);
  }

  /** At a node only that node's basis term survives. */
  lemma {:induction false} InterpAtNode(points: seq<(nat, nat)>, m: nat, k: nat, t: nat)
    requires m > 0 && k <= |points| && t < |points|
    ensures InterpSum(points, m, k, points[t].0)
         == if t < k then Weight(points, m, t) * Denominator(points, t) else 0
    decreases k
  {
    if k > 0 {
      InterpAtNode(points, m, k - 1, t);
      var w := Weight(points, m, k - 1);
      if k - 1 != t {
        BasisVanishesAtOtherNodes(points, k - 1, t, |points|);
        assert w * BasisProduct(points, k - 1, points[t].0, |points|) == w * 0 == 0;
      } else {
        assert BasisProduct(points, k - 1, points[t].0, |points|) == Denominator(points, t);
      }
    }
  }

  /** Lagrange interpolation at zero over a prime modulus recovers f(0) mod p
      from points on any polynomial f with at most as many coefficients as
      there are points, provided the x-coordinates are distinct modulo p. */
  lemma LagrangeRecoversConstantTerm(points: seq<(nat, nat)>, p: nat, c: seq<nat>)
    requires IsPrime(p)
    requires |c| <= |points|
    requires forall a, b :: 0 <= a < b < |points| ==> points[a].0 % p != points[b].0 % p
    requires forall t :: 0 <= t < |points| ==> points[t].1 % p == PolyValue(c, points[t].0) % p
    ensures LagrangeZero(points, p) == Some(PolyValue(c, 0) % p)
  {
    if points != [] {
      DenominatorsInvertible(points, p);
      LagrangeIsInterpAtZero(points, p, |points|);
      InterpPolyEval(points, p, |points|, 0);
      InterpAgreesAtZero(points, p, c);
    } else {
      assert c == [];
      assert PolyValue(c, 0) % p == 0;
    }
  }

  /** With nodes distinct modulo a prime, every denominator is invertible. */
  lemma DenominatorsInvertible(points: seq<(nat, nat)>, p: nat)
    requires IsPrime(p)
    requires forall a, b :: 0 <= a < b < |points| ==> points[a].0 % p != points[b].0 % p
    ensures forall i :: 0 <= i < |points| ==> ModInv(Denominator(points, i) % p, p).Some?
  {
    forall i | 0 <= i < |points| ensures ModInv(Denominator(points, i) % p, p).Some? {
      BasisNonzeroAtOwnNode(points, i, p, |points|);
      CoprimeToPrime(Denominator(points, i) % p, p);
    }
  }

  /** The interpolating polynomial and f agree at zero modulo p. */
  lemma InterpAgreesAtZero(points: seq<(nat, nat)>, p: nat, c: seq<nat>)
    requires IsPrime(p)
    requires |c| <= |points|
    requires forall a, b :: 0 <= a < b < |points| ==> points[a].0 % p != points[b].0 % p
    requires forall t :: 0 <= t < |points| ==> points[t].1 % p == PolyValue(c, points[t].0) % p
    requires forall i :: 0 <= i < |points| ==> ModInv(Denominator(points, i) % p, p).Some?
    ensures Horner(InterpPoly(points, p, |points|), 0) % p == PolyValue(c, 0) % p
  {
    var n := |points|;
    var poly := InterpPoly(points, p, n);
    var diff := PolyAdd(poly, PolyScale(c, -1));
    var roots := seq(n, t requires 0 <= t < n => points[t].0 as int);
    forall t | 0 <= t < n ensures Horner(diff, roots[t]) % p == 0 {
      NodeResidual(points, p, c, t);
    }
    assert DistinctModulo(roots, p);
    VanishesEverywhere(diff, roots, p, 0);
    AgreeAtZero(poly, c, p);
  }

  /** If poly − c vanishes modulo p at zero, poly and c agree there modulo p. */
  lemma AgreeAtZero(poly: seq<int>, c: seq<nat>, p: nat)
    requires p > 0 && Horner(PolyAdd(poly, PolyScale(c, -1)), 0) % p == 0
    ensures Horner(poly, 0) % p == PolyValue(c, 0) % p
  {
    PolyAddEval(poly, PolyScale(c, -1), 0);
    PolyScaleEval(c, -1, 0);
    CongruentIffDifference(Horner(poly, 0), Horner(c, 0), p);
    PolyValueIsHorner(c, 0);
  }

  /** Interpolating polynomial minus f vanishes modulo p at every node. */
  lemma NodeResidual(points: seq<(nat, nat)>, p: nat, c: seq<nat>, t: nat)
    requires IsPrime(p) && t < |points|
    requires ModInv(Denominator(points, t) % p, p).Some?
    requires points[t].1 % p == PolyValue(c, points[t].0) % p
    ensures Horner(PolyAdd(InterpPoly(points, p, |points|), PolyScale(c, -1)), points[t].0) % p == 0
  {
    var x := points[t].0;
    var poly := InterpPoly(points, p, |points|);
    InterpAtNodeIsValue(points, p, t);
    InterpPolyEval(points, p, |points|, x);
    PolyAddEval(poly, PolyScale(c, -1), x);
    PolyScaleEval(c, -1, x);
    PolyValueIsHorner(c, x);
    CongruentIffDifference(Horner(poly, x), Horner(c, x), p);
  }

  /** The interpolating sum takes the value y_t at node x_t, modulo m. */
  lemma InterpAtNodeIsValue(points: seq<(nat, nat)>, m: nat, t: nat)
    requires m > 0 && t < |points|
    requires ModInv(Denominator(points, t) % m, m).Some?
    ensures InterpSum(points, m, |points|, points[t].0) % m == points[t].1 % m
  {
    var y: int := points[t].1;
    var den := Denominator(points, t);
    var inv: int := ModInv(den % m, m).value;
    InterpAtNode(points, m, |points|, t);
    assert Weight(points, m, t) == y * inv;
    MulAssociates(y, inv, den);
    // inv·den ≡ inv·(den mod m) ≡ 1
    ModIdempotent(den, m);
    MulCongruent(inv, inv, den, den % m, m);
    assert ((den % m) * inv) % m == 1 % m;
    MulCongruent(y, y, inv * den, 1, m);
  }
}
