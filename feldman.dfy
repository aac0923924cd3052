/** Feldman verifiable secret sharing (src/feldman_verifiability/mod.rs): the
    dealer splits a secret into shares of a random polynomial and publishes
    commitments g^{c_k} mod q to its coefficients; anyone can check a share
    against the commitments; enough shares give the secret back by Lagrange
    interpolation. */
module FeldmanVerifiability {
  import opened NumberTheory
  import opened Utils
  import Interpolation

  /** The public parameters: a generator g and a prime modulus q.
      `FeldmanVSSParams::new` is the datatype constructor. */
  datatype FeldmanVssParams = FeldmanVssParams(g: nat, q: nat)

  /** The values of `rand::random::<u64>()`. */
  type U64 = x: int | 0 <= x < 0x1_0000_0000_0000_0000

  /** Share indices are drawn as `random % IndexRange + 1`. */
  const IndexRange: nat := 100000

  /** Every point lies on the polynomial c, its value reduced modulo q. */
  ghost predicate OnPolynomial(points: seq<(nat, nat)>, c: seq<nat>, q: nat)
    requires q > 0
  {
    forall k :: 0 <= k < |points| ==> points[k].1 == PolyValue(c, points[k].0) % q
  }

  // ---------------------------------------------------------------------------
  // Dealing

  /** `generate_commitments`: g^{c_k} mod q for every coefficient, in order. */
  function GenerateCommitments(params: FeldmanVssParams, polynomial: Polynomial): (commitments: seq<nat>)
    requires params.q > 0
    ensures |commitments| == |polynomial.coefficients|
    ensures forall k :: 0 <= k < |commitments| ==>
      commitments[k] == Pow(params.g, polynomial.coefficients[k]) % params.q
  {
    seq(|polynomial.coefficients|, k requires 0 <= k < |polynomial.coefficients| =>
      ModExp(params.g, polynomial.coefficients[k], params.q))
  }

  /** `generate_shares`. The polynomial is built with `threshold - 1` as its
      threshold, so it has max(1, threshold − 1) coefficients: the secret and
      the random `coefficientDraws`. Share i has index `indexDraws[i] % 100000 + 1`
      and value f(index) mod q. */
  method GenerateShares(params: FeldmanVssParams, secret: nat, threshold: nat, numShares: nat,
                        coefficientDraws: seq<nat>, indexDraws: seq<U64>)
    returns (shares: seq<(nat, nat)>, commitments: seq<nat>)
    requires params.q > 0
    requires threshold >= 1
    requires |coefficientDraws| == if threshold <= 2 then 0 else threshold - 2
    requires forall k :: 0 <= k < |coefficientDraws| ==>
      1 <= coefficientDraws[k] < Pow(2, BitLength(secret))
    requires |indexDraws| == numShares
    ensures |shares| == numShares
    ensures forall k :: 0 <= k < numShares ==>
      shares[k].0 == indexDraws[k] % IndexRange + 1 && 1 <= shares[k].0 <= IndexRange
    ensures OnPolynomial(shares, [secret] + coefficientDraws, params.q)
    ensures forall k :: 0 <= k < numShares ==> shares[k].1 < params.q
    ensures |commitments| == if threshold == 1 then 1 else threshold - 1
    ensures commitments == GenerateCommitments(params, Polynomial([secret] + coefficientDraws))
  {
    var poly := NewForShamir(threshold - 1, BitLength(secret), secret, coefficientDraws);
    shares := [];
    for i := 1 to numShares + 1
      invariant |shares| == i - 1
      invariant forall k :: 0 <= k < i - 1 ==>
        shares[k].0 == indexDraws[k] % IndexRange + 1 &&
        shares[k].1 == PolyValue(poly.coefficients, shares[k].0) % params.q
    {
      var x := indexDraws[i - 1] % IndexRange + 1;
      var fx := Evaluate(poly, x);
      var y := fx % params.q;
      shares := shares + [(x, y)];
    }
    commitments := GenerateCommitments(params, poly);
  }

  // ---------------------------------------------------------------------------
  // Verification

  /** Π_{j<k} C_j^(i^j mod e) over the integers: the commitments raised to the
      powers of the share index, each exponent reduced modulo e. */
  ghost function CommitmentProduct(i: nat, commitments: seq<nat>, e: nat, k: nat): nat
    requires e > 0 && k <= |commitments|
  {
    if k == 0 then 1
    else CommitmentProduct(i, commitments, e, k - 1) * Pow(commitments[k - 1], Pow(i, k - 1) % e)
  }

  /** The value `verify_share` compares g^share mod q with: the product of the
      commitments raised to i^j mod q, reduced modulo q; the running product
      starts at 1, which is what an empty commitment list leaves. */
  ghost function VerifierRhs(i: nat, commitments: seq<nat>, q: nat): nat
    requires q > 0
  {
    if commitments == [] then 1 else CommitmentProduct(i, commitments, q, |commitments|) % q
  }

  /** `verify_share`: g^share mod q against Π_j C_j^(i^j mod q) mod q. */
  method VerifyShare(i: nat, share: nat, commitments: seq<nat>, params: FeldmanVssParams)
    returns (valid: bool)
    requires params.q > 0
    ensures valid <==> Pow(params.g, share) % params.q == VerifierRhs(i, commitments, params.q)
  {
    var q := params.q;
    var lhs := ModExp(params.g, share, q);
    var rhs: nat := 1;
    for j := 0 to |commitments|
      invariant j == 0 ==> rhs == 1
      invariant j > 0 ==> rhs == CommitmentProduct(i, commitments, q, j) % q
    {
      var exponent := ModExp(i, j, q);
      var power := ModExp(commitments[j], exponent, q);
      VerifyStep(rhs, CommitmentProduct(i, commitments, q, j), Pow(commitments[j], exponent), q, j == 0);
      rhs := (rhs * power) % q;
    }
    valid := lhs == rhs;
  }

  lemma VerifyStep(rhs: nat, product: nat, power: nat, q: nat, first: bool)
    requires q > 0
    requires first ==> rhs == 1 && product == 1
    requires !first ==> rhs == product % q
    ensures (rhs * (power % q)) % q == (product * power) % q
  {
    ModIdempotent(product, q);
    ModIdempotent(power, q);
    MulCongruent(rhs, product, power % q, power, q);
  }

  /** Σ_{j<k} c_j·(x^j mod e): the exponent the commitment product carries. */
  ghost function ReducedSum(c: seq<nat>, x: nat, e: nat, k: nat): nat
    requires e > 0 && k <= |c|
  {
    if k == 0 then 0 else ReducedSum(c, x, e, k - 1) + c[k - 1] * (Pow(x, k - 1) % e)
  }

  /** By the exponent laws the commitment product is g raised to the reduced
      sum, modulo q. */
  lemma {:induction false} CommitmentProductIsPower(params: FeldmanVssParams, c: seq<nat>, x: nat, e: nat, k: nat)
    requires params.q > 0 && e > 0 && k <= |c|
    ensures CommitmentProduct(x, GenerateCommitments(params, Polynomial(c)), e, k) % params.q
         == Pow(params.g, ReducedSum(c, x, e, k)) % params.q
    decreases k
  {
    var g, q := params.g, params.q;
    var commitments := GenerateCommitments(params, Polynomial(c));
    if k == 0 {
      assert Pow(g, 0) == 1;
    } else {
      CommitmentProductIsPower(params, c, x, e, k - 1);
      var before := CommitmentProduct(x, commitments, e, k - 1);
      var exponent := Pow(x, k - 1) % e;
      assert commitments[k - 1] == Pow(g, c[k - 1]) % q;
      CommitmentStep(g, q, before, ReducedSum(c, x, e, k - 1), c[k - 1], exponent);
      assert CommitmentProduct(x, commitments, e, k) == before * Pow(commitments[k - 1], exponent);
    }
  }

  /** Multiplying in (g^c mod q)^t adds c·t to the exponent of g, modulo q. */
  lemma CommitmentStep(g: nat, q: nat, before: nat, earlier: nat, coefficient: nat, t: nat)
    requires q > 0 && before % q == Pow(g, earlier) % q
    ensures (before * Pow(Pow(g, coefficient) % q, t)) % q == Pow(g, earlier + coefficient * t) % q
  {
    PowMod(Pow(g, coefficient), t, q);
    PowMul(g, coefficient, t);
    MulCongruent(before, Pow(g, earlier), Pow(Pow(g, coefficient) % q, t), Pow(g, coefficient * t), q);
    PowAdd(g, earlier, coefficient * t);
  }

  /** With every power x^j below e, reducing the exponents changes nothing. */
  lemma {:induction false} ReducedSumExact(c: seq<nat>, x: nat, e: nat, k: nat)
    requires e > 0 && k <= |c|
    requires forall j :: 0 <= j < k ==> Pow(x, j) < e
    ensures ReducedSum(c, x, e, k) == PolyValue(c[..k], x)
    decreases k
  {
    if k > 0 {
      ReducedSumExact(c, x, e, k - 1);
      ModSmall(Pow(x, k - 1), e);
      assert c[..k][..k - 1] == c[..k - 1];
    }
  }

  /** Every power x^j with a coefficient of at least 1 is at most f(x). */
  lemma {:induction false} PowerBelowValue(c: seq<nat>, x: nat, j: nat)
    requires j < |c| && c[j] >= 1
    ensures Pow(x, j) <= PolyValue(c, x)
    decreases |c|
  {
    var n := |c|;
    if j < n - 1 {
      PowerBelowValue(c[..n - 1], x, j);
    } else {
      MulAtLeastSelf(c[n - 1], Pow(x, n - 1));
    }
  }

  lemma MulAtLeastSelf(a: nat, b: nat)
    requires a >= 1
    ensures a * b >= b
  {
    if b > 0 {
      MulAtLeast(b, a);
    }
  }

  /** Completeness of the check as written: a share (x, f(x) mod q) of a dealer's
      polynomial verifies against its commitments when f(x) < q. The random
      coefficients are at least 1, so f(x) < q also keeps every x^j below q,
      and reducing the exponents modulo q is then harmless. */
  lemma HonestShareVerifies(params: FeldmanVssParams, c: seq<nat>, x: nat)
    requires params.q > 1
    requires |c| >= 1
    requires forall k :: 1 <= k < |c| ==> c[k] >= 1
    requires PolyValue(c, x) < params.q
    ensures Pow(params.g, PolyValue(c, x) % params.q) % params.q
         == VerifierRhs(x, GenerateCommitments(params, Polynomial(c)), params.q)
  {
    var q := params.q;
    forall j | 0 <= j < |c| ensures Pow(x, j) < q {
      if j >= 1 {
        PowerBelowValue(c, x, j);
      }
    }
    ReducedSumExact(c, x, q, |c|);
    CommitmentProductIsPower(params, c, x, q, |c|);
    assert c[..|c|] == c;
    ModSmall(PolyValue(c, x), q);
  }

  /** Every share `generate_shares` hands out verifies against the commitments
      it publishes, as long as no share value wrapped around q. */
  lemma GeneratedSharesVerify(params: FeldmanVssParams, secret: nat, coefficientDraws: seq<nat>,
                              shares: seq<(nat, nat)>, commitments: seq<nat>)
    requires params.q > 1
    requires forall k :: 0 <= k < |coefficientDraws| ==> coefficientDraws[k] >= 1
    requires OnPolynomial(shares, [secret] + coefficientDraws, params.q)
    requires commitments == GenerateCommitments(params, Polynomial([secret] + coefficientDraws))
    requires forall k :: 0 <= k < |shares| ==> PolyValue([secret] + coefficientDraws, shares[k].0) < params.q
    ensures forall k :: 0 <= k < |shares| ==>
      Pow(params.g, shares[k].1) % params.q == VerifierRhs(shares[k].0, commitments, params.q)
  {
    var c := [secret] + coefficientDraws;
    forall k | 0 <= k < |shares|
      ensures Pow(params.g, shares[k].1) % params.q == VerifierRhs(shares[k].0, commitments, params.q)
    {
      HonestShareVerifies(params, c, shares[k].0);
    }
  }

  // ---------------------------------------------------------------------------
  // Reconstruction

  /** `reconstruct_secret`: Lagrange interpolation at zero of the given shares. */
  method ReconstructSecret(shares: seq<(nat, nat)>, modulus: nat) returns (secret: Option<nat>)
    requires Admissible(shares, modulus)
    ensures secret == LagrangeZero(shares, modulus)
  {
    secret := LagrangeInterpolationZero(shares, modulus);
  }

  /** Any selection of at least |c| shares with distinct indices gives the
      secret back, when q is a prime above the index range and the secret is
      below q. With c as `generate_shares` builds it, |c| is threshold − 1
      (threshold ≥ 2). */
  lemma SharesReconstructSecret(q: nat, secret: nat, c: seq<nat>,
                                shares: seq<(nat, nat)>, points: seq<(nat, nat)>)
    requires IsPrime(q) && q > IndexRange && secret < q
    requires |c| >= 1 && c[0] == secret
    requires OnPolynomial(shares, c, q)
    requires forall k :: 0 <= k < |shares| ==> 1 <= shares[k].0 <= IndexRange
    requires forall k :: 0 <= k < |points| ==> points[k] in shares
    requires forall a, b :: 0 <= a < b < |points| ==> points[a].0 != points[b].0
    requires |points| >= |c|
    ensures Admissible(points, q)
    ensures LagrangeZero(points, q) == Some(secret)
  {
    forall k | 0 <= k < |points|
      ensures points[k].0 <= IndexRange && points[k].0 % q == points[k].0
      ensures points[k].1 % q == PolyValue(c, points[k].0) % q
    {
      var s :| 0 <= s < |shares| && shares[s] == points[k];
      ModSmall(points[k].0, q);
      ModIdempotent(PolyValue(c, points[k].0), q);
    }
    Interpolation.LagrangeRecoversConstantTerm(points, q, c);
    PolyValueAtZero(c);
    ModSmall(secret, q);
  }

  // ---------------------------------------------------------------------------
  // Exponents modulo q versus modulo the order of g

  /** q = 7, g = 3, secret 5 (3 bits), threshold 3, random coefficient 2 and
      share index 1: the dealer hands out the share (1, 7 mod 7) = (1, 0), and
      the check rejects it, since g^0 = 1 but the commitment product is 3. */
  lemma HonestShareRejectedWhenValueWraps()
    ensures BitLength(5) == 3 && 1 <= 2 < Pow(2, 3)
    ensures PolyValue([5, 2], 1) % 7 == 0
    ensures Pow(3, PolyValue([5, 2], 1) % 7) % 7
         != VerifierRhs(1, GenerateCommitments(FeldmanVssParams(3, 7), Polynomial([5, 2])), 7)
  {
    var commitments := GenerateCommitments(FeldmanVssParams(3, 7), Polynomial([5, 2]));
    assert commitments[0] == Pow(3, 5) % 7 == 5;
    assert commitments[1] == Pow(3, 2) % 7 == 2;
    assert PolyValue([5, 2], 1) == PolyValue([5], 1) + 2 * Pow(1, 1) == 7 by {
      assert [5, 2][..1] == [5];
      assert [5][..0] == [];
    }
    assert CommitmentProduct(1, commitments, 7, 1) == Pow(5, 1) == 5;
    assert CommitmentProduct(1, commitments, 7, 2) == 5 * Pow(2, 1) == 10;
  }

  /** The commitment product with exponents reduced modulo n, the order of g
      modulo q, compared as `verify_share` compares it. */
  ghost function VerifierRhsModOrder(i: nat, commitments: seq<nat>, q: nat, n: nat): nat
    requires q > 0 && n > 0
  {
    if commitments == [] then 1 else CommitmentProduct(i, commitments, n, |commitments|) % q
  }

  /** Reducing the exponents modulo n keeps the sum congruent to f(x) modulo n. */
  lemma {:induction false} ReducedSumCongruent(c: seq<nat>, x: nat, n: nat, k: nat)
    requires n > 0 && k <= |c|
    ensures ReducedSum(c, x, n, k) % n == PolyValue(c[..k], x) % n
    decreases k
  {
    if k > 0 {
      ReducedSumCongruent(c, x, n, k - 1);
      assert c[..k][..k - 1] == c[..k - 1];
      ModIdempotent(Pow(x, k - 1), n);
      MulCongruent(c[k - 1], c[k - 1], Pow(x, k - 1) % n, Pow(x, k - 1), n);
      AddCongruent(ReducedSum(c, x, n, k - 1), PolyValue(c[..k - 1], x),
                   c[k - 1] * (Pow(x, k - 1) % n), c[k - 1] * Pow(x, k - 1), n);
    }
  }

  /** Completeness with share values and exponents reduced modulo the order n
      of g (g^n ≡ 1 mod q): every share (x, f(x) mod n) verifies, however large
      f(x) and x^j are. */
  lemma OrderReducedShareVerifies(params: FeldmanVssParams, n: nat, c: seq<nat>, x: nat)
    requires params.q > 0 && n > 0 && Pow(params.g, n) % params.q == 1 % params.q
    requires |c| >= 1
    ensures Pow(params.g, PolyValue(c, x) % n) % params.q
         == VerifierRhsModOrder(x, GenerateCommitments(params, Polynomial(c)), params.q, n)
  {
    var g, q := params.g, params.q;
    var sum := ReducedSum(c, x, n, |c|);
    CommitmentProductIsPower(params, c, x, n, |c|);
    ReducedSumCongruent(c, x, n, |c|);
    assert c[..|c|] == c;
    PowReduceExponent(g, sum, n, q);
    PowReduceExponent(g, PolyValue(c, x) % n, n, q);
    ModIdempotent(PolyValue(c, x), n);
  }
}
