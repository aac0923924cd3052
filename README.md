# Feldman verifiable secret sharing in Dafny

This project models the core of a small Rust implementation of Feldman's
verifiable secret sharing (VSS) and proves what it promises.

A dealer hides a secret as the constant term of a random polynomial f over the
integers. Participant k receives the share (x_k, f(x_k) mod q), where x_k is a
random index in [1, 100000]. The dealer publishes a commitment g^{c_j} mod q
for every coefficient c_j. Anyone holding a share (i, y) can check
g^y ≡ Π_j C_j^(i^j mod q) (mod q). Enough shares give the secret back by
Lagrange interpolation at zero modulo q, with inverses computed by the extended
Euclidean algorithm.

The files:

- `number_theory.dfy` (module `NumberTheory`): powers, divisibility, gcd,
  primality, and the laws of reduction modulo m that the proofs rest on.
- `utils.dfy` (module `Utils`), for `src/utils/mod.rs`: the sharing polynomial
  (`new_for_shamir`, `evaluate`), `mod_exp`, `egcd` with Rust's truncating
  BigInt `/` and `%`, `mod_inv`, and `lagrange_interpolation_zero`. Each is
  proved against a specification function: `PolyValue` for the polynomial,
  `Pow(b, e) % m` for exponentiation, `IsGcd` for the gcd, and `LagrangeZero`
  for the interpolation sum.
- `interpolation.dfy` (module `Interpolation`): the correctness of Lagrange
  interpolation. Over a prime modulus, points with distinct x on any
  polynomial with at most as many coefficients as points give back f(0) mod p.
  The proof goes through polynomial arithmetic on coefficient lists, synthetic
  division, Euclid's lemma, and a root-counting argument.
- `feldman.dfy` (module `FeldmanVerifiability`), for
  `src/feldman_verifiability/mod.rs`: `FeldmanVSSParams` (its `new` is the
  datatype constructor), `generate_shares`, `generate_commitments`,
  `verify_share` and `reconstruct_secret`. It also proves completeness (honest
  shares verify) and that any selection of enough shares reconstructs the
  secret.

Randomness is supplied as parameters. `NewForShamir` and `GenerateShares`
receive the coefficient draws. `GenerateShares` also receives the `u64` index
draws. The preconditions state the ranges the generators promise.

Loops in the source are methods with loop invariants. These are
`NewForShamir`, `Evaluate`, `LagrangeInterpolationZero`, `GenerateShares` and
`VerifyShare`. Code made of expressions is a function: `ModExp`, `Egcd`,
`ModInv` and `GenerateCommitments`. No operation of the core updates an object
in place, so there are no classes.

## Model

| member | source | states |
|---|---|---|
| Utils.NewForShamir | src/utils/mod.rs:14-24 | the coefficients are the secret followed by the threshold − 1 random draws (none for threshold 0 or 1), so f(0) is the secret and every other coefficient lies in [1, 2^secretBits) |
| Utils.Evaluate | src/utils/mod.rs:27-36 | the loop's result is the exact value Σ c_k·x^k of the polynomial at x, with no modular reduction |
| Utils.PolyValueAtZero | src/utils/mod.rs:27-36 | a polynomial evaluates to its constant term at zero (0 for no coefficients), so the secret is f(0) |
| Interpolation.PolyValueIsHorner | src/utils/mod.rs:27-36 | the term-by-term sum that `evaluate` accumulates equals Horner evaluation of the same coefficient list |
| Utils.ModExp | src/utils/mod.rs:43-45 | modular exponentiation returns base^exponent mod modulus for every non-zero modulus |
| NumberTheory.BitLength | src/feldman_verifiability/mod.rs:22 | `secret.bits()`, which bounds the random coefficients: 0 for 0, otherwise the r with 2^(r−1) ≤ n < 2^r |
| Utils.TDivTruncates | src/utils/mod.rs:61 | BigInt `/` truncates toward zero: the quotient has the sign of b·a (0 allowed) and the largest magnitude q with q·abs(a) ≤ abs(b) |
| Utils.TMod | src/utils/mod.rs:60-61 | BigInt `%` truncates: b = a·(b / a) + r with abs(r) < abs(a), r takes the sign of b, and r is the Euclidean remainder when b ≥ 0 and a > 0 |
| Utils.Egcd | src/utils/mod.rs:56-63 | the triple (g, x, y) satisfies Bézout's identity a·x + b·y = g for all integer arguments |
| Utils.EgcdIsGcd | src/utils/mod.rs:56-63 | for non-negative a and b the first component is gcd(a, b): a common divisor that every common divisor divides |
| Utils.ModInv | src/utils/mod.rs:66-75 | the result is present exactly when gcd(a, m) = 1; it is then the inverse of a in [0, m); for m = 0 it is absent (and a = 1 is excluded, where the source divides by zero) |
| Utils.NormalizedInverse | src/utils/mod.rs:69 | normalising a Bézout coefficient x as ((x % m) + m) % m lands in [0, m) and is an inverse of a modulo m |
| Utils.NormalizeResidue | src/utils/mod.rs:69 | the truncating normalisation ((x % m) + m) % m equals the least non-negative residue of x |
| Utils.InverseUnique | src/utils/mod.rs:66-75 | two inverses of a modulo m in [0, m) coincide, so the result of `mod_inv` is the inverse |
| Utils.ModInvCongruent | src/utils/mod.rs:66-75 | the inverse depends only on a mod m, which is why the loop may reduce the denominator as it goes |
| Utils.LagrangeUpTo | src/utils/mod.rs:83-97 | after k points the running sum is below m, and it is absent exactly when one of the first k denominators has no inverse modulo m |
| Utils.LagrangeZero | src/utils/mod.rs:80-99 | no points give Some(0); otherwise the result lies in [0, m) and is None exactly when some denominator Π_{j≠i}(x_i − x_j) is not invertible modulo m |
| Utils.LagrangeInterpolationZero | src/utils/mod.rs:80-99 | the nested loops, with their reduced numerators and denominators and early return on a missing inverse, compute exactly `LagrangeZero` on every input the BigUint arithmetic accepts (`Admissible`), including an x_0 above the modulus when round 0 already returns None |
| Utils.RoundZeroExitAdmitsLargeFirst | src/utils/mod.rs:87-94 | modulus 2 with nodes 3 and 1 is such an input: round 0 never subtracts x_0, its denominator is not invertible, and the result is None |
| Utils.NumeratorStep | src/utils/mod.rs:89-90 | multiplying by (m − x_j) mod m multiplies the numerator by (0 − x_j) modulo m |
| Utils.DenominatorStep | src/utils/mod.rs:91 | multiplying by (x_i + m − x_j) mod m multiplies the denominator by (x_i − x_j) modulo m |
| Utils.LagrangeStep | src/utils/mod.rs:94-96 | one outer round adds y_i·numerator_i·denominator_i⁻¹ mod m to the running sum |
| Utils.LagrangeStaysNone | src/utils/mod.rs:94 | once a denominator has no inverse the whole interpolation is None, so returning early is right |
| Interpolation.LagrangeRecoversConstantTerm | src/utils/mod.rs:80-99 | over a prime modulus p, points with x distinct modulo p whose y agree with a polynomial f of at most as many coefficients as points give Some(f(0) mod p) |
| Interpolation.VanishesEverywhere | src/utils/mod.rs:80-99 | a polynomial with at most n coefficients that vanishes modulo a prime at n nodes distinct modulo it vanishes everywhere (the uniqueness behind interpolation) |
| Interpolation.EuclidLemma | src/utils/mod.rs:66-75 | a prime dividing a product divides a factor, proved with the inverse `mod_inv` provides |
| Interpolation.LagrangeIsInterpAtZero | src/utils/mod.rs:83-97 | while every denominator is invertible the running sum is the interpolating polynomial at zero, reduced modulo m |
| Interpolation.InterpAtNodeIsValue | src/utils/mod.rs:80-99 | the interpolating polynomial takes the value y_t at node x_t, modulo m |
| Interpolation.DenominatorsInvertible | src/utils/mod.rs:94 | with nodes distinct modulo a prime, no denominator lacks an inverse, so the interpolation never returns None |
| FeldmanVerifiability.GenerateCommitments | src/feldman_verifiability/mod.rs:45-49 | one commitment per coefficient, in order, the k-th being g^{c_k} mod q |
| FeldmanVerifiability.GenerateShares | src/feldman_verifiability/mod.rs:22-42 | numShares shares; share k has index draw_k mod 100000 + 1 in [1, 100000] and value f(index) mod q below q; f is built with threshold − 1 coefficients; the commitments are those of f |
| FeldmanVerifiability.VerifyShare | src/feldman_verifiability/mod.rs:54-71 | the share is accepted exactly when g^share mod q equals Π_j C_j^(i^j mod q) mod q, and 1 when there are no commitments |
| FeldmanVerifiability.CommitmentProductIsPower | src/feldman_verifiability/mod.rs:64-68 | the product of the commitments raised to i^j mod e is g raised to Σ c_j·(i^j mod e), modulo q |
| FeldmanVerifiability.HonestShareVerifies | src/feldman_verifiability/mod.rs:54-71 | a share (x, f(x) mod q) of a dealt polynomial verifies against its commitments whenever f(x) < q |
| FeldmanVerifiability.GeneratedSharesVerify | src/main.rs:25-27 | every share that `generate_shares` hands out verifies against the commitments it publishes, as long as no share value wrapped around q |
| FeldmanVerifiability.ReconstructSecret | src/feldman_verifiability/mod.rs:74-76 | reconstruction is Lagrange interpolation at zero of the given shares |
| FeldmanVerifiability.SharesReconstructSecret | src/main.rs:29 | any at least max(1, threshold − 1) shares with distinct indices reconstruct Some(secret) when q is a prime above the index range and the secret is below q |
| FeldmanVerifiability.HonestShareRejectedWhenValueWraps | src/feldman_verifiability/mod.rs:31 | a concrete honestly dealt share whose value wrapped around q fails the check |
| FeldmanVerifiability.OrderReducedShareVerifies | src/feldman_verifiability/mod.rs:66 | with share values and exponents reduced modulo the order n of g, every honest share verifies, however large f(x) is |

## Left out

- `generate_prime` (src/utils/mod.rs:48-52) searches for a random prime. It is left out, and the modulus q is a parameter. Where a proof needs q to be prime, that is a hypothesis.
- The random generators are parameters with the ranges the source's generators promise. These are the coefficient draws in [1, 2^bits) and the `u64` index draws.
- The `println!` calls in `generate_shares` (src/feldman_verifiability/mod.rs:35, 39) print only and are left out.
- `src/main.rs` and its tests are a demonstration and are not modelled. Its assertions are stated as `GeneratedSharesVerify` and `SharesReconstructSecret`.
- Panics become preconditions. `threshold == 0` underflows `threshold - 1`. A zero modulus fails in `modpow` and `%`. `modulus - x_j` underflows when x_j > modulus in a round that reaches it (`Admissible`): every x but x_0 is subtracted in round 0, and x_0 from round 1 on, which is not reached when round 0 finds no inverse. An empty generator range (secret 0 with threshold ≥ 3) makes the draws requirement unsatisfiable.
- num_bigint's algorithms (`modpow`, multiplication, division) are specified by their mathematical results. `ModExp` computes the same value by square and multiply.
- Security properties are out of scope: hiding of the secret and the discrete-logarithm assumption.
- `Evaluate` does not modify the polynomial, and verification and reconstruction only read their arguments. The model works on values, so these hold by construction and have no separate statement.
- FeldmanVerifiability.GeneratedSharesVerify: assumes that no share value wrapped around q (f(x) < q). Without that assumption the check as written can reject honest shares; see Findings.
- FeldmanVerifiability.SharesReconstructSecret: assumes a prime q above 100000 and a secret below q. For other moduli only the facts in `LagrangeZero` are proved: the result is below m, and it is None exactly when a denominator is not invertible.

## Findings

| source | as written | input that shows it | evidently intended | confidence | as-written member | corrected member |
|---|---|---|---|---|---|---|
| src/feldman_verifiability/mod.rs:31 and :66 | share values f(x) and the exponents i^j are reduced modulo q, the modulus of the group, although exponents of g only behave modulo the order of g | q = 7, g = 3, secret 5 (3 bits), threshold 3, random coefficient 2, index draw 0: the share is (1, 7 mod 7) = (1, 0), g^0 = 1, but the commitments are [5, 2] and 5·2 mod 7 = 3, so the honest share is rejected | every honestly dealt share verifies (the assertion at src/main.rs:25-27); reduce share values and exponents modulo the order n of g | high that the check rejects this share; medium that the authors meant small moduli to work; not executed | FeldmanVerifiability.HonestShareRejectedWhenValueWraps | FeldmanVerifiability.OrderReducedShareVerifies |

The corrected check compares g^y mod q with `VerifierRhsModOrder`, the
commitment product with exponents reduced modulo n. Its share values are
f(x) mod n. Completeness of that check holds for every share, with no bound on
f(x), given only g^n ≡ 1 (mod q). Reconstruction of such shares is
`SharesReconstructSecret` with n as the prime modulus.
