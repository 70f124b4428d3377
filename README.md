# Polynomials over a prime field, for Shamir secret sharing

This project models `src/polynomial.rs`. That file defines a polynomial over the scalar field of a
pairing-friendly curve, given as its coefficient vector with the lowest degree first. It has four
operations:

- `random(degree)`, which builds a polynomial from `degree + 1` sampled coefficients
- the accessors `degree()` and `coefficients()`
- `eval(x)`, which evaluates by Horner's method and short-cuts `x = 0` to the constant term
- `lagrange_basis_at_0(x_coords, i)`, which gives the value at zero of the Lagrange basis
  polynomial of the coordinate `i` among the set `x_coords`. This is the weight of share `i` when
  the secret p(0) is reconstructed.

The project is four modules:

- `Field` (`field.dfy`): the field. It is the integers modulo the BLS12-381 scalar order `P`,
  with addition, negation, subtraction, multiplication and the conversion from `usize` values. The
  inverse is computed by the extended Euclidean algorithm.
  - An element is a unit when it is coprime to P, so that Euclid's algorithm inverts it. For a
    unit d, d · inverse(d) == 1 is proved. Every element that has some inverse is proved to be a
    unit, and its inverse is proved unique.
  - Every non-zero element is proved to have one, under the hypothesis `IsPrime(P)`.
  - Fixing P to the BLS12-381 scalar order is an assumption about how the field library is built
    (its curve is chosen by a build feature that `src/polynomial.rs` does not show). The contracts
    use only two facts about P: every 64-bit `usize` is below it, and it is prime (a hypothesis).
    They hold unchanged for any other curve of the library whose group order has these two
    properties.
- `Products` (`products.dfy`): the product of a function over a finite set, taken in an
  unspecified order. It also has the same product taken along an enumeration without repetitions.
  The two are proved equal.
- `Polynomials` (`polynomial.dfy`): the polynomial and its operations.
  - Horner evaluation is a method with a descending loop. Its result is the naive sum
    a_0 + a_1 x + ... + a_n x^n, computed over the integers and reduced modulo `P`.
  - The Lagrange basis is a method that visits the coordinate set in an arbitrary order, as a
    `HashSet` loop does. It skips the coordinate equal to `i` and inverts the denominator at the
    end. Its result is numerator / denominator, where both are products over the set minus `i`.
  - Lemmas relate that quotient to the textbook product of x / (x - i), and to every order of
    enumeration.
- `Interpolation` (`interpolation.dfy`): the reconstruction of a secret, which is what the basis
  value at zero is for. For a polynomial p whose degree is below the number of distinct
  coordinates, the sum over the coordinates y of p(y) · `lagrange_basis_at_0(S, y)` is p(0).
  - The proof works with integer polynomials and residues modulo P. It builds the Lagrange
    interpolant of the shares, shows that p minus the interpolant vanishes modulo P at every
    coordinate, and applies the fact that a non-zero polynomial has no more roots than its degree.

## Model

| member | source | states |
|---|---|---|
| Polynomials.Polynomial.Random | src/polynomial.rs:8-14 | a polynomial built from `degree + 1` samples is valid, reports exactly `degree` as its degree (as the test at line 71 asserts), and has the samples as its coefficients |
| Polynomials.Polynomial.Degree | src/polynomial.rs:12-14 | the degree is the index of the highest coefficient: it is below the length of the vector, and the vector holds exactly one coefficient from that index on |
| Polynomials.Polynomial.Coefficients | src/polynomial.rs:16-19 | `coefficients()` returns the stored vector itself, lowest degree first, with `degree() + 1` entries |
| Polynomials.Sum | src/polynomial.rs:78 | `coeffs.sum()`, reducing after every addition, equals the exact integer sum of the coefficients reduced once modulo P |
| Polynomials.Polynomial.Eval | src/polynomial.rs:22-37 | for every x, including 0, the Horner loop returns the naive sum of a_k x^k mod P that the comment at lines 27-28 describes; the loop keeps res == Σ_{k>=i} a_k x^(k-i) mod P |
| Polynomials.Polynomial.EvalAsWritten | src/polynomial.rs:30-31 | the code as written panics exactly when x != 0 and there is one coefficient (the `len()-2` underflow), and otherwise returns the naive sum |
| Polynomials.HornerStep | src/polynomial.rs:27-28 | the naive sum factors as a_0 + x·(a_1 + a_2 x + ...): the nesting that Horner's method evaluates |
| Polynomials.EvalAtZero | src/polynomial.rs:23-24 | the polynomial function at 0 is the constant coefficient, so the short-cut branch agrees with the naive sum |
| Polynomials.EvalAtOne | src/polynomial.rs:78 | the polynomial function at 1 is the field sum of all coefficients |
| Polynomials.TestPoly | src/polynomial.rs:66-80 | for any 11 sampled coefficients, a degree-10 polynomial evaluates to `coeffs[0]` at zero and to `coeffs.sum()` at one |
| Polynomials.LagrangeBasisAtZero | src/polynomial.rs:40-59 | in any visiting order the result is Π_{x≠i} x · (Π_{x≠i} (x−i))⁻¹; when the denominator is invertible, r · Π(x−i) == Π x; when the set has no coordinate besides i, r == 1 |
| Polynomials.VisitCoordinate | src/polynomial.rs:45-55 | one loop step skips x == i and otherwise multiplies x into the numerator and x + (−i) into the denominator. This keeps both equal to the products over the coordinates visited so far |
| Polynomials.LagrangeBasisSolves | src/polynomial.rs:56-58 | with an invertible denominator, numerator · denominator⁻¹ times the denominator is the numerator |
| Polynomials.LagrangeDegenerate | src/polynomial.rs:41-42 | with `x_coords ⊆ {i}` both products are empty, stay 1, and the basis value is 1 (inverse(1) = 1) |
| Polynomials.LagrangeOrderIndependent | src/polynomial.rs:45-55 | the loop run along any enumeration without repetitions of a set gives numerator / denominator of that set, so the `HashSet` order does not matter |
| Polynomials.DenominatorIsUnit | src/polynomial.rs:52-56 | if P is prime, the denominator is non-zero and invertible for every coordinate set, since distinct usize coordinates stay distinct modulo P |
| Polynomials.DifferenceIsUnit | src/polynomial.rs:52 | if P is prime, x − i is invertible for every coordinate x other than i |
| Polynomials.LagrangeMatchesDefinition | src/polynomial.rs:39-58 | if P is prime, numerator / denominator equals Π_{x≠i} x/(x−i), the value at 0 of the Lagrange basis polynomial of i |
| Polynomials.TwoShareScenario | src/polynomial.rs:22-59 | for p(x) = 3 + 5x, eval(0) == 3 and eval(1) == 8, and the basis of 1 among {1, 2} at zero is 2 |
| Products.ProductRemove | src/polynomial.rs:45 | any element of the set can be multiplied in first, so an unordered loop over the set still computes the set product |
| Products.OrderedProductIsProduct | src/polynomial.rs:45-55 | multiplying along an enumeration without repetitions, skipping one value, gives the product over the set minus that value |
| Products.OrderIrrelevant | src/polynomial.rs:45 | two enumerations of the same set give the same skipping product |
| Products.ProductOfUnits | src/polynomial.rs:54-56 | a product of invertible factors is invertible |
| Products.ProductOfQuotients | src/polynomial.rs:57 | a product of quotients is the quotient of the products: (Π x)/(Π (x−i)) == Π x/(x−i) |
| Interpolation.SecretReconstruction | src/polynomial.rs:39-58 | if P is prime, then for a valid polynomial p and distinct coordinates xs with deg p < \|xs\|, Σ_{y ∈ xs} p(y) · `lagrange_basis_at_0(xs, y)` == p(0), the constant coefficient (the secret) |
| Interpolation.FewRootsOrZero | src/polynomial.rs:39-58 | if P is prime, an integer polynomial with at most n coefficients that vanishes modulo P at n distinct coordinates vanishes modulo P everywhere |
| Interpolation.QuotRemainder | src/polynomial.rs:39-58 | a step of the `SecretReconstruction` proof, not an operation of the source: synthetic division by X − a: q(z) == (z − a) · quot(z) + q(a), with a quotient one coefficient shorter |
| Interpolation.NoZeroDivisors | src/polynomial.rs:52-56 | a step of the `SecretReconstruction` proof, not an operation of the source: if P is prime and u is not a multiple of P, u · v is a multiple of P only when v is |
| Interpolation.EvLinear | src/polynomial.rs:45-55 | multiplying a polynomial by the factor (a − X) multiplies its value at every z by a − z and adds one coefficient |
| Interpolation.EvPlus | src/polynomial.rs:39-58 | a step of the `SecretReconstruction` proof, not an operation of the source: the coefficient-wise sum of two polynomials evaluates to the sum of their values, and is as long as the longer one |
| Interpolation.EvScale | src/polynomial.rs:39-58 | a step of the `SecretReconstruction` proof, not an operation of the source: scaling the coefficients by c scales the value at every point by c |
| Interpolation.EvBasis | src/polynomial.rs:45-55 | the product polynomial Π_{x ≠ skip} (x − X) evaluates at z to Π_{x ≠ skip} (x − z) |
| Interpolation.BasisLength | src/polynomial.rs:45-55 | that product polynomial has at most one coefficient per coordinate other than skip, plus one |
| Interpolation.IntProductAtZero | src/polynomial.rs:45-49 | at z = 0 the integer product Π_{x ≠ i} x reduces to the numerator the loop computes |
| Interpolation.IntProductAtSkip | src/polynomial.rs:50-53 | at z = i the integer product Π_{x ≠ i} (x − i) reduces to the denominator the loop computes |
| Interpolation.IntProductVanishes | src/polynomial.rs:45-55 | the product Π_{x ≠ skip} (x − z) is zero at every coordinate z other than skip |
| Interpolation.CombinationAtNode | src/polynomial.rs:39-58 | at a coordinate x the weighted sum of basis products keeps only the term of x itself |
| Interpolation.EvInterpolant | src/polynomial.rs:39-58 | the interpolant polynomial evaluates to the weighted sum of basis products at every point |
| Interpolation.InterpolantLength | src/polynomial.rs:39-58 | the interpolant has no more coefficients than there are coordinates |
| Interpolation.EvResidual | src/polynomial.rs:39-58 | p minus the interpolant evaluates to p(z) minus the weighted sum, and is no longer than the coordinates when p is not |
| Interpolation.ResidualVanishesAtNode | src/polynomial.rs:39-58 | if P is prime, p minus the interpolant vanishes modulo P at every coordinate |
| Interpolation.CombinationAtZero | src/polynomial.rs:39-58 | at zero the weighted sum reduces modulo P to the field sum of share · numerator / denominator, which is the reconstruction sum |
| Interpolation.EvIsPolySum | src/polynomial.rs:27-28 | Horner's rule from the constant term and the naive sum a_0 + a_1 z + ... agree over the integers |
| Interpolation.OrderedDenominatorIsUnit | src/polynomial.rs:52-56 | if P is prime, the loop's denominator is invertible along every enumeration without repetitions |
| Interpolation.DistinctResidues | src/polynomial.rs:43-50 | two different usize coordinates differ modulo P |
| Interpolation.SameResidue | src/polynomial.rs:39-58 | a step of the `SecretReconstruction` proof, not an operation of the source: two integers have the same residue exactly when their difference is a multiple of P |
| Field.FromNat | src/polynomial.rs:43 | `FieldElement::from(n)` is congruent to n modulo P, and is n itself for n < P, so every usize coordinate keeps its value |
| Field.AddNegIsSub | src/polynomial.rs:44 | x + (−i) is x − i in the field |
| Field.HornerResidue | src/polynomial.rs:33 | one Horner step on a reduced accumulator, res·x + a_i, equals a_i + x·u modulo P for the unreduced value u |
| Field.Inverse | src/polynomial.rs:56 | `inverse_mut` is the Bezout coefficient of d from the extended Euclidean algorithm, reduced modulo P; its contract is stated by `InverseOfUnit`, `InvertibleIsUnit` and `InverseUnique` |
| Field.ExtGcdBezout | src/polynomial.rs:56 | the extended Euclidean algorithm behind `inverse_mut` returns a common divisor g of a and b with coefficients s, t such that a·s + b·t == g |
| Field.InverseOfUnit | src/polynomial.rs:56 | `inverse_mut` on an element coprime to P yields its inverse: d · inverse(d) == 1 |
| Field.InvertibleIsUnit | src/polynomial.rs:56 | any element that has some inverse u is coprime to P, so `inverse_mut` inverts it |
| Field.NonzeroIsUnit | src/polynomial.rs:56 | if P is prime, every non-zero element is invertible |
| Field.InverseUnique | src/polynomial.rs:56 | an element has at most one inverse, and `Inverse` returns it |
| Field.InverseOne | src/polynomial.rs:56 | inverse(1) == 1 |
| Field.UnitProduct | src/polynomial.rs:54-56 | a product of units is a unit, and its inverse is the product of the inverses |
| Field.DivProduct | src/polynomial.rs:57-58 | (a·c)/(b·d) == (a/b)·(c/d) for invertible b and d |
| Field.DivCancel | src/polynomial.rs:56-58 | (a/b)·b == a for invertible b |

## Left out

- Random sampling (`FieldElementVector::random`, line 9) draws on an entropy source. `Random` takes the samples as a parameter.
- The randomised repetition of the unit test (lines 68-79) is left out. `TestPoly` states its assertions for any one set of samples.
- The big-integer and Montgomery arithmetic of the field library is left out. Field elements are integers below P, with the operations taken modulo P.
- What `inverse_mut` does on zero is the field library's business. In the model `Inverse(0)` is 0, and no contract depends on that value.
- `Field.Inverse` has no `ensures` of its own. What `inverse_mut` promises is stated by the lemma `InverseOfUnit`, which callers invoke where they need it.
- Primality of P: a 255-bit primality proof is out of reach here. `DenominatorIsUnit`, `DifferenceIsUnit`, `LagrangeMatchesDefinition`, `Field.NonzeroIsUnit` and the interpolation lemmas that need a field (`NoZeroDivisors`, `FewRootsOrZero`, `OrderedDenominatorIsUnit`, `ResidualVanishesAtNode`, `SecretReconstruction`) take `IsPrime(P)` as a hypothesis. Everything else holds without it.
- `usize` is taken to be 64 bits wide. With that width the `as u64` casts (lines 43, 50) are lossless, and every coordinate is below P.
- `Random` requires that `degree + 1` does not overflow a usize. The source would panic (debug build) or wrap (release build) there.
- `HashSet` hashing and its concrete iteration order are not modelled. The loop picks an arbitrary remaining element, so the proof covers every order.
- The source never computes the reconstruction sum itself. `SecretReconstruction` states it over the values that `Eval` and `LagrangeBasisAtZero` are proved to return, and it is a lemma rather than a method.
- `SecretReconstruction` does not require the coordinates to be non-zero. The identity holds for every set of distinct coordinates.
- `eval` is documented as evaluating the polynomial at any `x` (src/polynomial.rs:21), and the factorisation in the comment at lines 27-28 gives a_0 for a constant polynomial. The code panics on a single coefficient when x is non-zero (see Findings). `EvalAsWritten` follows the code, and `Eval` is the corrected loop.

## Findings

| source | as written | input that shows it | evidently intended | confidence | as-written member | corrected member |
|---|---|---|---|---|---|---|
| src/polynomial.rs:31 | the loop range `0..=len-2` computes `len - 2` in usize arithmetic | a degree-0 polynomial (one coefficient) evaluated at any x != 0, e.g. `random(0).eval(&one)`, panics: the subtraction overflows in a debug build, and in a release build it wraps to `usize::MAX`, so the first index is out of bounds | return the constant coefficient, which is p(x) for a constant polynomial | not executed | Polynomials.Polynomial.EvalAsWritten | Polynomials.Polynomial.Eval |
