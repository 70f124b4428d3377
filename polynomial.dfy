/**
 * Polynomials over the prime field, as used for Shamir secret sharing:
 * construction from sampled coefficients, degree and coefficient access,
 * evaluation by Horner's method, and the Lagrange basis at zero.
 */
module Polynomials {
  import opened Field
  import opened Products

  /** The outcome of a computation that may abort (a Rust panic). */
  datatype Outcome<T> = Returned(value: T) | Panicked

  // ---------------------------------------------------------------------
  // The naive reading of a polynomial, which Horner's method must agree with

  /** x^k over the integers. */
  function Pow(x: int, k: nat): int
  {
    if k == 0 then 1 else x * Pow(x, k - 1)
  }

  /** a_0 + a_1 x + ... + a_(n-1) x^(n-1) over the integers, term by term. */
  function PolySum(a: seq<Elem>, x: int): int
    decreases |a|
  {
    if |a| == 0 then 0
    else PolySum(a[..|a| - 1], x) + a[|a| - 1] * Pow(x, |a| - 1)
  }

  /** p(x) in the field: the naive sum of the terms, reduced modulo P. */
  function NaiveEval(a: seq<Elem>, x: Elem): Elem
  {
    PolySum(a, x) % P
  }

  /** The exact integer sum of a vector of elements. */
  function IntSum(a: seq<Elem>): int
    decreases |a|
  {
    if |a| == 0 then 0 else IntSum(a[..|a| - 1]) + a[|a| - 1]
  }

  /**
   * `FieldElementVector::sum`: the field sum, added from the first.  Reducing
   * after every addition gives the exact sum reduced once.
   */
  function Sum(a: seq<Elem>): (r: Elem)
    ensures r == IntSum(a) % P
    decreases |a|
  {
    if |a| == 0 then 0
    else
      var pre := a[..|a| - 1];
      ModAddLeft(IntSum(pre), a[|a| - 1], P);
      Add(Sum(pre), a[|a| - 1])
  }

  lemma {:induction false} PowOne(k: nat)
    ensures Pow(1, k) == 1
  {
    if k > 0 {
      PowOne(k - 1);
    }
  }

  /** The naive sum factors as a_0 + x * (a_1 + a_2 x + ...): the identity behind Horner's method. */
  lemma {:induction false} HornerStep(a: seq<Elem>, x: int)
    requires |a| >= 1
    ensures PolySum(a, x) == a[0] + x * PolySum(a[1..], x)
    decreases |a|
  {
    var n := |a|;
    if n == 1 {
      assert a[..0] == [] && a[1..] == [];
    } else {
      var pre, c := a[..n - 1], a[n - 1];
      var tail := PolySum(pre[1..], x);
      var power := Pow(x, n - 2);
      assert PolySum(pre, x) == a[0] + x * tail by {
        HornerStep(pre, x);
      }
      assert PolySum(a[1..], x) == tail + c * power by {
        assert a[1..][..n - 2] == pre[1..];
        assert a[1..][n - 2] == c;
      }
      assert x * tail + c * (x * power) == x * (tail + c * power);
      assert PolySum(a, x) == PolySum(pre, x) + c * (x * power);
    }
  }

  /** At zero the naive sum is the constant term. */
  lemma EvalAtZero(a: seq<Elem>)
    requires |a| >= 1
    ensures NaiveEval(a, 0) == a[0]
  {
    HornerStep(a, 0);
  }

  /** At one the naive sum is the field sum of the coefficients. */
  lemma {:induction false} EvalAtOne(a: seq<Elem>)
    ensures NaiveEval(a, 1) == Sum(a)
    decreases |a|
  {
    if |a| > 0 {
      var pre, c := a[..|a| - 1], a[|a| - 1];
      var u := PolySum(pre, 1);
      assert PolySum(a, 1) == u + c by {
        PowOne(|a| - 1);
      }
      assert u % P == Sum(pre) by {
        EvalAtOne(pre);
      }
      ModAddLeft(u, c, P);
    }
  }

  // ---------------------------------------------------------------------
  // The polynomial

  /** Coefficients from the constant term up; never empty. */
  datatype Polynomial = Polynomial(coeffs: seq<Elem>)
  {
    ghost predicate Valid()
    {
      1 <= |coeffs| < USIZE_LIMIT
    }

    /**
     * `Polynomial::random(degree)`: `degree + 1` sampled coefficients.  The
     * sampling is not modelled; the samples are a parameter.  `degree + 1`
     * must not overflow a usize.
     */
    static function Random(degree: Usize, samples: seq<Elem>): (p: Polynomial)
      requires degree + 1 < USIZE_LIMIT
      requires |samples| == degree + 1
      ensures p.Valid()
      ensures p.Degree() == degree
      ensures p.Coefficients() == samples
    {
      Polynomial(samples)
    }

    /** The index of the highest coefficient. */
    function Degree(): (d: Usize)
      requires Valid()
      ensures d < |coeffs|
      ensures coeffs[d..] == [coeffs[d]]
    {
      |coeffs| - 1
    }

    /** The coefficients, lowest degree first. */
    function Coefficients(): (c: seq<Elem>)
      requires Valid()
      ensures |c| == Degree() + 1
      ensures c == coeffs
    {
      coeffs
    }

    /**
     * `Polynomial::eval` with the loop bound `0..len-1`, which lists the
     * same indices as the source's `0..=len-2` whenever there are at least
     * two coefficients, and none for a constant polynomial.
     */
    method Eval(x: Elem) returns (r: Elem)
      requires Valid()
      ensures r == NaiveEval(coeffs, x)
    {
      if x == 0 {
        EvalAtZero(coeffs);
        return coeffs[0];
      }
      var n := |coeffs|;
      var res := coeffs[n - 1];
      assert coeffs[n - 1..] == [coeffs[n - 1]];
      assert coeffs[n - 1..][..0] == [];
      assert PolySum(coeffs[n - 1..], x) == coeffs[n - 1];
      var i := n - 1;
      while i > 0
        invariant 0 <= i <= n - 1
        invariant res == NaiveEval(coeffs[i..], x)
      {
        i := i - 1;
        HornerStep(coeffs[i..], x);
        assert coeffs[i..][1..] == coeffs[i + 1..];
        HornerResidue(PolySum(coeffs[i + 1..], x), x, coeffs[i]);
        res := Add(Mul(res, x), coeffs[i]);
      }
      assert coeffs[0..] == coeffs;
      return res;
    }

    /**
     * `Polynomial::eval` as written: for x != 0 it computes `len - 2` in
     * usize arithmetic, which underflows when there is a single coefficient.
     */
    method EvalAsWritten(x: Elem) returns (r: Outcome<Elem>)
      requires Valid()
      ensures r.Panicked? <==> x != 0 && |coeffs| == 1
      ensures r.Returned? ==> r.value == NaiveEval(coeffs, x)
    {
      if x == 0 {
        EvalAtZero(coeffs);
        return Returned(coeffs[0]);
      }
      if |coeffs| < 2 {
        return Panicked;
      }
      var v := Eval(x);
      return Returned(v);
    }
  }

  // ---------------------------------------------------------------------
  // Lagrange basis at zero

  /** `FieldElement::from(x as u64)` for a coordinate. */
  function Coordinate(x: Usize): Elem
  {
    FromNat(x)
  }

  /** The factor x - i of the denominator. */
  function Difference(i: Usize): Usize -> Elem
  {
    x => Sub(Coordinate(x), Coordinate(i))
  }

  /** The factor x / (x - i) of the textbook definition. */
  function Ratio(i: Usize): Usize -> Elem
  {
    x => Div(Coordinate(x), Sub(Coordinate(x), Coordinate(i)))
  }

  /** The product of the coordinates other than i. */
  ghost function Numerator(xCoords: set<Usize>, i: Usize): Elem
  {
    Product(xCoords - {i}, Coordinate)
  }

  /** The product of (x - i) over the coordinates x other than i. */
  ghost function Denominator(xCoords: set<Usize>, i: Usize): Elem
  {
    Product(xCoords - {i}, Difference(i))
  }

  /** l_i(0), the product over the coordinates x other than i of x / (x - i). */
  ghost function LagrangeAtZero(xCoords: set<Usize>, i: Usize): Elem
  {
    Product(xCoords - {i}, Ratio(i))
  }

  /** What the loop computes when the set is visited in the order xs. */
  function LagrangeInOrder(xs: seq<Usize>, i: Usize): Elem
  {
    Div(OrderedProduct(xs, i, Coordinate), OrderedProduct(xs, i, Difference(i)))
  }

  /**
   * `Polynomial::lagrange_basis_at_0`.  The set is visited in an arbitrary
   * order (each step picks any remaining element); the entry equal to i is
   * skipped; the denominator is inverted at the end.
   */
  method LagrangeBasisAtZero(xCoords: set<Usize>, i: Usize) returns (r: Elem)
    ensures r == Div(Numerator(xCoords, i), Denominator(xCoords, i))
    ensures IsUnit(Denominator(xCoords, i)) ==> Mul(r, Denominator(xCoords, i)) == Numerator(xCoords, i)
    ensures xCoords <= {i} ==> r == 1
  {
    var numerator: Elem := 1;
    var denominator: Elem := 1;
    var iAsFieldElem := FromNat(i);
    var negI := Neg(iAsFieldElem);
    var remaining := xCoords;
    ghost var visited: set<Usize> := {};
    while remaining != {}
      invariant visited + remaining == xCoords
      invariant visited !! remaining
      invariant numerator == Numerator(visited, i)
      invariant denominator == Denominator(visited, i)
      decreases |remaining|
    {
      var x :| x in remaining;
      MoveToVisited(visited, remaining, x);
      remaining := remaining - {x};
      if x == i {
        VisitCoordinate(visited, x, i, numerator, denominator, numerator, denominator);
        visited := visited + {x};
        continue;
      }
      var xAsFieldElem := FromNat(x);
      var newNumerator := Mul(numerator, xAsFieldElem);
      var xMinusI := Add(xAsFieldElem, negI);
      var newDenominator := Mul(denominator, xMinusI);
      VisitCoordinate(visited, x, i, numerator, denominator, newNumerator, newDenominator);
      numerator, denominator := newNumerator, newDenominator;
      visited := visited + {x};
    }
    denominator := Inverse(denominator);
    r := Mul(numerator, denominator);
    if IsUnit(Denominator(xCoords, i)) {
      LagrangeBasisSolves(xCoords, i);
    }
    if xCoords <= {i} {
      LagrangeDegenerate(xCoords, i);
    }
  }

  /** With an invertible denominator, r * denominator == numerator. */
  lemma LagrangeBasisSolves(xCoords: set<Usize>, i: Usize)
    requires IsUnit(Denominator(xCoords, i))
    ensures Mul(Div(Numerator(xCoords, i), Denominator(xCoords, i)), Denominator(xCoords, i)) == Numerator(xCoords, i)
  {
    DivCancel(Numerator(xCoords, i), Denominator(xCoords, i));
  }

  /** With no coordinate other than i both products are empty and the basis value is 1. */
  lemma LagrangeDegenerate(xCoords: set<Usize>, i: Usize)
    requires xCoords <= {i}
    ensures Numerator(xCoords, i) == 1 && Denominator(xCoords, i) == 1
    ensures Div(Numerator(xCoords, i), Denominator(xCoords, i)) == 1
  {
    assert xCoords - {i} == {};
    InverseOne();
  }

  lemma MoveToVisited(visited: set<Usize>, remaining: set<Usize>, x: Usize)
    requires visited !! remaining && x in remaining
    ensures x !in visited
    ensures (visited + {x}) + (remaining - {x}) == visited + remaining
    ensures (visited + {x}) !! (remaining - {x})
  {
  }

  /** One iteration of the loop keeps the running products equal to the products over the visited set. */
  lemma VisitCoordinate(visited: set<Usize>, x: Usize, i: Usize, num: Elem, den: Elem, num': Elem, den': Elem)
    requires x !in visited
    requires num == Numerator(visited, i) && den == Denominator(visited, i)
    requires num' == if x == i then num else Mul(num, FromNat(x))
    requires den' == if x == i then den else Mul(den, Add(FromNat(x), Neg(FromNat(i))))
    ensures num' == Numerator(visited + {x}, i)
    ensures den' == Denominator(visited + {x}, i)
  {
    var s := visited + {x} - {i};
    if x == i {
      assert s == visited - {i};
    } else {
      assert s - {x} == visited - {i};
      calc {
        Numerator(visited + {x}, i);
        Product(s, Coordinate);
        { ProductRemove(s, Coordinate, x); }
        Mul(Coordinate(x), Product(s - {x}, Coordinate));
        Mul(FromNat(x), num);
        { MulComm(FromNat(x), num); }
        num';
      }
      calc {
        Denominator(visited + {x}, i);
        Product(s, Difference(i));
        { ProductRemove(s, Difference(i), x); }
        Mul(Difference(i)(x), Product(s - {x}, Difference(i)));
        Mul(Sub(FromNat(x), FromNat(i)), den);
        { AddNegIsSub(FromNat(x), FromNat(i)); }
        Mul(Add(FromNat(x), Neg(FromNat(i))), den);
        { MulComm(Add(FromNat(x), Neg(FromNat(i))), den); }
        den';
      }
    }
  }

  /** Whatever order the set is visited in, the loop computes numerator / denominator. */
  lemma LagrangeOrderIndependent(xs: seq<Usize>, i: Usize)
    requires Distinct(xs)
    ensures LagrangeInOrder(xs, i) == Div(Numerator(Elements(xs), i), Denominator(Elements(xs), i))
  {
    OrderedProductIsProduct(xs, i, Coordinate);
    OrderedProductIsProduct(xs, i, Difference(i));
  }

  /** Two coordinates that differ as usize values differ as field elements. */
  lemma DifferenceIsUnit(x: Usize, i: Usize)
    requires IsPrime(P)
    requires x != i
    ensures IsUnit(Difference(i)(x))
  {
    NonzeroIsUnit(Sub(Coordinate(x), Coordinate(i)));
  }

  /** In a prime field the denominator is never zero, so it can be inverted. */
  lemma DenominatorIsUnit(xCoords: set<Usize>, i: Usize)
    requires IsPrime(P)
    ensures IsUnit(Denominator(xCoords, i))
    ensures Denominator(xCoords, i) != 0
  {
    forall x | x in xCoords - {i}
      ensures IsUnit(Difference(i)(x))
    {
      DifferenceIsUnit(x, i);
    }
    ProductOfUnits(xCoords - {i}, Difference(i));
    UnitIsNonzero(Denominator(xCoords, i));
  }

  /** numerator / denominator is the textbook product of x / (x - i). */
  lemma LagrangeMatchesDefinition(xCoords: set<Usize>, i: Usize)
    requires IsPrime(P)
    ensures Div(Numerator(xCoords, i), Denominator(xCoords, i)) == LagrangeAtZero(xCoords, i)
  {
    forall x | x in xCoords - {i}
      ensures IsUnit(Difference(i)(x)) && Ratio(i)(x) == Div(Coordinate(x), Difference(i)(x))
    {
      DifferenceIsUnit(x, i);
    }
    ProductOfQuotients(xCoords - {i}, Coordinate, Difference(i), Ratio(i));
  }

  // ---------------------------------------------------------------------
  // The unit test's assertions

  /** The assertions of the polynomial unit test, for any sampled coefficients. */
  method TestPoly(samples: seq<Elem>) returns (atZero: Elem, atOne: Elem)
    requires |samples| == 11
    ensures atZero == samples[0]
    ensures atOne == Sum(samples)
  {
    var degree := 10;
    var poly := Polynomial.Random(degree, samples);
    assert poly.Degree() == degree;
    var coeffs := poly.Coefficients();
    atZero := poly.Eval(0);
    EvalAtZero(coeffs);
    atOne := poly.Eval(1);
    EvalAtOne(coeffs);
  }

  /**
   * Two shares of p(x) = 3 + 5x: p(0) = 3, p(1) = 8, and the Lagrange basis
   * of the coordinate 1 among {1, 2} at zero is 2 / (2 - 1) = 2.
   */
  method TwoShareScenario() returns (atZero: Elem, atOne: Elem, basis: Elem)
    ensures atZero == 3 && atOne == 8
    ensures basis == 2
  {
    var poly := Polynomial([3, 5]);
    ExampleValues();
    atZero := poly.Eval(0);
    atOne := poly.Eval(1);
    ExampleBasis();
    basis := LagrangeBasisAtZero({1, 2}, 1);
  }

  lemma ExampleValues()
    ensures NaiveEval([3, 5], 0) == 3 && NaiveEval([3, 5], 1) == 8
  {
    assert [3, 5][..1] == [3] && [3][..0] == [];
  }

  lemma ExampleBasis()
    ensures Div(Numerator({1, 2}, 1), Denominator({1, 2}, 1)) == 2
  {
    assert {1, 2} - {1} == {2};
    ProductRemove({2}, Coordinate, 2);
    ProductRemove({2}, Difference(1), 2);
    assert {2} - {2} == {};
    assert Numerator({1, 2}, 1) == 2 by { MulOne(2); }
    assert Denominator({1, 2}, 1) == 1 by { MulOne(1); }
    InverseOne();
    MulOne(2);
  }
}
