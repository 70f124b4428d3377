/**
 * Secret reconstruction, the property the Lagrange basis at zero exists for:
 * the shares p(y) of a polynomial p at distinct coordinates y, each weighted
 * by what `lagrange_basis_at_0` returns for y, add up to the secret p(0)
 * whenever there are more coordinates than the degree of p.
 *
 * The proof works with integer polynomials (coefficient sequences, lowest
 * degree first) and residues modulo P.  It builds the Lagrange interpolant L
 * of the shares, shows that p - L vanishes modulo P at every coordinate, and
 * concludes from "a polynomial with more roots than its degree is zero" that
 * p(0) and L(0) agree.
 */
module Interpolation {
  import opened Field
  import opened Products
  import opened Polynomials

  // ---------------------------------------------------------------------
  // Integer polynomials

  /** q(z) by Horner's rule from the constant term: q_0 + z (q_1 + z (...)). */
  function Ev(q: seq<int>, z: int): int
    decreases |q|
  {
    if q == [] then 0 else q[0] + z * Ev(q[1..], z)
  }

  /** Horner's rule and the naive sum agree. */
  lemma {:induction false} EvIsPolySum(a: seq<Elem>, z: int)
    ensures Ev(a, z) == PolySum(a, z)
    decreases |a|
  {
    if a != [] {
      HornerStep(a, z);
      EvIsPolySum(a[1..], z);
    }
  }

  /** The quotient of q by X - a, by synthetic division. */
  function Quot(q: seq<int>, a: int): seq<int>
    decreases |q|
  {
    if |q| <= 1 then [] else [Ev(q[1..], a)] + Quot(q[1..], a)
  }

  /** Division by X - a leaves the remainder q(a): q(z) == (z - a) Quot(q, a)(z) + q(a). */
  lemma {:induction false} QuotRemainder(q: seq<int>, a: int, z: int)
    ensures |Quot(q, a)| == if q == [] then 0 else |q| - 1
    ensures Ev(q, z) == (z - a) * Ev(Quot(q, a), z) + Ev(q, a)
    decreases |q|
  {
    if |q| == 1 {
      assert q[1..] == [];
    } else if |q| >= 2 {
      var t := q[1..];
      QuotRemainder(t, a, z);
      var r := Quot(t, a);
      var ta, rz := Ev(t, a), Ev(r, z);
      assert ([ta] + r)[1..] == r;
      assert Ev(Quot(q, a), z) == ta + z * rz;
      DivisionStep(q[0], z, a, ta, rz);
    }
  }

  lemma DivisionStep(c: int, z: int, a: int, ta: int, rz: int)
    ensures c + z * ((z - a) * rz + ta) == (z - a) * (ta + z * rz) + (c + a * ta)
  {
    assert z * ((z - a) * rz + ta) == (z - a) * (z * rz) + z * ta;
    assert (z - a) * (ta + z * rz) == (z - a) * ta + (z - a) * (z * rz);
  }

  /** q + c: c added to the constant coefficient. */
  function AddConst(q: seq<int>, c: int): seq<int>
  {
    if q == [] then [c] else [q[0] + c] + q[1..]
  }

  lemma EvAddConst(q: seq<int>, c: int, z: int)
    ensures Ev(AddConst(q, c), z) == Ev(q, z) + c
    ensures |AddConst(q, c)| == if q == [] then 1 else |q|
  {
    if q != [] {
      assert AddConst(q, c)[1..] == q[1..];
    }
  }

  /** (a - X) q. */
  function Linear(q: seq<int>, a: int): seq<int>
    decreases |q|
  {
    if q == [] then [] else [a * q[0]] + AddConst(Linear(q[1..], a), -q[0])
  }

  lemma {:induction false} EvLinear(q: seq<int>, a: int, z: int)
    ensures Ev(Linear(q, a), z) == (a - z) * Ev(q, z)
    ensures |Linear(q, a)| == if q == [] then 0 else |q| + 1
    decreases |q|
  {
    if q != [] {
      var c, e, rest := q[0], Ev(q[1..], z), Linear(q[1..], a);
      var tail := AddConst(rest, -c);
      var t := Ev(tail, z);
      assert t == (a - z) * e + -c by {
        EvLinear(q[1..], a, z);
        EvAddConst(rest, -c, z);
      }
      assert Ev(Linear(q, a), z) == a * c + z * t by {
        assert ([a * c] + tail)[1..] == tail;
      }
      assert Ev(q, z) == c + z * e;
      LinearStep(c, a, z, e);
    }
    LinearLength(q, a);
  }

  lemma {:induction false} LinearLength(q: seq<int>, a: int)
    ensures |Linear(q, a)| == if q == [] then 0 else |q| + 1
    decreases |q|
  {
    if q != [] {
      LinearLength(q[1..], a);
      EvAddConst(Linear(q[1..], a), -q[0], 0);
    }
  }

  lemma LinearStep(c: int, a: int, z: int, e: int)
    ensures a * c + z * ((a - z) * e + -c) == (a - z) * (c + z * e)
  {
    assert z * ((a - z) * e + -c) == (a - z) * (z * e) - z * c;
    assert (a - z) * (c + z * e) == (a - z) * c + (a - z) * (z * e);
  }

  /** The coefficient-wise sum. */
  function Plus(p: seq<int>, q: seq<int>): seq<int>
    decreases |p|
  {
    if p == [] then q
    else if q == [] then p
    else [p[0] + q[0]] + Plus(p[1..], q[1..])
  }

  lemma {:induction false} EvPlus(p: seq<int>, q: seq<int>, z: int)
    ensures Ev(Plus(p, q), z) == Ev(p, z) + Ev(q, z)
    ensures |Plus(p, q)| == if |p| < |q| then |q| else |p|
    decreases |p|
  {
    if p != [] && q != [] {
      EvPlus(p[1..], q[1..], z);
      var rest := Plus(p[1..], q[1..]);
      var a, b := Ev(p[1..], z), Ev(q[1..], z);
      assert ([p[0] + q[0]] + rest)[1..] == rest;
      assert Ev(Plus(p, q), z) == p[0] + q[0] + z * (a + b);
      ScaledTerms(z, a, b);
    }
  }

  lemma ScaledProduct(z: int, c: int, a: int)
    ensures z * (c * a) == c * (z * a)
  {
  }

  lemma ScaledTerms(z: int, a: int, b: int)
    ensures z * (a + b) == z * a + z * b
  {
  }

  /** c q. */
  function Scale(c: int, q: seq<int>): seq<int>
    decreases |q|
  {
    if q == [] then [] else [c * q[0]] + Scale(c, q[1..])
  }

  lemma {:induction false} EvScale(c: int, q: seq<int>, z: int)
    ensures Ev(Scale(c, q), z) == c * Ev(q, z)
    ensures |Scale(c, q)| == |q|
    decreases |q|
  {
    if q != [] {
      EvScale(c, q[1..], z);
      var rest := Scale(c, q[1..]);
      assert ([c * q[0]] + rest)[1..] == rest;
      var a := Ev(q[1..], z);
      assert Ev(Scale(c, q), z) == c * q[0] + z * (c * a);
      ScaledProduct(z, c, a);
    }
  }

  // ---------------------------------------------------------------------
  // Residues modulo P

  lemma ZeroModSum(x: int, y: int, m: int)
    requires m > 0 && x % m == 0 && y % m == 0
    ensures (x + y) % m == 0 && (x - y) % m == 0
  {
    var qx, qy := x / m, y / m;
    assert x == qx * m && y == qy * m;
    ScaledSum(qx, qy, m);
    ModAddMultiple(0, qx + qy, m);
    ModAddMultiple(0, qx - qy, m);
  }

  lemma ScaledSum(a: int, b: int, m: int)
    ensures a * m + b * m == (a + b) * m && a * m - b * m == (a - b) * m
  {
  }

  lemma ZeroModMul(c: int, x: int, m: int)
    requires m > 0 && x % m == 0
    ensures (c * x) % m == 0
  {
    ModMulRight(c, x, m);
  }

  /** x and y have the same residue exactly when x - y is a multiple of m. */
  lemma SameResidue(x: int, y: int, m: int)
    requires m > 0
    ensures x % m == y % m <==> (x - y) % m == 0
  {
    ModAddLeft(x, -y, m);
    ModAddLeft(y, x - y, m);
    assert (x % m + -y) % m == (x - y) % m;
    assert (y % m + (x - y)) % m == x % m;
    if (x - y) % m == 0 {
      ModAddLeft(x - y, y, m);
      assert ((x - y) % m + y) % m == x % m;
      assert y % m == x % m;
    }
    if x % m == y % m {
      ModAddLeft(y, -y, m);
      assert (y % m + -y) % m == 0;
    }
  }

  /** Two different usize values stay different modulo P. */
  lemma DistinctResidues(x: Usize, y: Usize)
    requires x != y
    ensures (x - y) % P != 0
  {
    if x > y {
      DivModUnique(x - y, P, 0, x - y);
    } else {
      DivModUnique(x - y, P, -1, x - y + P);
    }
  }

  /** With P prime, a product is divisible by P only through one of its factors. */
  lemma NoZeroDivisors(u: int, v: int)
    requires IsPrime(P)
    requires u % P != 0 && (u * v) % P == 0
    ensures v % P == 0
  {
    var d, e := u % P, v % P;
    NonzeroIsUnit(d);
    assert Mul(d, e) == 0 by {
      ModMulLeft(u, v, P);
      ModMulRight(d, v, P);
    }
    UnitCancels(d, e);
  }

  /** A unit times a non-zero element is non-zero. */
  lemma UnitCancels(d: Elem, e: Elem)
    requires IsUnit(d) && Mul(d, e) == 0
    ensures e == 0
  {
    var inv := Inverse(d);
    InverseOfUnit(d);
    calc {
      e;
      { MulOne(e); }
      Mul(1, e);
      { MulComm(d, inv); }
      Mul(Mul(inv, d), e);
      { ModMulAssoc(inv, d, e, P); }
      Mul(inv, 0);
      0;
    }
  }

  // ---------------------------------------------------------------------
  // More roots than the degree

  /**
   * A polynomial with fewer coefficients than it has distinct roots modulo P
   * vanishes modulo P everywhere.
   */
  lemma {:induction false} FewRootsOrZero(q: seq<int>, xs: seq<Usize>, z: int)
    requires IsPrime(P)
    requires Distinct(xs) && |q| <= |xs|
    requires forall k :: 0 <= k < |xs| ==> Ev(q, xs[k]) % P == 0
    ensures Ev(q, z) % P == 0
    decreases |xs|
  {
    if q != [] {
      var n := |xs|;
      var a, pre := xs[n - 1], xs[..n - 1];
      var r := Quot(q, a);
      QuotRemainder(q, a, z);
      assert Ev(q, a) % P == 0;
      forall k | 0 <= k < |pre|
        ensures Ev(r, pre[k]) % P == 0
      {
        var x := pre[k];
        assert x == xs[k] && x != a;
        QuotRemainder(q, a, x);
        ZeroModSum(Ev(q, x), Ev(q, a), P);
        assert ((x - a) * Ev(r, x)) % P == 0;
        DistinctResidues(x, a);
        NoZeroDivisors(x - a, Ev(r, x));
      }
      FewRootsOrZero(r, pre, z);
      ZeroModMul(z - a, Ev(r, z), P);
      ZeroModSum((z - a) * Ev(r, z), Ev(q, a), P);
    }
  }

  // ---------------------------------------------------------------------
  // The Lagrange basis as integer polynomials

  /** The product over the entries y of xs other than skip of y - z, over the integers. */
  function IntProduct(xs: seq<Usize>, skip: Usize, z: int): int
    decreases |xs|
  {
    if xs == [] then 1
    else
      var rest := IntProduct(xs[..|xs| - 1], skip, z);
      var last := xs[|xs| - 1];
      if last == skip then rest else rest * (last - z)
  }

  /** The coefficients of the product over the entries y of xs other than skip of y - X. */
  function Basis(xs: seq<Usize>, skip: Usize): seq<int>
    decreases |xs|
  {
    if xs == [] then [1]
    else
      var rest := Basis(xs[..|xs| - 1], skip);
      var last := xs[|xs| - 1];
      if last == skip then rest else Linear(rest, last)
  }

  lemma IntProductLast(xs: seq<Usize>, skip: Usize, z: int)
    requires xs != [] && xs[|xs| - 1] != skip
    ensures IntProduct(xs, skip, z) == IntProduct(xs[..|xs| - 1], skip, z) * (xs[|xs| - 1] - z)
  {
  }

  /** The basis polynomial evaluates to the product. */
  lemma {:induction false} EvBasis(xs: seq<Usize>, skip: Usize, z: int)
    ensures Ev(Basis(xs, skip), z) == IntProduct(xs, skip, z)
    decreases |xs|
  {
    if xs != [] {
      var pre, last := xs[..|xs| - 1], xs[|xs| - 1];
      var rest := Basis(pre, skip);
      EvBasis(pre, skip, z);
      if last != skip {
        var e, d := Ev(rest, z), last - z;
        assert Ev(Basis(xs, skip), z) == d * e by {
          EvLinear(rest, last, z);
        }
        IntProductLast(xs, skip, z);
        assert d * e == e * d;
      }
    }
  }

  /** The basis polynomial has degree below |xs| when skip is an entry of xs. */
  lemma {:induction false} BasisLength(xs: seq<Usize>, skip: Usize)
    ensures 1 <= |Basis(xs, skip)| <= |xs| + (if skip in xs then 0 else 1)
    decreases |xs|
  {
    if xs != [] {
      var pre, last := xs[..|xs| - 1], xs[|xs| - 1];
      var rest := Basis(pre, skip);
      assert xs == pre + [last];
      assert skip in xs <==> skip in pre || skip == last;
      BasisLength(pre, skip);
      if last != skip {
        EvLinear(rest, last, 0);
      }
    }
  }

  /** The product vanishes at every entry other than skip. */
  lemma {:induction false} IntProductVanishes(xs: seq<Usize>, skip: Usize, z: Usize)
    requires z in xs && z != skip
    ensures IntProduct(xs, skip, z) == 0
    decreases |xs|
  {
    var pre, last := xs[..|xs| - 1], xs[|xs| - 1];
    assert xs == pre + [last];
    if last != z {
      IntProductVanishes(pre, skip, z);
    }
  }

  /** At zero the product is the numerator of the Lagrange basis, modulo P. */
  lemma {:induction false} IntProductAtZero(xs: seq<Usize>, skip: Usize)
    ensures IntProduct(xs, skip, 0) % P == OrderedProduct(xs, skip, Coordinate)
    decreases |xs|
  {
    if xs != [] {
      var pre, last := xs[..|xs| - 1], xs[|xs| - 1];
      IntProductAtZero(pre, skip);
      if last != skip {
        ModMulLeft(IntProduct(pre, skip, 0), last, P);
      }
    }
  }

  /** At skip itself the product is the denominator of the Lagrange basis of skip, modulo P. */
  lemma {:induction false} IntProductAtSkip(xs: seq<Usize>, skip: Usize)
    ensures IntProduct(xs, skip, skip) % P == OrderedProduct(xs, skip, Difference(skip))
    decreases |xs|
  {
    if xs != [] {
      var pre, last := xs[..|xs| - 1], xs[|xs| - 1];
      IntProductAtSkip(pre, skip);
      if last != skip {
        var rest := IntProduct(pre, skip, skip);
        ModMulLeft(rest, last - skip, P);
        ModMulRight(rest % P, last - skip, P);
        assert Difference(skip)(last) == (last - skip) % P;
      }
    }
  }

  // ---------------------------------------------------------------------
  // The interpolant of the shares

  /** The share p(y) divided by the Lagrange denominator of y. */
  function Weight(coeffs: seq<Elem>, xs: seq<Usize>, y: Usize): Elem
  {
    Div(NaiveEval(coeffs, Coordinate(y)), OrderedProduct(xs, y, Difference(y)))
  }

  /** The polynomial sum over the entries y of part of Weight(y) times Basis(xs, y). */
  function Interpolant(coeffs: seq<Elem>, xs: seq<Usize>, part: seq<Usize>): seq<int>
    decreases |part|
  {
    if part == [] then []
    else
      var y := part[|part| - 1];
      Plus(Interpolant(coeffs, xs, part[..|part| - 1]), Scale(Weight(coeffs, xs, y), Basis(xs, y)))
  }

  /** The value at z of Interpolant(coeffs, xs, part), term by term. */
  function Combination(coeffs: seq<Elem>, xs: seq<Usize>, part: seq<Usize>, z: int): int
    decreases |part|
  {
    if part == [] then 0
    else
      var y := part[|part| - 1];
      Combination(coeffs, xs, part[..|part| - 1], z) + Weight(coeffs, xs, y) * IntProduct(xs, y, z)
  }

  lemma {:induction false} EvInterpolant(coeffs: seq<Elem>, xs: seq<Usize>, part: seq<Usize>, z: int)
    ensures Ev(Interpolant(coeffs, xs, part), z) == Combination(coeffs, xs, part, z)
    decreases |part|
  {
    if part != [] {
      var pre, y := part[..|part| - 1], part[|part| - 1];
      var term := Basis(xs, y);
      var w := Weight(coeffs, xs, y);
      EvInterpolant(coeffs, xs, pre, z);
      EvPlus(Interpolant(coeffs, xs, pre), Scale(w, term), z);
      EvScale(w, term, z);
      EvBasis(xs, y, z);
    }
  }

  /** Every basis polynomial of an entry of xs has degree below |xs|, and so has their sum. */
  lemma {:induction false} InterpolantLength(coeffs: seq<Elem>, xs: seq<Usize>, part: seq<Usize>)
    requires forall k :: 0 <= k < |part| ==> part[k] in xs
    ensures |Interpolant(coeffs, xs, part)| <= |xs|
    decreases |part|
  {
    if part != [] {
      var pre, y := part[..|part| - 1], part[|part| - 1];
      var term := Basis(xs, y);
      var w := Weight(coeffs, xs, y);
      assert forall k :: 0 <= k < |pre| ==> pre[k] == part[k];
      InterpolantLength(coeffs, xs, pre);
      EvPlus(Interpolant(coeffs, xs, pre), Scale(w, term), 0);
      EvScale(w, term, 0);
      BasisLength(xs, y);
    }
  }

  /** At a coordinate x only the term of x itself survives. */
  lemma {:induction false} CombinationAtNode(coeffs: seq<Elem>, xs: seq<Usize>, part: seq<Usize>, x: Usize)
    requires Distinct(part) && x in xs
    ensures Combination(coeffs, xs, part, x) == if x in part then Weight(coeffs, xs, x) * IntProduct(xs, x, x) else 0
    decreases |part|
  {
    if part != [] {
      var pre, y := part[..|part| - 1], part[|part| - 1];
      assert part == pre + [y];
      assert Distinct(pre);
      assert x in part <==> x in pre || x == y;
      CombinationAtNode(coeffs, xs, pre, x);
      if y != x {
        IntProductVanishes(xs, y, x);
      } else {
        assert x !in pre;
      }
    }
  }

  /** p minus the interpolant of its shares. */
  function Residual(coeffs: seq<Elem>, xs: seq<Usize>): seq<int>
  {
    Plus(coeffs, Scale(-1, Interpolant(coeffs, xs, xs)))
  }

  lemma EvResidual(coeffs: seq<Elem>, xs: seq<Usize>, z: int)
    ensures Ev(Residual(coeffs, xs), z) == PolySum(coeffs, z) - Combination(coeffs, xs, xs, z)
    ensures |coeffs| <= |xs| ==> |Residual(coeffs, xs)| <= |xs|
  {
    var l := Interpolant(coeffs, xs, xs);
    EvPlus(coeffs, Scale(-1, l), z);
    EvScale(-1, l, z);
    EvInterpolant(coeffs, xs, xs, z);
    EvIsPolySum(coeffs, z);
    InterpolantLength(coeffs, xs, xs);
  }

  /** The Lagrange denominator of an entry of distinct coordinates is invertible. */
  lemma OrderedDenominatorIsUnit(xs: seq<Usize>, y: Usize)
    requires IsPrime(P) && Distinct(xs)
    ensures IsUnit(OrderedProduct(xs, y, Difference(y)))
  {
    OrderedProductIsProduct(xs, y, Difference(y));
    DenominatorIsUnit(Elements(xs), y);
  }

  /** The interpolant agrees with p modulo P at every coordinate. */
  lemma ResidualVanishesAtNode(coeffs: seq<Elem>, xs: seq<Usize>, x: Usize)
    requires IsPrime(P) && Distinct(xs) && x in xs
    ensures Ev(Residual(coeffs, xs), x) % P == 0
  {
    EvResidual(coeffs, xs, x);
    CombinationAtNode(coeffs, xs, xs, x);
    var w, i := Weight(coeffs, xs, x), IntProduct(xs, x, x);
    var den := OrderedProduct(xs, x, Difference(x));
    var share := NaiveEval(coeffs, Coordinate(x));
    assert share == PolySum(coeffs, x) % P;
    assert (w * i) % P == share by {
      ModMulRight(w, i, P);
      IntProductAtSkip(xs, x);
      OrderedDenominatorIsUnit(xs, x);
      DivCancel(share, den);
    }
    SameResidue(PolySum(coeffs, x), w * i, P);
  }

  // ---------------------------------------------------------------------
  // Reconstruction

  /**
   * The sum over the entries y of part of the share p(y) times l_y(0), the
   * Lagrange basis value `lagrange_basis_at_0(S, y)` returns.
   */
  ghost function SharesAtZero(coeffs: seq<Elem>, S: set<Usize>, part: seq<Usize>): Elem
    decreases |part|
  {
    if part == [] then 0
    else
      var y := part[|part| - 1];
      var share := NaiveEval(coeffs, Coordinate(y));
      Add(SharesAtZero(coeffs, S, part[..|part| - 1]), Mul(share, Div(Numerator(S, y), Denominator(S, y))))
  }

  lemma MulDivSwap(s: Elem, n: Elem, d: Elem)
    ensures Mul(Div(s, d), n) == Mul(s, Div(n, d))
  {
    calc {
      Mul(Div(s, d), n);
      Mul(Mul(s, Inverse(d)), n);
      { ModMulAssoc(s, Inverse(d), n, P); }
      Mul(s, Mul(Inverse(d), n));
      { MulComm(Inverse(d), n); }
      Mul(s, Mul(n, Inverse(d)));
    }
  }

  lemma ModAddBoth(x: int, y: int, m: int)
    requires m > 0
    ensures (x + y) % m == ((x % m) + (y % m)) % m
  {
    ModAddLeft(x, y, m);
    ModAddLeft(y, x % m, m);
    assert (x % m) + y == y + (x % m);
    assert (y % m) + (x % m) == (x % m) + (y % m);
  }

  /** At zero the interpolant is the weighted sum of the shares, modulo P. */
  lemma {:induction false} CombinationAtZero(coeffs: seq<Elem>, xs: seq<Usize>, part: seq<Usize>)
    requires Distinct(xs)
    ensures Combination(coeffs, xs, part, 0) % P == SharesAtZero(coeffs, Elements(xs), part)
    decreases |part|
  {
    if part != [] {
      var pre, y := part[..|part| - 1], part[|part| - 1];
      var c := Combination(coeffs, xs, pre, 0);
      var w, i := Weight(coeffs, xs, y), IntProduct(xs, y, 0);
      var num, den := Numerator(Elements(xs), y), Denominator(Elements(xs), y);
      var share := NaiveEval(coeffs, Coordinate(y));
      var wi := w * i;
      var before, term := SharesAtZero(coeffs, Elements(xs), pre), Mul(share, Div(num, den));
      assert wi % P == term by {
        ModMulRight(w, i, P);
        IntProductAtZero(xs, y);
        OrderedProductIsProduct(xs, y, Coordinate);
        OrderedProductIsProduct(xs, y, Difference(y));
        MulDivSwap(share, num, den);
      }
      assert c % P == before by {
        CombinationAtZero(coeffs, xs, pre);
      }
      assert Combination(coeffs, xs, part, 0) == c + wi;
      AddResidues(c, wi, before, term);
      SharesAtZeroLast(coeffs, Elements(xs), part);
    }
  }

  /** Residues of integers add up as field elements. */
  lemma AddResidues(c: int, t: int, a: Elem, b: Elem)
    requires c % P == a && t % P == b
    ensures (c + t) % P == Add(a, b)
  {
    ModAddBoth(c, t, P);
  }

  lemma SharesAtZeroLast(coeffs: seq<Elem>, S: set<Usize>, part: seq<Usize>)
    requires part != []
    ensures var y := part[|part| - 1];
      SharesAtZero(coeffs, S, part)
      == Add(SharesAtZero(coeffs, S, part[..|part| - 1]), Mul(NaiveEval(coeffs, Coordinate(y)), Div(Numerator(S, y), Denominator(S, y))))
  {
  }

  /**
   * Shamir reconstruction: for a polynomial of degree below the number of
   * distinct coordinates, the shares weighted by the Lagrange basis values at
   * zero add up to the constant coefficient, the secret.
   */
  lemma SecretReconstruction(p: Polynomial, xs: seq<Usize>)
    requires IsPrime(P)
    requires p.Valid() && p.Degree() < |xs|
    requires Distinct(xs)
    ensures SharesAtZero(p.coeffs, Elements(xs), xs) == p.coeffs[0]
  {
    var coeffs := p.coeffs;
    var r := Residual(coeffs, xs);
    var secret, combined := PolySum(coeffs, 0), Combination(coeffs, xs, xs, 0);
    assert |coeffs| <= |xs|;
    assert Ev(r, 0) == secret - combined && |r| <= |xs| by {
      EvResidual(coeffs, xs, 0);
    }
    forall k | 0 <= k < |xs|
      ensures Ev(r, xs[k]) % P == 0
    {
      ResidualVanishesAtNode(coeffs, xs, xs[k]);
    }
    FewRootsOrZero(r, xs, 0);
    assert secret % P == combined % P by {
      SameResidue(secret, combined, P);
    }
    assert secret % P == coeffs[0] by {
      EvalAtZero(coeffs);
    }
    CombinationAtZero(coeffs, xs, xs);
  }
}
