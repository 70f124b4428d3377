/**
 * Products of field elements over a finite set of coordinates.
 *
 * `Product(s, f)` multiplies f(x) for the x in s in an unspecified order;
 * `OrderedProduct(xs, skip, f)` multiplies them in the order of an
 * enumeration xs, leaving out the entries equal to `skip`, the way a loop
 * over a hash set does.  The two agree for every enumeration without
 * repetitions, so the order in which a set is visited does not matter.
 */
module Products {
  import opened Field

  ghost function Product(s: set<Usize>, f: Usize -> Elem): Elem
    decreases |s|
  {
    if s == {} then 1
    else
      var x :| x in s;
      Mul(f(x), Product(s - {x}, f))
  }

  function OrderedProduct(xs: seq<Usize>, skip: Usize, f: Usize -> Elem): Elem
    decreases |xs|
  {
    if xs == [] then 1
    else
      var last := xs[|xs| - 1];
      var rest := OrderedProduct(xs[..|xs| - 1], skip, f);
      if last == skip then rest else Mul(rest, f(last))
  }

  function Elements(xs: seq<Usize>): set<Usize>
  {
    set x | x in xs
  }

  predicate Distinct(xs: seq<Usize>)
  {
    forall j, k :: 0 <= j < k < |xs| ==> xs[j] != xs[k]
  }

  /** Any element of the set can be taken out first. */
  lemma {:induction false} ProductRemove(s: set<Usize>, f: Usize -> Elem, y: Usize)
    requires y in s
    ensures Product(s, f) == Mul(f(y), Product(s - {y}, f))
    decreases |s|
  {
    var x :| x in s && Product(s, f) == Mul(f(x), Product(s - {x}, f));
    if x != y {
      var rest := s - {x} - {y};
      assert s - {y} - {x} == rest;
      ProductRemove(s - {x}, f, y);
      ProductRemove(s - {y}, f, x);
      var fx, fy, r := f(x), f(y), Product(rest, f);
      assert Mul(Mul(fx, fy), r) == Mul(fx, Mul(fy, r)) by {
        ModMulAssoc(fx, fy, r, P);
      }
      assert Mul(Mul(fy, fx), r) == Mul(fy, Mul(fx, r)) by {
        ModMulAssoc(fy, fx, r, P);
      }
      MulComm(fx, fy);
    }
  }

  /** Multiplying in the order of an enumeration gives the set product. */
  lemma {:induction false} OrderedProductIsProduct(xs: seq<Usize>, skip: Usize, f: Usize -> Elem)
    requires Distinct(xs)
    ensures OrderedProduct(xs, skip, f) == Product(Elements(xs) - {skip}, f)
    decreases |xs|
  {
    if xs != [] {
      var last, pre := xs[|xs| - 1], xs[..|xs| - 1];
      assert Distinct(pre);
      OrderedProductIsProduct(pre, skip, f);
      assert Elements(xs) == Elements(pre) + {last};
      assert last !in Elements(pre);
      if last != skip {
        var t := Elements(xs) - {skip};
        assert t - {last} == Elements(pre) - {skip};
        ProductRemove(t, f, last);
      } else {
        assert Elements(xs) - {skip} == Elements(pre) - {skip};
      }
    }
  }

  /** Two enumerations of the same set give the same ordered product. */
  lemma OrderIrrelevant(xs: seq<Usize>, ys: seq<Usize>, skip: Usize, f: Usize -> Elem)
    requires Distinct(xs) && Distinct(ys)
    requires Elements(xs) == Elements(ys)
    ensures OrderedProduct(xs, skip, f) == OrderedProduct(ys, skip, f)
  {
    OrderedProductIsProduct(xs, skip, f);
    OrderedProductIsProduct(ys, skip, f);
  }

  /** A product of units is a unit. */
  lemma {:induction false} ProductOfUnits(s: set<Usize>, f: Usize -> Elem)
    requires forall x :: x in s ==> IsUnit(f(x))
    ensures IsUnit(Product(s, f))
    decreases |s|
  {
    if s == {} {
      InverseOne();
    } else {
      var x :| x in s;
      ProductRemove(s, f, x);
      ProductOfUnits(s - {x}, f);
      UnitProduct(f(x), Product(s - {x}, f));
    }
  }

  /** The product of quotients is the quotient of the products. */
  lemma {:induction false} ProductOfQuotients(s: set<Usize>, n: Usize -> Elem, d: Usize -> Elem, q: Usize -> Elem)
    requires forall x :: x in s ==> IsUnit(d(x)) && q(x) == Div(n(x), d(x))
    ensures Product(s, q) == Div(Product(s, n), Product(s, d))
    decreases |s|
  {
    if s == {} {
      InverseOne();
    } else {
      var y :| y in s;
      var rest := s - {y};
      ProductRemove(s, n, y);
      ProductRemove(s, d, y);
      ProductRemove(s, q, y);
      ProductOfQuotients(rest, n, d, q);
      ProductOfUnits(rest, d);
      DivProduct(n(y), d(y), Product(rest, n), Product(rest, d));
    }
  }
}
