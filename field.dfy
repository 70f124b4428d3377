/**
 * The prime field that the polynomial coefficients live in.
 *
 * The field library used by the polynomial code (amcl_wrapper's FieldElement)
 * is modelled as the integers modulo a fixed prime P, each element kept in its
 * reduced form 0 <= e < P.  Multiplicative inverses are computed by the
 * extended Euclidean algorithm, which is proved correct for every unit.
 */
module Field {

  /**
   * The order of the scalar field of the BLS12-381 curve.  Which curve the
   * field library is built for is an assumption of the model.  The proofs use
   * only that P exceeds every usize and, as a hypothesis, that P is prime.
   */
  const P: nat := 52435875175126190479447740508185965837690552500527637822603658699938581184513

  /** One more than the largest 64-bit `usize`. */
  const USIZE_LIMIT: nat := 0x1_0000_0000_0000_0000

  /** A field element in reduced form. */
  type Elem = e: nat | e < P

  /** A Rust `usize` on a 64-bit target. */
  type Usize = n: nat | n < USIZE_LIMIT

  predicate Divides(d: nat, n: int)
  {
    d > 0 && n % d == 0
  }

  ghost predicate IsPrime(n: nat)
  {
    n > 1 && forall k :: 1 < k < n ==> !Divides(k, n)
  }

  /** `FieldElement::from(n)`: the residue of n. */
  function FromNat(n: nat): (e: Elem)
    ensures n < P ==> e == n
    ensures Divides(P, n - e)
  {
    ModAddMultiple(n % P, n / P, P);
    n % P
  }

  function Add(a: Elem, b: Elem): Elem
  {
    (a + b) % P
  }

  /** Additive inverse, `-a`. */
  function Neg(a: Elem): Elem
  {
    (P - a) % P
  }

  /** The residue of the integer difference a - b (Dafny's % is Euclidean, so it is in [0, P)). */
  function Sub(a: Elem, b: Elem): Elem
  {
    (a - b) % P
  }

  function Mul(a: Elem, b: Elem): Elem
  {
    (a * b) % P
  }

  /** d is a unit: it is coprime to P, so that Euclid's algorithm inverts it. */
  predicate IsUnit(d: Elem)
  {
    ExtGcd(d, P).0 == 1
  }

  /**
   * Extended Euclidean algorithm: a greatest common divisor g of a and b
   * together with Bezout coefficients s, t such that a*s + b*t == g.
   */
  function ExtGcd(a: nat, b: nat): (nat, int, int)
    decreases b
  {
    if b == 0 then (a, 1, 0)
    else
      var (g, s, t) := ExtGcd(b, a % b);
      (g, t, s - (a / b) * t)
  }

  /**
   * ExtGcd returns a common divisor of a and b with its Bezout
   * coefficients.  Stated apart from ExtGcd so that the nonlinear identity
   * is in scope only where a proof asks for it.
   */
  lemma {:induction false} ExtGcdBezout(a: nat, b: nat)
    decreases b
    ensures a * ExtGcd(a, b).1 + b * ExtGcd(a, b).2 == ExtGcd(a, b).0
    ensures a > 0 || b > 0 ==> Divides(ExtGcd(a, b).0, a) && Divides(ExtGcd(a, b).0, b)
  {
    if b > 0 {
      var (g, s, t) := ExtGcd(b, a % b);
      ExtGcdBezout(b, a % b);
      ExtGcdStep(a, b, g, s, t);
    }
  }

  /**
   * `inverse_mut`: the Bezout coefficient of d, reduced.  That it inverts
   * every unit is the lemma InverseOfUnit.
   */
  function Inverse(d: Elem): Elem
  {
    ExtGcd(d, P).1 % P
  }

  /** a / b, that is a * b^-1. */
  function Div(a: Elem, b: Elem): Elem
  {
    Mul(a, Inverse(b))
  }

  // ---------------------------------------------------------------------
  // Integer facts behind the field laws

  lemma DivModUnique(y: int, m: int, q: int, r: int)
    requires m > 0 && 0 <= r < m && y == q * m + r
    ensures y / m == q && y % m == r
  {
    var q', r' := y / m, y % m;
    assert (q - q') * m == r' - r;
    if q' < q {
      MulAtLeast(q - q', m);
    } else if q' > q {
      MulAtLeast(q' - q, m);
    }
  }

  lemma MulAtLeast(k: int, m: int)
    requires k >= 1 && m > 0
    ensures k * m >= m
  {
  }

  lemma DividesCombination(d: nat, x: int, y: int, a: int, b: int)
    requires Divides(d, x) && Divides(d, y)
    ensures Divides(d, a * x + b * y)
  {
    var i, j := x / d, y / d;
    assert x == i * d && y == j * d;
    assert a * x + b * y == (a * i + b * j) * d;
    DivModUnique(a * x + b * y, d, a * i + b * j, 0);
  }

  lemma DividesBound(d: nat, n: nat)
    requires Divides(d, n) && n > 0
    ensures d <= n
  {
    var q := n / d;
    assert n == q * d;
    MulAtLeast(q, d);
  }

  lemma ExtGcdStep(a: nat, b: nat, g: nat, s: int, t: int)
    requires b > 0
    requires b * s + (a % b) * t == g
    requires Divides(g, b) && Divides(g, a % b)
    ensures a * t + b * (s - (a / b) * t) == g
    ensures Divides(g, a)
  {
    var q := a / b;
    assert a == q * b + a % b;
    assert a * t + b * (s - q * t) == b * s + (a - q * b) * t;
    DividesCombination(g, b, a % b, q, 1);
  }

  lemma ModAddMultiple(x: int, k: int, m: int)
    requires m > 0
    ensures (x + k * m) % m == x % m
  {
    DivModUnique(x + k * m, m, x / m + k, x % m);
  }

  lemma ModMulLeft(u: int, c: int, m: int)
    requires m > 0
    ensures ((u % m) * c) % m == (u * c) % m
  {
    var q := u / m;
    assert u == q * m + u % m;
    assert u * c == (u % m) * c + (q * c) * m;
    ModAddMultiple((u % m) * c, q * c, m);
  }

  lemma ModMulRight(c: int, u: int, m: int)
    requires m > 0
    ensures (c * (u % m)) % m == (c * u) % m
  {
    ModMulLeft(u, c, m);
    assert c * (u % m) == (u % m) * c && c * u == u * c;
  }

  lemma ModAddLeft(u: int, c: int, m: int)
    requires m > 0
    ensures ((u % m) + c) % m == (u + c) % m
  {
    assert u + c == (u % m) + c + (u / m) * m;
    ModAddMultiple((u % m) + c, u / m, m);
  }

  // ---------------------------------------------------------------------
  // Field laws

  lemma MulOne(a: Elem)
    ensures Mul(a, 1) == a && Mul(1, a) == a
  {
  }

  lemma MulComm(a: Elem, b: Elem)
    ensures Mul(a, b) == Mul(b, a)
  {
    assert a * b == b * a;
  }

  /** Multiplication modulo m is associative. */
  lemma ModMulAssoc(a: int, b: int, c: int, m: int)
    requires m > 0
    ensures ((a * b) % m * c) % m == (a * ((b * c) % m)) % m
  {
    calc {
      ((a * b) % m * c) % m;
      { ModMulLeft(a * b, c, m); }
      ((a * b) * c) % m;
      { assert (a * b) * c == a * (b * c); }
      (a * (b * c)) % m;
      { ModMulRight(a, b * c, m); }
      (a * ((b * c) % m)) % m;
    }
  }

  lemma MulRearrange(a: Elem, b: Elem, c: Elem, d: Elem)
    ensures Mul(Mul(a, b), Mul(c, d)) == Mul(Mul(a, c), Mul(b, d))
  {
    calc {
      Mul(Mul(a, b), Mul(c, d));
      { ModMulAssoc(a, b, Mul(c, d), P); }
      Mul(a, Mul(b, Mul(c, d)));
      { ModMulAssoc(b, c, d, P); }
      Mul(a, Mul(Mul(b, c), d));
      { MulComm(b, c); }
      Mul(a, Mul(Mul(c, b), d));
      { ModMulAssoc(c, b, d, P); }
      Mul(a, Mul(c, Mul(b, d)));
      { ModMulAssoc(a, c, Mul(b, d), P); }
      Mul(Mul(a, c), Mul(b, d));
    }
  }

  /** One step of Horner's rule on residues: (u mod P) * x + c agrees with c + x * u. */
  lemma HornerResidue(u: int, x: Elem, c: Elem)
    ensures Add(Mul(u % P, x), c) == (c + x * u) % P
  {
    var r, ux := u % P, u * x;
    assert Mul(r, x) == ux % P by {
      ModMulLeft(u, x, P);
    }
    assert (ux % P + c) % P == (ux + c) % P by {
      ModAddLeft(ux, c, P);
    }
    assert ux + c == c + x * u;
  }

  /** The code's `x + (-i)` is the field difference x - i. */
  lemma AddNegIsSub(a: Elem, b: Elem)
    ensures Add(a, Neg(b)) == Sub(a, b)
  {
    if b != 0 {
      assert Neg(b) == P - b;
      ModAddMultiple(a - b, 1, P);
      assert a + (P - b) == (a - b) + 1 * P;
    }
  }

  // ---------------------------------------------------------------------
  // Inverses

  /** Inverse is correct on every unit. */
  lemma InverseOfUnit(d: Elem)
    requires IsUnit(d)
    ensures Mul(d, Inverse(d)) == 1
  {
    ExtGcdBezout(d, P);
    var (g, s, t) := ExtGcd(d, P);
    var e := d * s;
    assert e + t * P == 1;
    assert e % P == 1 by {
      ModAddMultiple(e, t, P);
      assert (e + t * P) % P == e % P;
      assert 1 % P == 1;
    }
    ModMulRight(d, s, P);
  }

  /** Every element that has an inverse at all is a unit. */
  lemma InvertibleIsUnit(d: Elem, u: Elem)
    requires Mul(d, u) == 1
    ensures IsUnit(d)
  {
    ExtGcdBezout(d, P);
    var (g, s, t) := ExtGcd(d, P);
    var q := (d * u) / P;
    assert d * u == q * P + 1;
    DividesCombination(g, d, P, u, -q);
    assert u * d + (-q) * P == 1;
    DividesBound(g, 1);
  }

  /** In a prime field every non-zero element is a unit. */
  lemma NonzeroIsUnit(d: Elem)
    requires IsPrime(P)
    requires d != 0
    ensures IsUnit(d)
  {
    ExtGcdBezout(d, P);
    var (g, s, t) := ExtGcd(d, P);
    DividesBound(g, d);
    assert !(1 < g < P);
  }

  lemma UnitIsNonzero(d: Elem)
    requires IsUnit(d)
    ensures d != 0
  {
    ExtGcdBezout(d, P);
  }

  /** Inverses are unique. */
  lemma InverseUnique(a: Elem, u: Elem)
    requires Mul(a, u) == 1
    ensures Inverse(a) == u
  {
    var v := Inverse(a);
    assert Mul(a, v) == 1 by {
      InvertibleIsUnit(a, u);
      InverseOfUnit(a);
    }
    calc {
      v;
      { MulOne(v); }
      Mul(v, 1);
      Mul(v, Mul(a, u));
      { ModMulAssoc(v, a, u, P); }
      Mul(Mul(v, a), u);
      { MulComm(v, a); }
      Mul(1, u);
      { MulOne(u); }
      u;
    }
  }

  lemma InverseOne()
    ensures Inverse(1) == 1
    ensures IsUnit(1)
  {
    MulOne(1);
    InverseUnique(1, 1);
    InvertibleIsUnit(1, 1);
  }

  /** Units are closed under multiplication, and (ab)^-1 == a^-1 b^-1. */
  lemma UnitProduct(a: Elem, b: Elem)
    requires IsUnit(a) && IsUnit(b)
    ensures IsUnit(Mul(a, b))
    ensures Inverse(Mul(a, b)) == Mul(Inverse(a), Inverse(b))
  {
    var ia, ib := Inverse(a), Inverse(b);
    assert Mul(Mul(a, b), Mul(ia, ib)) == 1 by {
      calc {
        Mul(Mul(a, b), Mul(ia, ib));
        { MulRearrange(a, b, ia, ib); }
        Mul(Mul(a, ia), Mul(b, ib));
        { InverseOfUnit(a); InverseOfUnit(b); }
        Mul(1, 1);
        { MulOne(1); }
        1;
      }
    }
    InverseUnique(Mul(a, b), Mul(ia, ib));
    InvertibleIsUnit(Mul(a, b), Mul(ia, ib));
  }

  /** (a c) / (b d) == (a / b) (c / d) for units b and d. */
  lemma DivProduct(a: Elem, b: Elem, c: Elem, d: Elem)
    requires IsUnit(b) && IsUnit(d)
    ensures Div(Mul(a, c), Mul(b, d)) == Mul(Div(a, b), Div(c, d))
  {
    calc {
      Div(Mul(a, c), Mul(b, d));
      Mul(Mul(a, c), Inverse(Mul(b, d)));
      { UnitProduct(b, d); }
      Mul(Mul(a, c), Mul(Inverse(b), Inverse(d)));
      { MulRearrange(a, c, Inverse(b), Inverse(d)); }
      Mul(Mul(a, Inverse(b)), Mul(c, Inverse(d)));
    }
  }

  /** (a / b) * b == a for a unit b. */
  lemma DivCancel(a: Elem, b: Elem)
    requires IsUnit(b)
    ensures Mul(Div(a, b), b) == a
  {
    calc {
      Mul(Div(a, b), b);
      Mul(Mul(a, Inverse(b)), b);
      { ModMulAssoc(a, Inverse(b), b, P); }
      Mul(a, Mul(Inverse(b), b));
      { MulComm(Inverse(b), b); InverseOfUnit(b); }
      Mul(a, 1);
      { MulOne(a); }
      a;
    }
  }
}
