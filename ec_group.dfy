/**
 * The point group of lab2/ecdsa.py: an elliptic curve y^2 = x^3 + a*x + b
 * over the integers modulo p, with the point at infinity as identity,
 * negation, the chord-and-tangent addition law (section 2.2.1 of SEC 1
 * v2.0) and double-and-add scalar multiplication.
 */
module EcGroup {
  import opened NumberTheory
  import opened CryptoLib
  import Fermat

  /** `EllipticCurve(a, b, p)`. */
  datatype Curve = Curve(a: int, b: int, p: int)

  /**
   * `EllipticPoint`: the point at infinity (`x is None`) or a pair of
   * coordinates. Points compare by their coordinates only, as `__eq__`
   * does, so the curve they belong to is passed alongside.
   */
  datatype Point = Zero | Affine(x: int, y: int)

  /** The curve's right-hand side x^3 + a*x + b. */
  function Rhs(c: Curve, x: int): int {
    Cubic(c.a, c.b, x)
  }

  function Cubic(a: int, b: int, x: int): int {
    x * x * x + a * x + b
  }

  /** The curves the group law is proved for: p an odd prime. */
  ghost predicate ValidCurve(c: Curve) {
    IsPrime(c.p) && c.p > 2
  }

  /** A point of the curve: the identity, or reduced coordinates solving the equation. */
  predicate OnCurve(c: Curve, P: Point)
    requires c.p > 0
  {
    P.Zero? || (0 <= P.x < c.p && 0 <= P.y < c.p && (P.y * P.y - Rhs(c, P.x)) % c.p == 0)
  }

  /** `EllipticPoint.__neg__`: the identity is its own negative, (x, y) maps to (x, -y mod p). */
  function Neg(c: Curve, P: Point): (R: Point)
    requires c.p > 0
    ensures R.Zero? <==> P.Zero?
    ensures R.Affine? ==> R.x == P.x && 0 <= R.y < c.p && (R.y + P.y) % c.p == 0
  {
    if P.Zero? then P
    else
      var y := (-P.y) % c.p;
      assert (y + P.y) % c.p == 0 by {
        var q := (-P.y) / c.p;
        assert y + P.y == 0 + (-q) * c.p;
        ModAddMultiple(0, -q, c.p);
      }
      Affine(P.x, y)
  }

  /**
   * The slope numer * inverse_in_group(denom) mod p that `__add__` computes
   * from the two residues; for a prime p and a denominator that is not a
   * multiple of p it solves l * d = n (mod p).
   */
  function ModQuotient(n: int, d: int, p: int): (l: int)
    requires p > 0
    ensures 0 <= l < p
    ensures IsPrime(p) && d % p != 0 ==> (l * d - n) % p == 0
  {
    var inv := InverseInGroup(d % p, p);
    var l := ((n % p) * inv) % p;
    assert IsPrime(p) && d % p != 0 ==> (l * d - n) % p == 0 by {
      if IsPrime(p) && d % p != 0 {
        InverseModPrime(d % p, p);
        QuotientEquation(n, d, p, inv, l);
      }
    }
    l
  }

  lemma QuotientEquation(n: int, d: int, p: int, inv: int, l: int)
    requires p > 0 && ((d % p) * inv) % p == 1
    requires l == ((n % p) * inv) % p
    ensures (l * d - n) % p == 0
  {
    var dd, nn := d % p, n % p;
    calc {
      (l * d) % p;
      { ModOfMod(d, p); MulCongruent(d, dd, l, p); }
      (l * dd) % p;
      { ModOfMod(nn * inv, p); MulCongruent(l, nn * inv, dd, p); }
      ((nn * inv) * dd) % p;
      { assert (nn * inv) * dd == nn * (inv * dd); }
      (nn * (inv * dd)) % p;
      { assert inv * dd == dd * inv; ModSmall(1, p); MulCongruent(inv * dd, 1, nn, p); }
      (nn * 1) % p;
      { ModOfMod(n, p); }
      n % p;
    }
    ModEqIffDivides(l * d, n, p);
  }

  /** Multiplying congruent numbers by the same factor keeps them congruent. */
  lemma MulCongruent(u: int, v: int, w: int, p: int)
    requires p > 0 && u % p == v % p
    ensures (w * u) % p == (w * v) % p && (u * w) % p == (v * w) % p
  {
    ModMul(w, u, p);
    ModMul(w, v, p);
    ModMul(u, w, p);
    ModMul(v, w, p);
  }

  /** Two residues solving l * d = n modulo a prime, with d not a multiple of p, coincide. */
  lemma QuotientUnique(l1: int, l2: int, n: int, d: int, p: int)
    requires IsPrime(p) && d % p != 0
    requires 0 <= l1 < p && 0 <= l2 < p
    requires (l1 * d - n) % p == 0 && (l2 * d - n) % p == 0
    ensures l1 == l2
  {
    if l1 >= l2 {
      QuotientOrdered(l1, l2, l1 * d - n, l2 * d - n, d, p);
    } else {
      QuotientOrdered(l2, l1, l2 * d - n, l1 * d - n, d, p);
    }
  }

  /** Residues u >= v that both solve the congruence coincide. */
  lemma QuotientOrdered(u: int, v: int, a: int, b: int, d: int, p: int)
    requires IsPrime(p) && d % p != 0
    requires 0 <= v <= u < p && a % p == 0 && b % p == 0
    requires a - b == (u - v) * d
    ensures u == v
  {
    ModSub(a, b, p);
    assert (a - b) % p == 0;
    Fermat.EuclidLemma(p, u - v, d);
    ModSmall(u - v, p);
  }

  /** The slope `__add__` uses for two affine points (doubling when they are equal). */
  function Slope(c: Curve, P: Point, Q: Point): (l: int)
    requires c.p > 0 && P.Affine? && Q.Affine?
    ensures 0 <= l < c.p
  {
    if P == Q then ModQuotient(3 * P.x * P.x + c.a, 2 * P.y, c.p)
    else ModQuotient(Q.y - P.y, Q.x - P.x, c.p)
  }

  /**
   * `EllipticPoint.__add__`: the identity on either side gives the other
   * operand; P + (-P) is the identity; otherwise the tangent (P = Q) or
   * chord slope gives the reduced third point.
   */
  function Add(c: Curve, P: Point, Q: Point): (R: Point)
    requires c.p > 0
    ensures P.Zero? ==> R == Q
    ensures Q.Zero? ==> R == P
    ensures P.Affine? && Q.Affine? ==> (R.Zero? <==> P == Neg(c, Q))
    ensures P.Affine? && Q.Affine? && R.Affine? ==> 0 <= R.x < c.p && 0 <= R.y < c.p
  {
    if P.Zero? then Q
    else if Q.Zero? then P
    else if P == Neg(c, Q) then Zero
    else
      var l := Slope(c, P, Q);
      var x := (l * l - P.x - Q.x) % c.p;
      Affine(x, (l * (P.x - x) - P.y) % c.p)
  }

  /** Negating a curve point twice gives the point back. */
  lemma NegInvolutive(c: Curve, P: Point)
    requires c.p > 0 && OnCurve(c, P)
    ensures Neg(c, Neg(c, P)) == P
  {
    if P.Affine? {
      var p := c.p;
      if P.y == 0 {
        assert (-P.y) % p == 0;
      } else {
        ModAddMultiple(-P.y, 1, p);
        ModSmall(p - P.y, p);
        assert (-P.y) % p == p - P.y;
        ModAddMultiple(-(p - P.y), 1, p);
        ModSmall(P.y, p);
      }
    }
  }

  /** The negative of a curve point lies on the curve. */
  lemma NegOnCurve(c: Curve, P: Point)
    requires c.p > 0 && OnCurve(c, P)
    ensures OnCurve(c, Neg(c, P))
  {
    if P.Affine? {
      var y := Neg(c, P).y;
      var q := (y + P.y) / c.p;
      assert y + P.y == q * c.p;
      assert y * y - Rhs(c, P.x) == (P.y * P.y - Rhs(c, P.x)) + (q * (y - P.y)) * c.p by {
        assert y == q * c.p - P.y;
      }
      ModAddMultiple(P.y * P.y - Rhs(c, P.x), q * (y - P.y), c.p);
    }
  }

  /** P + (-P) is the identity for every curve point, including those with y = 0. */
  lemma AddNegSelf(c: Curve, P: Point)
    requires c.p > 0 && OnCurve(c, P)
    ensures Add(c, P, Neg(c, P)) == Zero
  {
    if P.Affine? {
      NegInvolutive(c, P);
    }
  }

  /** Two distinct residues are distinct modulo p. */
  lemma DistinctResidues(u: int, v: int, p: int)
    requires 0 <= u < p && 0 <= v < p && u != v
    ensures (u - v) % p != 0
  {
    if u > v {
      ModSmall(u - v, p);
    } else {
      ModAddMultiple(u - v, 1, p);
      ModSmall(u - v + p, p);
    }
  }

  /** A point with 2y = 0 (mod p), p an odd prime, is its own negative. */
  lemma SelfNegative(c: Curve, P: Point)
    requires ValidCurve(c) && OnCurve(c, P) && P.Affine?
    ensures (2 * P.y) % c.p == 0 ==> P == Neg(c, P)
  {
    if (2 * P.y) % c.p == 0 {
      Fermat.EuclidLemma(c.p, 2, P.y);
      ModSmall(2, c.p);
      ModSmall(P.y, c.p);
    }
  }

  /** The difference of the equation errors of two points with the same x factors. */
  lemma DifferenceOfSquares(y1: int, y2: int, e1: int, e2: int, w: int)
    requires e1 == y1 * y1 - w && e2 == y2 * y2 - w
    ensures (y1 - y2) * (y1 + y2) == e1 - e2
  {
  }

  /** A residue a with a + b = 0 (mod p) is the reduced negative of b. */
  lemma SumZeroIsNeg(a: int, b: int, p: int)
    requires 0 <= a < p && (a + b) % p == 0
    ensures a == (-b) % p
  {
    assert -b == a - (a + b);
    ModSub(a, a + b, p);
    ModSmall(a, p);
  }

  /** Two curve points with the same x are equal or negatives of each other. */
  lemma SameAbscissa(c: Curve, P: Point, Q: Point)
    requires ValidCurve(c) && OnCurve(c, P) && OnCurve(c, Q)
    requires P.Affine? && Q.Affine? && P.x == Q.x
    ensures P == Q || P == Neg(c, Q)
  {
    var p := c.p;
    var eP, eQ := P.y * P.y - Rhs(c, P.x), Q.y * Q.y - Rhs(c, Q.x);
    DifferenceOfSquares(P.y, Q.y, eP, eQ, Rhs(c, P.x));
    MultipleDifference(eP, eQ, p);
    Fermat.EuclidLemma(p, P.y - Q.y, P.y + Q.y);
    if (P.y - Q.y) % p == 0 {
      if P.y != Q.y {
        DistinctResidues(P.y, Q.y, p);
      }
    } else {
      SumZeroIsNeg(P.y, Q.y, p);
    }
  }

  /**
   * Because the inverse check comes first, `__add__` only ever inverts a
   * non-zero residue on curve points: 2y in the doubling branch, x_Q - x_P
   * in the chord branch.
   */
  lemma AddDenominatorNonZero(c: Curve, P: Point, Q: Point)
    requires ValidCurve(c) && OnCurve(c, P) && OnCurve(c, Q)
    requires P.Affine? && Q.Affine? && P != Neg(c, Q)
    ensures P == Q ==> (2 * P.y) % c.p != 0
    ensures P != Q ==> P.x != Q.x && (Q.x - P.x) % c.p != 0
  {
    SelfNegative(c, P);
    if P.x == Q.x {
      SameAbscissa(c, P, Q);
    } else {
      DistinctResidues(Q.x, P.x, c.p);
    }
  }

  // ---------------------------------------------------------------------
  // Closure: the polynomial identities behind the chord and tangent rules

  /** x^3 + a*x + b - (r^3 + a*r + b) factors through x - r. */
  lemma CubicDifference(a: int, b: int, r: int, x: int)
    ensures Cubic(a, b, x) - Cubic(a, b, r) == (x - r) * (x * x + x * r + r * r + a)
  {
  }

  lemma SquareExpand(l: int, u: int, y1: int)
    ensures (-(l * u) - y1) * (-(l * u) - y1) == u * (l * l * u + 2 * l * y1) + y1 * y1
  {
  }

  /**
   * The line through (x1, y1) with slope l, cut by the curve at x1 and x2:
   * with k the chord's remainder term, g(x2) - g(x1) = -(x2 - x1) * k where g
   * is the curve minus the squared line.
   */
  lemma ChordIdentity(a: int, b: int, l: int, x1: int, x2: int, y1: int)
    ensures var k := l * (2 * y1 + l * (x2 - x1)) - (x1 * x1 + x1 * x2 + x2 * x2 + a);
      var y2 := l * (x2 - x1) + y1;
      (Cubic(a, b, x2) - y2 * y2) - (Cubic(a, b, x1) - y1 * y1) + (x2 - x1) * k == 0
  {
  }

  /** The chord's third point: its equation error is that of (x1, y1) plus a multiple of k. */
  lemma ChordThirdPoint(a: int, b: int, l: int, x1: int, x2: int, y1: int)
    ensures var k := l * (2 * y1 + l * (x2 - x1)) - (x1 * x1 + x1 * x2 + x2 * x2 + a);
      var x3 := l * l - x1 - x2;
      var y3 := l * (x1 - x3) - y1;
      y3 * y3 - Cubic(a, b, x3) == (y1 * y1 - Cubic(a, b, x1)) + (x3 - x1) * k
  {
    var k := l * (2 * y1 + l * (x2 - x1)) - (x1 * x1 + x1 * x2 + x2 * x2 + a);
    var x3 := l * l - x1 - x2;
    var y3 := l * (x1 - x3) - y1;
    var u := x3 - x1;
    var w := x3 * x3 + x3 * x1 + x1 * x1 + a;
    CubicDifference(a, b, x1, x3);
    assert y3 == -(l * u) - y1;
    SquareExpand(l, u, y1);
    ChordSlopeTerm(a, l, x1, x2, y1);
    var v := l * l * u + 2 * l * y1;
    assert v - w == k;
    assert y3 * y3 == u * v + y1 * y1;
    assert Cubic(a, b, x3) - Cubic(a, b, x1) == u * w;
    assert u * v - u * w == u * k;
  }

  lemma ChordSlopeTerm(a: int, l: int, x1: int, x2: int, y1: int)
    ensures var x3 := l * l - x1 - x2;
      l * l * (x3 - x1) + 2 * l * y1 - (x3 * x3 + x3 * x1 + x1 * x1 + a)
        == l * (2 * y1 + l * (x2 - x1)) - (x1 * x1 + x1 * x2 + x2 * x2 + a)
  {
    var x3 := l * l - x1 - x2;
    assert x3 * x3 + x3 * x1 - x1 * x2 - x2 * x2 == (x3 - x2) * (x3 + x2 + x1);
  }

  /** The tangent's third point, with k the tangent's remainder term. */
  lemma TangentThirdPoint(a: int, b: int, l: int, x1: int, y1: int)
    ensures var k := 2 * l * y1 - (3 * x1 * x1 + a);
      var x3 := l * l - x1 - x1;
      var y3 := l * (x1 - x3) - y1;
      y3 * y3 - Cubic(a, b, x3) == (y1 * y1 - Cubic(a, b, x1)) + (x3 - x1) * k
  {
  }

  /** Products and differences of multiples of p are multiples of p. */
  lemma MultipleProduct(u: int, v: int, p: int)
    requires p > 0 && u % p == 0
    ensures (u * v) % p == 0
  {
    ModMul(u, v, p);
  }

  lemma MultipleDifference(u: int, v: int, p: int)
    requires p > 0 && u % p == 0 && v % p == 0
    ensures (u - v) % p == 0 && (u + v) % p == 0
  {
    ModSub(u, v, p);
    ModAdd(u, v, p);
  }

  /** The unreduced chord point of two curve points with x2 != x1 (mod p) solves the equation mod p. */
  lemma ChordOnCurve(c: Curve, l: int, x1: int, y1: int, x2: int, y2: int)
    requires IsPrime(c.p)
    requires (y1 * y1 - Rhs(c, x1)) % c.p == 0 && (y2 * y2 - Rhs(c, x2)) % c.p == 0
    requires (x2 - x1) % c.p != 0 && (l * (x2 - x1) - (y2 - y1)) % c.p == 0
    ensures ThirdSolves(c, l, x1, y1, l * l - x1 - x2)
  {
    var p := c.p;
    var k := l * (2 * y1 + l * (x2 - x1)) - (x1 * x1 + x1 * x2 + x2 * x2 + c.a);
    var y2' := l * (x2 - x1) + y1;
    ChordIdentity(c.a, c.b, l, x1, x2, y1);
    assert y2' - y2 == l * (x2 - x1) - (y2 - y1);
    MultipleProduct(y2' - y2, y2' + y2, p);
    assert (y2' - y2) * (y2' + y2) == y2' * y2' - y2 * y2;
    var g1, g2 := Rhs(c, x1) - y1 * y1, Rhs(c, x2) - y2' * y2';
    assert g2 == -(y2 * y2 - Rhs(c, x2)) - (y2' * y2' - y2 * y2);
    MultipleDifference(0, y2 * y2 - Rhs(c, x2), p);
    MultipleDifference(-(y2 * y2 - Rhs(c, x2)), y2' * y2' - y2 * y2, p);
    MultipleDifference(0, y1 * y1 - Rhs(c, x1), p);
    assert g1 == 0 - (y1 * y1 - Rhs(c, x1));
    MultipleDifference(g1, g2, p);
    assert (x2 - x1) * k == g1 - g2;
    Fermat.EuclidLemma(p, x2 - x1, k);
    var x3 := l * l - x1 - x2;
    ChordThirdPoint(c.a, c.b, l, x1, x2, y1);
    MultipleProduct(k, x3 - x1, p);
    assert (x3 - x1) * k == k * (x3 - x1);
    MultipleDifference(0, g1, p);
    assert y1 * y1 - Rhs(c, x1) == 0 - g1;
    MultipleDifference(y1 * y1 - Rhs(c, x1), (x3 - x1) * k, p);
  }

  /** The unreduced tangent point of a curve point with 2y != 0 (mod p) solves the equation mod p. */
  lemma TangentOnCurve(c: Curve, l: int, x1: int, y1: int)
    requires c.p > 0
    requires (y1 * y1 - Rhs(c, x1)) % c.p == 0
    requires (l * (2 * y1) - (3 * x1 * x1 + c.a)) % c.p == 0
    ensures ThirdSolves(c, l, x1, y1, l * l - x1 - x1)
  {
    var p := c.p;
    var k := 2 * l * y1 - (3 * x1 * x1 + c.a);
    var x3 := l * l - x1 - x1;
    assert k == l * (2 * y1) - (3 * x1 * x1 + c.a);
    TangentThirdPoint(c.a, c.b, l, x1, y1);
    MultipleProduct(k, x3 - x1, p);
    assert (x3 - x1) * k == k * (x3 - x1);
    MultipleDifference(y1 * y1 - Rhs(c, x1), (x3 - x1) * k, p);
  }

  /** Reducing x^3 + a*x + b's argument modulo p does not change it modulo p. */
  lemma RhsMod(c: Curve, x: int)
    requires c.p > 0
    ensures Rhs(c, x % c.p) % c.p == Rhs(c, x) % c.p
  {
    var r, q := x % c.p, x / c.p;
    var w := x * x + x * r + r * r + c.a;
    CubicDifference(c.a, c.b, r, x);
    assert x - r == q * c.p;
    assert (x - r) * w == (q * w) * c.p by {
      assert (q * c.p) * w == (q * w) * c.p;
    }
    assert Rhs(c, x) == Rhs(c, r) + (q * w) * c.p;
    ModAddMultiple(Rhs(c, r), q * w, c.p);
  }

  /**
   * The third point on the line of slope l through (x1, y1), before
   * reduction: abscissa x3 and ordinate l (x1 - x3) - y1 solve the curve
   * equation modulo p.
   */
  ghost predicate ThirdSolves(c: Curve, l: int, x1: int, y1: int, x3: int)
    requires c.p > 0
  {
    ((l * (x1 - x3) - y1) * (l * (x1 - x3) - y1) - Rhs(c, x3)) % c.p == 0
  }

  /** Reducing the third point's coordinates as `__add__` does keeps it a solution. */
  lemma ReduceThirdPoint(c: Curve, l: int, x1: int, y1: int, x3: int)
    requires c.p > 0 && ThirdSolves(c, l, x1, y1, x3)
    ensures var rx := x3 % c.p;
      var ry := (l * (x1 - rx) - y1) % c.p;
      (ry * ry - Rhs(c, rx)) % c.p == 0
  {
    var p := c.p;
    var rx := x3 % p;
    var Y, Y' := l * (x1 - x3) - y1, l * (x1 - rx) - y1;
    var ry := Y' % p;
    assert Y' == Y + (l * (x3 / p)) * p by {
      assert x3 - rx == (x3 / p) * p;
    }
    ModAddMultiple(Y, l * (x3 / p), p);
    ModOfMod(Y', p);
    ModMul(ry, ry, p);
    ModMul(Y, Y, p);
    assert (ry * ry) % p == (Y * Y) % p;
    RhsMod(c, x3);
    ModSub(ry * ry, Rhs(c, rx), p);
    ModSub(Y * Y, Rhs(c, x3), p);
  }

  /** The sum of two curve points lies on the curve. */
  lemma AddOnCurve(c: Curve, P: Point, Q: Point)
    requires ValidCurve(c) && OnCurve(c, P) && OnCurve(c, Q)
    ensures OnCurve(c, Add(c, P, Q))
  {
    if P.Affine? && Q.Affine? && P != Neg(c, Q) {
      var l := Slope(c, P, Q);
      var x3 := l * l - P.x - Q.x;
      ThirdPointOnCurve(c, P, Q);
      ReduceThirdPoint(c, l, P.x, P.y, x3);
      var x := x3 % c.p;
      var y := (l * (P.x - x) - P.y) % c.p;
      AddWithSlope(c, P, Q, l, x, y);
    }
  }

  /** The unreduced third point of the chord or tangent solves the curve equation modulo p. */
  lemma ThirdPointOnCurve(c: Curve, P: Point, Q: Point)
    requires ValidCurve(c) && OnCurve(c, P) && OnCurve(c, Q)
    requires P.Affine? && Q.Affine? && P != Neg(c, Q)
    ensures var l := Slope(c, P, Q); ThirdSolves(c, l, P.x, P.y, l * l - P.x - Q.x)
  {
    AddDenominatorNonZero(c, P, Q);
    var l := Slope(c, P, Q);
    if P == Q {
      TangentOnCurve(c, l, P.x, P.y);
    } else {
      ChordOnCurve(c, l, P.x, P.y, Q.x, Q.y);
    }
  }

  /** The chord slope does not depend on the order of the two points. */
  lemma SlopeSymmetric(c: Curve, P: Point, Q: Point)
    requires ValidCurve(c) && OnCurve(c, P) && OnCurve(c, Q)
    requires P.Affine? && Q.Affine? && P != Q && P != Neg(c, Q) && Q != Neg(c, P)
    ensures Slope(c, P, Q) == Slope(c, Q, P)
    ensures var l := Slope(c, P, Q); (l * (Q.x - P.x) - (Q.y - P.y)) % c.p == 0
  {
    var p := c.p;
    AddDenominatorNonZero(c, P, Q);
    AddDenominatorNonZero(c, Q, P);
    var l1, l2 := Slope(c, P, Q), Slope(c, Q, P);
    SwappedQuotient(l2, P.x, P.y, Q.x, Q.y, p);
    QuotientUnique(l1, l2, Q.y - P.y, Q.x - P.x, p);
  }

  lemma SwappedQuotient(l: int, x1: int, y1: int, x2: int, y2: int, p: int)
    requires p > 0 && (l * (x1 - x2) - (y1 - y2)) % p == 0
    ensures (l * (x2 - x1) - (y2 - y1)) % p == 0
  {
    var e := l * (x1 - x2) - (y1 - y2);
    assert l * (x2 - x1) - (y2 - y1) == 0 - e;
    MultipleDifference(0, e, p);
  }

  /** Addition of curve points is commutative. */
  lemma AddCommutative(c: Curve, P: Point, Q: Point)
    requires ValidCurve(c) && OnCurve(c, P) && OnCurve(c, Q)
    ensures Add(c, P, Q) == Add(c, Q, P)
  {
    if P.Affine? && Q.Affine? {
      var p := c.p;
      NegInvolutive(c, P);
      NegInvolutive(c, Q);
      assert P == Neg(c, Q) <==> Q == Neg(c, P);
      if P != Neg(c, Q) && P != Q {
        SlopeSymmetric(c, P, Q);
        var l := Slope(c, P, Q);
        var x := (l * l - P.x - Q.x) % p;
        assert l * l - Q.x - P.x == l * l - P.x - Q.x;
        var e := l * (Q.x - P.x) - (Q.y - P.y);
        var y1, y2 := l * (P.x - x) - P.y, l * (Q.x - x) - Q.y;
        assert y1 - y2 == 0 - e;
        MultipleDifference(0, e, p);
        ModEqIffDivides(y1, y2, p);
        assert Add(c, P, Q) == Affine(x, y1 % p);
        assert Add(c, Q, P) == Affine(x, y2 % p);
      }
    }
  }

  // ---------------------------------------------------------------------
  // Scalar multiplication

  /**
   * The state of `__mul__`'s loop: with accumulator r, doubled point P and
   * remaining multiplier k, the value the loop ends with.
   */
  function MulLoop(c: Curve, r: Point, P: Point, k: nat): Point
    requires c.p > 0
    decreases k
  {
    if k == 0 then r
    else MulLoop(c, if k % 2 == 1 then Add(c, r, P) else r, Add(c, P, P), k / 2)
  }

  /** `P * k`: double-and-add for k >= 0, and -((-k) * P) for k < 0. */
  function ScalarMul(c: Curve, P: Point, k: int): Point
    requires c.p > 0
  {
    if k < 0 then Neg(c, MulLoop(c, Zero, P, -k)) else MulLoop(c, Zero, P, k)
  }

  /**
   * `EllipticPoint.__mul__`. For k >= 0 the loop runs bit_length(k) times;
   * a negative k recurses once on -k.
   */
  method Mul(c: Curve, P: Point, k: int) returns (R: Point, ghost steps: nat)
    requires c.p > 0
    ensures R == ScalarMul(c, P, k)
    ensures steps == BitLength(if k < 0 then -k else k)
    decreases if k < 0 then 1 else 0
  {
    if k < 0 {
      var S, s := Mul(c, P, -k);
      return Neg(c, S), s;
    }
    var p := P;
    var kk: nat := k;
    R := Zero;
    steps := 0;
    while kk > 0
      invariant MulLoop(c, R, p, kk) == MulLoop(c, Zero, P, k)
      invariant steps + BitLength(kk) == BitLength(k)
      decreases kk
    {
      if kk % 2 == 1 {
        R := Add(c, R, p);
      }
      kk := kk / 2;
      p := Add(c, p, p);
      steps := steps + 1;
    }
  }

  /** The loop keeps its accumulator and doubled point on the curve. */
  lemma {:induction false} MulLoopOnCurve(c: Curve, r: Point, P: Point, k: nat)
    requires ValidCurve(c) && OnCurve(c, r) && OnCurve(c, P)
    ensures OnCurve(c, MulLoop(c, r, P, k))
    decreases k
  {
    if k > 0 {
      AddOnCurve(c, r, P);
      AddOnCurve(c, P, P);
      MulLoopOnCurve(c, if k % 2 == 1 then Add(c, r, P) else r, Add(c, P, P), k / 2);
    }
  }

  /** Every multiple of a curve point lies on the curve. */
  lemma ScalarMulOnCurve(c: Curve, P: Point, k: int)
    requires ValidCurve(c) && OnCurve(c, P)
    ensures OnCurve(c, ScalarMul(c, P, k))
  {
    MulLoopOnCurve(c, Zero, P, if k < 0 then -k else k);
    if k < 0 {
      NegOnCurve(c, MulLoop(c, Zero, P, -k));
    }
  }

  /** (-k) * P is the negative of k * P for every integer k. */
  lemma ScalarMulNegate(c: Curve, P: Point, k: int)
    requires ValidCurve(c) && OnCurve(c, P)
    ensures ScalarMul(c, P, -k) == Neg(c, ScalarMul(c, P, k))
  {
    if k < 0 {
      MulLoopOnCurve(c, Zero, P, -k);
      NegInvolutive(c, MulLoop(c, Zero, P, -k));
    }
  }

  /** The loop from the identity on the identity stays at the identity. */
  lemma {:induction false} MulLoopOfZero(c: Curve, k: nat)
    requires c.p > 0
    ensures MulLoop(c, Zero, Zero, k) == Zero
    decreases k
  {
    if k > 0 {
      MulLoopOfZero(c, k / 2);
    }
  }

  /** Every multiple of the identity is the identity. */
  lemma ScalarMulOfZero(c: Curve, k: int)
    requires c.p > 0
    ensures ScalarMul(c, Zero, k) == Zero
  {
    MulLoopOfZero(c, if k < 0 then -k else k);
  }

  /** The first multiples: 0 * P is the identity, 1 * P = P, 2 * P = P + P, 3 * P = P + (P + P). */
  lemma ScalarMulSmall(c: Curve, P: Point)
    requires c.p > 0
    ensures ScalarMul(c, P, 0) == Zero && ScalarMul(c, P, 1) == P
    ensures ScalarMul(c, P, 2) == Add(c, P, P)
    ensures ScalarMul(c, P, 3) == Add(c, P, Add(c, P, P))
  {
    assert MulLoop(c, Zero, P, 1) == MulLoop(c, P, Add(c, P, P), 0);
    assert MulLoop(c, Zero, P, 2) == MulLoop(c, Zero, Add(c, P, P), 1);
    assert MulLoop(c, Zero, Add(c, P, P), 1) == MulLoop(c, Add(c, P, P), Add(c, Add(c, P, P), Add(c, P, P)), 0);
    assert MulLoop(c, Zero, P, 3) == MulLoop(c, P, Add(c, P, P), 1);
  }

  // ---------------------------------------------------------------------
  // The self-test `_test_ops` on E_19(1, 2)

  /** `__sub__`: P - Q is P + (-Q). */
  function Sub(c: Curve, P: Point, Q: Point): Point
    requires c.p > 0
  {
    Add(c, P, Neg(c, Q))
  }

  /**
   * Subtraction on the curve: P - Q stays on the curve, is the identity
   * exactly when P = Q, and subtracting the identity changes nothing.
   */
  lemma SubProperties(c: Curve, P: Point, Q: Point)
    requires ValidCurve(c) && OnCurve(c, P) && OnCurve(c, Q)
    ensures OnCurve(c, Sub(c, P, Q))
    ensures Sub(c, P, Q).Zero? <==> P == Q
    ensures Sub(c, P, Zero) == P && Sub(c, Zero, Q) == Neg(c, Q)
  {
    NegOnCurve(c, Q);
    AddOnCurve(c, P, Neg(c, Q));
    NegInvolutive(c, Q);
    if P == Q {
      AddNegSelf(c, P);
    }
  }

  const TestCurve := Curve(1, 2, 19)

  /** 19 is prime, so E_19(1, 2) is one of the curves the group law is proved for. */
  lemma TestCurveValid()
    ensures ValidCurve(TestCurve)
  {
    forall d: nat | 2 <= d < 19
      ensures !Divides(d, 19)
    {
      assert 19 % d != 0;
    }
  }

  /** The sum of two affine points that are not each other's negation, given its slope. */
  lemma AddWithSlope(c: Curve, P: Point, Q: Point, l: int, x: int, y: int)
    requires c.p > 0 && P.Affine? && Q.Affine? && P != Neg(c, Q) && Slope(c, P, Q) == l
    requires x == (l * l - P.x - Q.x) % c.p && y == (l * (P.x - x) - P.y) % c.p
    ensures Add(c, P, Q) == Affine(x, y)
  {
  }

  /** The slope of two affine points on E_19(1, 2) is the residue l solving l * d = n. */
  lemma TestSlope(P: Point, Q: Point, l: int, n: int, d: int)
    requires P.Affine? && Q.Affine? && 0 <= l < 19 && d % 19 != 0
    requires P == Q ==> n == 3 * P.x * P.x + 1 && d == 2 * P.y
    requires P != Q ==> n == Q.y - P.y && d == Q.x - P.x
    requires (l * d - n) % 19 == 0
    ensures Slope(TestCurve, P, Q) == l
  {
    TestCurveValid();
    QuotientUnique(Slope(TestCurve, P, Q), l, n, d, 19);
  }

  /** (1, 2) + (10, 10) = (17, 7) on E_19(1, 2), a chord with slope 3; in the other order too. */
  lemma TestChord()
    ensures Add(TestCurve, Affine(1, 2), Affine(10, 10)) == Affine(17, 7)
    ensures Add(TestCurve, Affine(10, 10), Affine(1, 2)) == Affine(17, 7)
  {
    TestSlope(Affine(1, 2), Affine(10, 10), 3, 8, 9);
    assert (-10) % 19 == 9;
    AddWithSlope(TestCurve, Affine(1, 2), Affine(10, 10), 3, 17, 7);
    TestSlope(Affine(10, 10), Affine(1, 2), 3, -8, -9);
    assert (-2) % 19 == 17;
    AddWithSlope(TestCurve, Affine(10, 10), Affine(1, 2), 3, 17, 7);
  }

  /** (1, 2) + (1, 2) = 2 * (1, 2) = (18, 0) on E_19(1, 2), a tangent with slope 1. */
  lemma TestDouble()
    ensures Add(TestCurve, Affine(1, 2), Affine(1, 2)) == Affine(18, 0)
    ensures ScalarMul(TestCurve, Affine(1, 2), 2) == Affine(18, 0)
  {
    TestSlope(Affine(1, 2), Affine(1, 2), 1, 4, 4);
    assert (-2) % 19 == 17;
    assert (-1) % 19 == 18 && (-19) % 19 == 0;
    AddWithSlope(TestCurve, Affine(1, 2), Affine(1, 2), 1, 18, 0);
    ScalarMulSmall(TestCurve, Affine(1, 2));
  }

  /** q - q is the identity and q + p - q = p for p = (1, 2), q = (10, 10). */
  lemma TestSub()
    ensures Sub(TestCurve, Affine(10, 10), Affine(10, 10)) == Zero
    ensures Sub(TestCurve, Add(TestCurve, Affine(10, 10), Affine(1, 2)), Affine(10, 10)) == Affine(1, 2)
  {
    assert Neg(TestCurve, Affine(10, 10)) == Affine(10, 9) by {
      assert (-10) % 19 == 9;
    }
    assert Neg(TestCurve, Affine(10, 9)) == Affine(10, 10) by {
      assert (-9) % 19 == 10;
    }
    assert Add(TestCurve, Affine(10, 10), Affine(1, 2)) == Affine(17, 7) by {
      TestChord();
    }
    TestChordBack();
  }

  /** (17, 7) + (10, 9) = (1, 2) on E_19(1, 2), a chord with slope 16. */
  lemma TestChordBack()
    ensures Add(TestCurve, Affine(17, 7), Affine(10, 9)) == Affine(1, 2)
  {
    TestSlope(Affine(17, 7), Affine(10, 9), 16, 2, -7);
    assert (-9) % 19 == 10;
    assert 229 % 19 == 1 && 249 % 19 == 2;
    AddWithSlope(TestCurve, Affine(17, 7), Affine(10, 9), 16, 1, 2);
  }

  /**
   * The accumulation loop of `_test_ops` from r = p = (1, 2): r runs through
   * (18, 0), (1, 17) and then the identity, so the loop ends well within
   * 19 * 19 steps with r the identity.
   */
  lemma TestOrder()
    ensures Add(TestCurve, Affine(1, 2), Affine(1, 2)) == Affine(18, 0)
    ensures Add(TestCurve, Affine(18, 0), Affine(1, 2)) == Affine(1, 17)
    ensures Add(TestCurve, Affine(1, 17), Affine(1, 2)) == Zero
  {
    TestDouble();
    assert Neg(TestCurve, Affine(1, 2)) == Affine(1, 17) by {
      assert (-2) % 19 == 17;
    }
    TestTriple();
  }

  lemma TestTriple()
    ensures Add(TestCurve, Affine(18, 0), Affine(1, 2)) == Affine(1, 17)
  {
    TestSlope(Affine(18, 0), Affine(1, 2), 1, 2, -17);
    assert (-2) % 19 == 17;
    assert (-18) % 19 == 1 && 17 % 19 == 17;
    AddWithSlope(TestCurve, Affine(18, 0), Affine(1, 2), 1, 1, 17);
  }
}
