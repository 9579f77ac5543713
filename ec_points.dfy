/**
 * `generate_curve_points` of lab2/ecdsa.py: brute-force enumeration of the
 * affine points of a curve, keeping each x whose right-hand side passes
 * Euler's criterion and taking the square root y2^((p+1)/4), which is a
 * root when p = 3 (mod 4).
 */
module EcPoints {
  import opened NumberTheory
  import opened CryptoLib
  import opened EcGroup
  import Fermat

  /** Euler's criterion for x: y2^((p-1)/2) mod p, with y2 the reduced right-hand side. */
  function Criterion(c: Curve, x: int): int
    requires c.p > 0
  {
    ModPow(Rhs(c, x) % c.p, (c.p - 1) / 2, c.p)
  }

  /** The candidate root y2^(p/4 + 1) mod p. */
  function Root(c: Curve, x: int): int
    requires c.p > 0
  {
    ModPow(Rhs(c, x) % c.p, c.p / 4 + 1, c.p)
  }

  /** What one iteration of the loop appends for x. */
  function PointsAt(c: Curve, x: int): seq<Point>
    requires c.p > 0
  {
    var l := Criterion(c, x);
    if l != 0 && l != 1 then []
    else
      var y := Root(c, x);
      [Affine(x, y)] + (if y != 0 then [Affine(x, (-y) % c.p)] else [])
  }

  /** The list after the iterations for x = 0 .. n - 1. */
  function PointsUpTo(c: Curve, n: nat): seq<Point>
    requires c.p > 0
  {
    if n == 0 then [] else PointsUpTo(c, n - 1) + PointsAt(c, n - 1)
  }

  /** `generate_curve_points(curve)`: x runs over range(p), which is empty for p <= 0. */
  method GenerateCurvePoints(c: Curve) returns (result: seq<Point>)
    ensures c.p <= 0 ==> result == []
    ensures c.p > 0 ==> result == PointsUpTo(c, c.p)
  {
    result := [];
    if c.p <= 0 {
      return;
    }
    var a, b, p := c.a, c.b, c.p;
    var m := p / 4;
    var x := 0;
    while x < p
      invariant 0 <= x <= p
      invariant result == PointsUpTo(c, x)
    {
      var y2 := (x * x * x + a * x + b) % p;
      var l := FastMul(y2, (p - 1) / 2, p);
      ghost var before := result;
      if l == 0 || l == 1 {
        var y := FastMul(y2, m + 1, p);
        result := result + [Affine(x, y)];
        if y != 0 {
          result := result + [Affine(x, (-y) % p)];
        }
        RowWithRoot(c, x, y2, l, y, before, result);
      } else {
        RowWithoutRoot(c, x, y2, l, before);
      }
      x := x + 1;
    }
  }

  /** One loop iteration for an x that passes the criterion appends PointsAt(c, x). */
  lemma RowWithRoot(c: Curve, x: nat, y2: int, l: int, y: int, before: seq<Point>, after: seq<Point>)
    requires c.p > 0 && y2 == (x * x * x + c.a * x + c.b) % c.p
    requires l == ModPow(y2, (c.p - 1) / 2, c.p) && (l == 0 || l == 1)
    requires y == ModPow(y2, c.p / 4 + 1, c.p)
    requires after == before + [Affine(x, y)] + (if y != 0 then [Affine(x, (-y) % c.p)] else [])
    requires before == PointsUpTo(c, x)
    ensures after == PointsUpTo(c, x + 1)
  {
    assert y2 == Rhs(c, x) % c.p;
    assert PointsAt(c, x) == [Affine(x, y)] + (if y != 0 then [Affine(x, (-y) % c.p)] else []);
    UpToStep(c, x, before, PointsAt(c, x));
  }

  /** One loop iteration for an x that fails the criterion appends nothing, as PointsAt(c, x) is empty. */
  lemma RowWithoutRoot(c: Curve, x: nat, y2: int, l: int, before: seq<Point>)
    requires c.p > 0 && y2 == (x * x * x + c.a * x + c.b) % c.p
    requires l == ModPow(y2, (c.p - 1) / 2, c.p) && l != 0 && l != 1
    requires before == PointsUpTo(c, x)
    ensures before == PointsUpTo(c, x + 1)
  {
    assert y2 == Rhs(c, x) % c.p;
    assert PointsAt(c, x) == [];
    UpToStep(c, x, before, []);
  }

  // ---------------------------------------------------------------------
  // Shape of the list

  /** Every listed point is affine with coordinates in [0, p) and x below n. */
  lemma {:induction false} PointsInRange(c: Curve, n: nat)
    requires c.p > 0
    ensures forall P :: P in PointsUpTo(c, n) ==>
      P.Affine? && 0 <= P.x < n && 0 <= P.y < c.p
  {
    if n > 0 {
      PointsInRange(c, n - 1);
      PointsAtShape(c, n - 1);
    }
  }

  /** Affine points whose x values never decrease along the list. */
  predicate Ascending(r: seq<Point>) {
    forall i, j :: 0 <= i < j < |r| ==> r[i].Affine? && r[j].Affine? && r[i].x <= r[j].x
  }

  /** The points listed for one x are affine points with that x and y in [0, p). */
  lemma PointsAtShape(c: Curve, x: int)
    requires c.p > 0
    ensures forall P :: P in PointsAt(c, x) ==> P.Affine? && P.x == x && 0 <= P.y < c.p
  {
    ModPowProperties(Rhs(c, x) % c.p, c.p / 4 + 1, c.p);
  }

  /**
   * The iteration for x appends nothing when Euler's criterion fails, the
   * single point (x, 0) when the root is 0, and otherwise the two points
   * (x, y) and (x, p - y) for the root y.
   */
  lemma PointsAtStructure(c: Curve, x: int)
    requires c.p > 0
    ensures var s, l, y := PointsAt(c, x), Criterion(c, x), Root(c, x);
      |s| <= 2 &&
      (|s| == 0 <==> l != 0 && l != 1) &&
      (|s| == 1 <==> (l == 0 || l == 1) && y == 0) &&
      (|s| >= 1 ==> s[0] == Affine(x, y)) &&
      (|s| == 2 ==> 0 < y < c.p && s[1] == Affine(x, c.p - y))
  {
    var y := Root(c, x);
    ModPowProperties(Rhs(c, x) % c.p, c.p / 4 + 1, c.p);
    if y != 0 {
      ModAddMultiple(-y, 1, c.p);
      ModSmall(c.p - y, c.p);
    }
  }

  /** What the ordering proof needs to know about the list before x and the points at x. */
  lemma StepBounds(c: Curve, x: nat, A: seq<Point>, B: seq<Point>)
    requires c.p > 0 && A == PointsUpTo(c, x) && B == PointsAt(c, x)
    ensures forall P :: P in A ==> P.Affine? && P.x < x
    ensures forall P :: P in B ==> P.Affine? && P.x == x
  {
    PointsInRange(c, x);
    PointsAtShape(c, x);
  }

  lemma AscendingAppend(r0: seq<Point>, r1: seq<Point>, x: int)
    requires Ascending(r0) && forall P :: P in r0 ==> P.Affine? && P.x < x
    requires forall P :: P in r1 ==> P.Affine? && P.x == x
    ensures Ascending(r0 + r1)
  {
    var r := r0 + r1;
    forall i, j | 0 <= i < j < |r|
      ensures r[i].Affine? && r[j].Affine? && r[i].x <= r[j].x
    {
      if j < |r0| {
        assert r[i] == r0[i] && r[j] == r0[j];
      } else if i < |r0| {
        assert r[i] == r0[i] && r[j] == r1[j - |r0|];
        assert r0[i] in r0 && r1[j - |r0|] in r1;
      } else {
        assert r[i] == r1[i - |r0|] && r[j] == r1[j - |r0|];
        assert r1[i - |r0|] in r1 && r1[j - |r0|] in r1;
      }
    }
  }

  /** The x values appear in ascending order. */
  lemma {:induction false} PointsAscending(c: Curve, n: nat)
    requires c.p > 0
    ensures Ascending(PointsUpTo(c, n))
  {
    if n > 0 {
      var A, B := PointsUpTo(c, n - 1), PointsAt(c, n - 1);
      assert PointsUpTo(c, n) == A + B;
      PointsAscending(c, n - 1);
      StepBounds(c, n - 1, A, B);
      AscendingAppend(A, B, n - 1);
    }
  }

  /** The points listed for x are exactly PointsAt(c, x), at x's place in the list. */
  lemma {:induction false} PointsAtListed(c: Curve, n: nat, x: int)
    requires c.p > 0 && 0 <= x < n
    ensures forall P :: P in PointsAt(c, x) ==> P in PointsUpTo(c, n)
  {
    if x < n - 1 {
      PointsAtListed(c, n - 1, x);
    }
  }

  // ---------------------------------------------------------------------
  // Soundness and completeness for p = 3 (mod 4)

  /** A prime dividing a power divides its base. */
  lemma {:induction false} PowMultipleOfPrime(a: int, n: nat, p: nat)
    requires IsPrime(p) && n >= 1 && Pow(a, n) % p == 0
    ensures a % p == 0
  {
    if n > 1 {
      Fermat.EuclidLemma(p, a, Pow(a, n - 1));
      if Pow(a, n - 1) % p == 0 {
        PowMultipleOfPrime(a, n - 1, p);
      }
    }
  }

  /** The square of the candidate root is y2^((p+1)/2) = y2 * y2^((p-1)/2) modulo p. */
  lemma RootSquared(c: Curve, x: int)
    requires c.p >= 3 && c.p % 4 == 3
    ensures var y2 := Rhs(c, x) % c.p;
      (Root(c, x) * Root(c, x)) % c.p == (y2 * Criterion(c, x)) % c.p
  {
    var p := c.p;
    var y2 := Rhs(c, x) % p;
    var m := p / 4;
    assert (p - 1) / 2 == 2 * m + 1 && p / 4 + 1 == m + 1;
    var r, e := Pow(y2, m + 1), Pow(y2, 2 * m + 1);
    assert Root(c, x) == r % p;
    assert Criterion(c, x) == e % p;
    assert r * r == y2 * e by {
      PowAdd(y2, m + 1, m + 1);
      assert (m + 1) + (m + 1) == 1 + (2 * m + 1);
      PowAdd(y2, 1, 2 * m + 1);
    }
    assert ((r % p) * (r % p)) % p == (r * r) % p by {
      ModMul(r, r, p);
    }
    assert (y2 * (e % p)) % p == (y2 * e) % p by {
      ModOfMod(e, p);
      MulCongruent(e % p, e, y2, p);
    }
  }

  /** Every point listed for x lies on the curve, when p is a prime = 3 (mod 4). */
  lemma PointsAtOnCurve(c: Curve, x: int)
    requires ValidCurve(c) && c.p % 4 == 3 && 0 <= x < c.p
    ensures forall P :: P in PointsAt(c, x) ==> OnCurve(c, P)
  {
    var p := c.p;
    var y2 := Rhs(c, x) % p;
    var l := Criterion(c, x);
    if l == 0 || l == 1 {
      var y := Root(c, x);
      ModPowProperties(y2, p / 4 + 1, p);
      ModPowProperties(y2, (p - 1) / 2, p);
      RootSquared(c, x);
      if l == 0 {
        PowMultipleOfPrime(y2, (p - 1) / 2, p);
        ModSmall(y2, p);
        assert (y * y) % p == 0;
      } else {
        ModSmall(1, p);
      }
      ModOfMod(Rhs(c, x), p);
      ModEqIffDivides(y * y, Rhs(c, x), p);
      assert OnCurve(c, Affine(x, y));
      NegOnCurve(c, Affine(x, y));
    }
  }

  /** Every listed point lies on the curve, when p is a prime = 3 (mod 4). */
  lemma {:induction false} PointsOnCurve(c: Curve, n: nat)
    requires ValidCurve(c) && c.p % 4 == 3 && n <= c.p
    ensures forall P :: P in PointsUpTo(c, n) ==> OnCurve(c, P)
  {
    if n > 0 {
      PointsOnCurve(c, n - 1);
      PointsAtOnCurve(c, n - 1);
      OnCurveConcat(c, PointsUpTo(c, n - 1), PointsAt(c, n - 1));
    }
  }

  lemma OnCurveConcat(c: Curve, A: seq<Point>, B: seq<Point>)
    requires c.p > 0
    requires forall P :: P in A ==> OnCurve(c, P)
    requires forall P :: P in B ==> OnCurve(c, P)
    ensures forall P :: P in A + B ==> OnCurve(c, P)
  {
  }

  /** Every affine point of the curve is listed, when p is a prime = 3 (mod 4). */
  lemma PointsComplete(c: Curve, P: Point)
    requires ValidCurve(c) && c.p % 4 == 3 && OnCurve(c, P) && P.Affine?
    ensures P in PointsUpTo(c, c.p)
  {
    var p, x, y := c.p, P.x, P.y;
    assert (y * y) % p == Rhs(c, x) % p by {
      ModOfMod(Rhs(c, x), p);
      ModEqIffDivides(y * y, Rhs(c, x), p);
    }
    if Rhs(c, x) % p == 0 {
      ListedWithZeroRoot(c, P);
    } else {
      ListedWithRoot(c, P);
    }
    PointsAtListed(c, p, x);
  }

  /** A curve point with y2 = 0 has y = 0 and is the one point listed for its x. */
  lemma ListedWithZeroRoot(c: Curve, P: Point)
    requires ValidCurve(c) && c.p % 4 == 3 && OnCurve(c, P) && P.Affine?
    requires (P.y * P.y) % c.p == Rhs(c, P.x) % c.p == 0
    ensures P in PointsAt(c, P.x)
  {
    var p := c.p;
    Fermat.EuclidLemma(p, P.y, P.y);
    ModSmall(P.y, p);
    PowZeroBase((p - 1) / 2);
    PowZeroBase(p / 4 + 1);
    assert Root(c, P.x) == 0;
  }

  /** A curve point with y2 != 0 is one of the two roots listed for its x. */
  lemma ListedWithRoot(c: Curve, P: Point)
    requires ValidCurve(c) && c.p % 4 == 3 && OnCurve(c, P) && P.Affine?
    requires (P.y * P.y) % c.p == Rhs(c, P.x) % c.p != 0
    ensures P in PointsAt(c, P.x)
  {
    var p, x := c.p, P.x;
    var r := Root(c, x);
    assert Criterion(c, x) == 1 by {
      CriterionOfSquare(c, x, P.y);
    }
    assert r != 0 by {
      RootSquared(c, x);
      ModOfMod(Rhs(c, x), p);
      ModSmall(0, p);
    }
    assert PointsAt(c, x) == [Affine(x, r), Affine(x, (-r) % p)];
    assert OnCurve(c, Affine(x, r)) by {
      PointsAtOnCurve(c, x);
    }
    SameAbscissa(c, P, Affine(x, r));
  }

  /** For a non-zero y2 = y^2, Euler's criterion computes 1 (Fermat's little theorem). */
  lemma CriterionOfSquare(c: Curve, x: int, y: int)
    requires ValidCurve(c) && c.p % 4 == 3 && 0 <= y < c.p
    requires (y * y) % c.p == Rhs(c, x) % c.p && Rhs(c, x) % c.p != 0
    ensures Criterion(c, x) == 1
  {
    var p := c.p;
    var y2 := Rhs(c, x) % p;
    var k := (p - 1) / 2;
    ModPowProperties(y2, k, p);
    PowMod(y * y, k, p);
    assert Pow(y, 2) == y * y;
    PowMul(y, 2, k);
    assert 2 * k == p - 1;
    if y % p == 0 {
      MultipleProduct(y, y, p);
    }
    Fermat.FermatLittle(y, p);
  }

  /**
   * With p a prime = 3 (mod 4), the list holds exactly the affine points
   * of the curve, in ascending order of x, all with reduced coordinates.
   */
  lemma GeneratedPointsExact(c: Curve)
    requires ValidCurve(c) && c.p % 4 == 3
    ensures forall P :: P in PointsUpTo(c, c.p) <==> P.Affine? && OnCurve(c, P)
  {
    PointsInRange(c, c.p);
    PointsOnCurve(c, c.p);
    forall P: Point | P.Affine? && OnCurve(c, P)
      ensures P in PointsUpTo(c, c.p)
    {
      PointsComplete(c, P);
    }
  }

  /**
   * `_test_generate_curve_points`: on E_19(1, 2) the enumeration returns the
   * eleven points the self-test expects, in this order.
   */
  method TestGenerateCurvePoints() returns (points: seq<Point>)
    ensures points == [Affine(1, 17), Affine(1, 2), Affine(8, 16), Affine(8, 3), Affine(10, 9), Affine(10, 10), Affine(14, 9), Affine(14, 10), Affine(17, 7), Affine(17, 12), Affine(18, 0)]
  {
    points := GenerateCurvePoints(TestCurve);
    TestPointsListed(TestCurve);
  }

  /** The enumeration on E_19(1, 2), one abscissa at a time. */
  lemma TestPointsListed(c: Curve)
    requires c == TestCurve
    ensures PointsUpTo(c, 19) == [Affine(1, 17), Affine(1, 2), Affine(8, 16), Affine(8, 3), Affine(10, 9), Affine(10, 10), Affine(14, 9), Affine(14, 10), Affine(17, 7), Affine(17, 12), Affine(18, 0)]
  {
    TestPointsAt0();
    TestPointsAt1();
    TestPointsAt2();
    TestPointsAt3();
    TestPointsAt4();
    TestPointsAt5();
    TestPointsAt6();
    TestPointsAt7();
    TestPointsAt8();
    TestPointsAt9();
    TestPointsAt10();
    TestPointsAt11();
    TestPointsAt12();
    TestPointsAt13();
    TestPointsAt14();
    TestPointsAt15();
    TestPointsAt16();
    TestPointsAt17();
    TestPointsAt18();
    ListedFromRows(c);
  }

  /** The list after 19 iterations, from what each iteration appends. */
  lemma ListedFromRows(c: Curve)
    requires c.p > 0
    requires PointsAt(c, 0) == []
    requires PointsAt(c, 1) == [Affine(1, 17), Affine(1, 2)]
    requires PointsAt(c, 2) == []
    requires PointsAt(c, 3) == []
    requires PointsAt(c, 4) == []
    requires PointsAt(c, 5) == []
    requires PointsAt(c, 6) == []
    requires PointsAt(c, 7) == []
    requires PointsAt(c, 8) == [Affine(8, 16), Affine(8, 3)]
    requires PointsAt(c, 9) == []
    requires PointsAt(c, 10) == [Affine(10, 9), Affine(10, 10)]
    requires PointsAt(c, 11) == []
    requires PointsAt(c, 12) == []
    requires PointsAt(c, 13) == []
    requires PointsAt(c, 14) == [Affine(14, 9), Affine(14, 10)]
    requires PointsAt(c, 15) == []
    requires PointsAt(c, 16) == []
    requires PointsAt(c, 17) == [Affine(17, 7), Affine(17, 12)]
    requires PointsAt(c, 18) == [Affine(18, 0)]
    ensures PointsUpTo(c, 19) == [Affine(1, 17), Affine(1, 2), Affine(8, 16), Affine(8, 3), Affine(10, 9), Affine(10, 10), Affine(14, 9), Affine(14, 10), Affine(17, 7), Affine(17, 12), Affine(18, 0)]
  {
    assert PointsUpTo(c, 0) == [];
    UpToStep(c, 0, [], []);
    UpToStep(c, 1, [], [Affine(1, 17), Affine(1, 2)]);
    UpToStep(c, 2, [Affine(1, 17), Affine(1, 2)], []);
    UpToStep(c, 3, [Affine(1, 17), Affine(1, 2)], []);
    UpToStep(c, 4, [Affine(1, 17), Affine(1, 2)], []);
    UpToStep(c, 5, [Affine(1, 17), Affine(1, 2)], []);
    UpToStep(c, 6, [Affine(1, 17), Affine(1, 2)], []);
    UpToStep(c, 7, [Affine(1, 17), Affine(1, 2)], []);
    UpToStep(c, 8, [Affine(1, 17), Affine(1, 2)], [Affine(8, 16), Affine(8, 3)]);
    UpToStep(c, 9, [Affine(1, 17), Affine(1, 2), Affine(8, 16), Affine(8, 3)], []);
    UpToStep(c, 10, [Affine(1, 17), Affine(1, 2), Affine(8, 16), Affine(8, 3)], [Affine(10, 9), Affine(10, 10)]);
    UpToStep(c, 11, [Affine(1, 17), Affine(1, 2), Affine(8, 16), Affine(8, 3), Affine(10, 9), Affine(10, 10)], []);
    UpToStep(c, 12, [Affine(1, 17), Affine(1, 2), Affine(8, 16), Affine(8, 3), Affine(10, 9), Affine(10, 10)], []);
    UpToStep(c, 13, [Affine(1, 17), Affine(1, 2), Affine(8, 16), Affine(8, 3), Affine(10, 9), Affine(10, 10)], []);
    UpToStep(c, 14, [Affine(1, 17), Affine(1, 2), Affine(8, 16), Affine(8, 3), Affine(10, 9), Affine(10, 10)], [Affine(14, 9), Affine(14, 10)]);
    UpToStep(c, 15, [Affine(1, 17), Affine(1, 2), Affine(8, 16), Affine(8, 3), Affine(10, 9), Affine(10, 10), Affine(14, 9), Affine(14, 10)], []);
    UpToStep(c, 16, [Affine(1, 17), Affine(1, 2), Affine(8, 16), Affine(8, 3), Affine(10, 9), Affine(10, 10), Affine(14, 9), Affine(14, 10)], []);
    UpToStep(c, 17, [Affine(1, 17), Affine(1, 2), Affine(8, 16), Affine(8, 3), Affine(10, 9), Affine(10, 10), Affine(14, 9), Affine(14, 10)], [Affine(17, 7), Affine(17, 12)]);
    UpToStep(c, 18, [Affine(1, 17), Affine(1, 2), Affine(8, 16), Affine(8, 3), Affine(10, 9), Affine(10, 10), Affine(14, 9), Affine(14, 10), Affine(17, 7), Affine(17, 12)], [Affine(18, 0)]);
  }

  /** One more iteration of the enumeration appends the points at abscissa n. */
  lemma UpToStep(c: Curve, n: nat, A: seq<Point>, B: seq<Point>)
    requires c.p > 0 && PointsUpTo(c, n) == A && PointsAt(c, n) == B
    ensures PointsUpTo(c, n + 1) == A + B
  {
  }

  /** An x whose right-hand side y2 fails Euler's criterion has no points. */
  lemma NoPointsAt(c: Curve, x: int, y2: int)
    requires c.p > 2 && Rhs(c, x) % c.p == y2 && ModPow(y2, (c.p - 1) / 2, c.p) == c.p - 1
    ensures PointsAt(c, x) == []
  {
  }

  /** An x whose right-hand side y2 passes Euler's criterion with a nonzero root y has the points y and -y. */
  lemma TwoPointsAt(c: Curve, x: int, y2: int, y: int, z: int)
    requires c.p > 2 && Rhs(c, x) % c.p == y2 && ModPow(y2, (c.p - 1) / 2, c.p) == 1
    requires ModPow(y2, c.p / 4 + 1, c.p) == y && y != 0 && z == (-y) % c.p
    ensures PointsAt(c, x) == [Affine(x, y), Affine(x, z)]
  {
  }

  /** An x whose right-hand side is 0 modulo p has the single point (x, 0). */
  lemma ZeroPointAt(c: Curve, x: int)
    requires c.p > 2 && Rhs(c, x) % c.p == 0
    ensures PointsAt(c, x) == [Affine(x, 0)]
  {
    PowZeroBase((c.p - 1) / 2);
    PowZeroBase(c.p / 4 + 1);
    ModSmall(0, c.p);
    assert Criterion(c, x) == 0 && Root(c, x) == 0;
  }

  lemma TestPointsAt0()
    ensures PointsAt(TestCurve, 0) == []
  {
    TestRhsValues();
    PowersOf2();
    NoPointsAt(TestCurve, 0, 2);
  }

  lemma TestPointsAt1()
    ensures PointsAt(TestCurve, 1) == [Affine(1, 17), Affine(1, 2)]
  {
    TestRhsValues();
    PowersOf4();
    TwoPointsAt(TestCurve, 1, 4, 17, 2);
  }

  lemma TestPointsAt2()
    ensures PointsAt(TestCurve, 2) == []
  {
    TestRhsValues();
    PowersOf12();
    NoPointsAt(TestCurve, 2, 12);
  }

  lemma TestPointsAt3()
    ensures PointsAt(TestCurve, 3) == []
  {
    TestRhsValues();
    PowersOf13();
    NoPointsAt(TestCurve, 3, 13);
  }

  lemma TestPointsAt4()
    ensures PointsAt(TestCurve, 4) == []
  {
    TestRhsValues();
    PowersOf13();
    NoPointsAt(TestCurve, 4, 13);
  }

  lemma TestPointsAt5()
    ensures PointsAt(TestCurve, 5) == []
  {
    TestRhsValues();
    PowersOf18();
    NoPointsAt(TestCurve, 5, 18);
  }

  lemma TestPointsAt6()
    ensures PointsAt(TestCurve, 6) == []
  {
    TestRhsValues();
    PowersOf15();
    NoPointsAt(TestCurve, 6, 15);
  }

  lemma TestPointsAt7()
    ensures PointsAt(TestCurve, 7) == []
  {
    TestRhsValues();
    PowersOf10();
    NoPointsAt(TestCurve, 7, 10);
  }

  lemma TestPointsAt8()
    ensures PointsAt(TestCurve, 8) == [Affine(8, 16), Affine(8, 3)]
  {
    TestRhsValues();
    PowersOf9();
    TwoPointsAt(TestCurve, 8, 9, 16, 3);
  }

  lemma TestPointsAt9()
    ensures PointsAt(TestCurve, 9) == []
  {
    TestRhsValues();
    PowersOf18();
    NoPointsAt(TestCurve, 9, 18);
  }

  lemma TestPointsAt10()
    ensures PointsAt(TestCurve, 10) == [Affine(10, 9), Affine(10, 10)]
  {
    TestRhsValues();
    PowersOf5();
    TwoPointsAt(TestCurve, 10, 5, 9, 10);
  }

  lemma TestPointsAt11()
    ensures PointsAt(TestCurve, 11) == []
  {
    TestRhsValues();
    PowersOf14();
    NoPointsAt(TestCurve, 11, 14);
  }

  lemma TestPointsAt12()
    ensures PointsAt(TestCurve, 12) == []
  {
    TestRhsValues();
    PowersOf13();
    NoPointsAt(TestCurve, 12, 13);
  }

  lemma TestPointsAt13()
    ensures PointsAt(TestCurve, 13) == []
  {
    TestRhsValues();
    PowersOf8();
    NoPointsAt(TestCurve, 13, 8);
  }

  lemma TestPointsAt14()
    ensures PointsAt(TestCurve, 14) == [Affine(14, 9), Affine(14, 10)]
  {
    TestRhsValues();
    PowersOf5();
    TwoPointsAt(TestCurve, 14, 5, 9, 10);
  }

  lemma TestPointsAt15()
    ensures PointsAt(TestCurve, 15) == []
  {
    TestRhsValues();
    PowersOf10();
    NoPointsAt(TestCurve, 15, 10);
  }

  lemma TestPointsAt16()
    ensures PointsAt(TestCurve, 16) == []
  {
    TestRhsValues();
    PowersOf10();
    NoPointsAt(TestCurve, 16, 10);
  }

  lemma TestPointsAt17()
    ensures PointsAt(TestCurve, 17) == [Affine(17, 7), Affine(17, 12)]
  {
    TestRhsValues();
    PowersOf11();
    TwoPointsAt(TestCurve, 17, 11, 7, 12);
  }

  lemma TestPointsAt18()
    ensures PointsAt(TestCurve, 18) == [Affine(18, 0)]
  {
    TestRhsValues();
    ZeroPointAt(TestCurve, 18);
  }

  /** The right-hand side x^3 + x + 2 modulo 19 for each x in range(19). */
  lemma TestRhsValues()
    ensures Rhs(TestCurve, 0) % 19 == 2
    ensures Rhs(TestCurve, 1) % 19 == 4
    ensures Rhs(TestCurve, 2) % 19 == 12
    ensures Rhs(TestCurve, 3) % 19 == 13
    ensures Rhs(TestCurve, 4) % 19 == 13
    ensures Rhs(TestCurve, 5) % 19 == 18
    ensures Rhs(TestCurve, 6) % 19 == 15
    ensures Rhs(TestCurve, 7) % 19 == 10
    ensures Rhs(TestCurve, 8) % 19 == 9
    ensures Rhs(TestCurve, 9) % 19 == 18
    ensures Rhs(TestCurve, 10) % 19 == 5
    ensures Rhs(TestCurve, 11) % 19 == 14
    ensures Rhs(TestCurve, 12) % 19 == 13
    ensures Rhs(TestCurve, 13) % 19 == 8
    ensures Rhs(TestCurve, 14) % 19 == 5
    ensures Rhs(TestCurve, 15) % 19 == 10
    ensures Rhs(TestCurve, 16) % 19 == 10
    ensures Rhs(TestCurve, 17) % 19 == 11
    ensures Rhs(TestCurve, 18) % 19 == 0
  {
  }

  lemma PowersOf2()
    ensures ModPow(2, 9, 19) == 18
  {
    assert Pow(2, 1) == 2;
    assert Pow(2, 2) == 4;
    assert Pow(2, 3) == 8;
    assert Pow(2, 4) == 16;
    assert Pow(2, 5) == 32;
    assert Pow(2, 6) == 64;
    assert Pow(2, 7) == 128;
    assert Pow(2, 8) == 256;
    assert Pow(2, 9) == 512;
  }

  lemma PowersOf4()
    ensures ModPow(4, 9, 19) == 1 && ModPow(4, 5, 19) == 17 && (-17) % 19 == 2
  {
    assert Pow(4, 1) == 4;
    assert Pow(4, 2) == 16;
    assert Pow(4, 3) == 64;
    assert Pow(4, 4) == 256;
    assert Pow(4, 5) == 1024;
    assert Pow(4, 6) == 4096;
    assert Pow(4, 7) == 16384;
    assert Pow(4, 8) == 65536;
    assert Pow(4, 9) == 262144;
  }

  lemma PowersOf5()
    ensures ModPow(5, 9, 19) == 1 && ModPow(5, 5, 19) == 9 && (-9) % 19 == 10
  {
    assert Pow(5, 1) == 5;
    assert Pow(5, 2) == 25;
    assert Pow(5, 3) == 125;
    assert Pow(5, 4) == 625;
    assert Pow(5, 5) == 3125;
    assert Pow(5, 6) == 15625;
    assert Pow(5, 7) == 78125;
    assert Pow(5, 8) == 390625;
    assert Pow(5, 9) == 1953125;
  }

  lemma PowersOf8()
    ensures ModPow(8, 9, 19) == 18
  {
    assert Pow(8, 1) == 8;
    assert Pow(8, 2) == 64;
    assert Pow(8, 3) == 512;
    assert Pow(8, 4) == 4096;
    assert Pow(8, 5) == 32768;
    assert Pow(8, 6) == 262144;
    assert Pow(8, 7) == 2097152;
    assert Pow(8, 8) == 16777216;
    assert Pow(8, 9) == 134217728;
  }

  lemma PowersOf9()
    ensures ModPow(9, 9, 19) == 1 && ModPow(9, 5, 19) == 16 && (-16) % 19 == 3
  {
    assert Pow(9, 1) == 9;
    assert Pow(9, 2) == 81;
    assert Pow(9, 3) == 729;
    assert Pow(9, 4) == 6561;
    assert Pow(9, 5) == 59049;
    assert Pow(9, 6) == 531441;
    assert Pow(9, 7) == 4782969;
    assert Pow(9, 8) == 43046721;
    assert Pow(9, 9) == 387420489;
  }

  lemma PowersOf10()
    ensures ModPow(10, 9, 19) == 18
  {
    assert Pow(10, 1) == 10;
    assert Pow(10, 2) == 100;
    assert Pow(10, 3) == 1000;
    assert Pow(10, 4) == 10000;
    assert Pow(10, 5) == 100000;
    assert Pow(10, 6) == 1000000;
    assert Pow(10, 7) == 10000000;
    assert Pow(10, 8) == 100000000;
    assert Pow(10, 9) == 1000000000;
  }

  lemma PowersOf11()
    ensures ModPow(11, 9, 19) == 1 && ModPow(11, 5, 19) == 7 && (-7) % 19 == 12
  {
    assert Pow(11, 1) == 11;
    assert Pow(11, 2) == 121;
    assert Pow(11, 3) == 1331;
    assert Pow(11, 4) == 14641;
    assert Pow(11, 5) == 161051;
    assert Pow(11, 6) == 1771561;
    assert Pow(11, 7) == 19487171;
    assert Pow(11, 8) == 214358881;
    assert Pow(11, 9) == 2357947691;
  }

  lemma PowersOf12()
    ensures ModPow(12, 9, 19) == 18
  {
    assert Pow(12, 1) == 12;
    assert Pow(12, 2) == 144;
    assert Pow(12, 3) == 1728;
    assert Pow(12, 4) == 20736;
    assert Pow(12, 5) == 248832;
    assert Pow(12, 6) == 2985984;
    assert Pow(12, 7) == 35831808;
    assert Pow(12, 8) == 429981696;
    assert Pow(12, 9) == 5159780352;
  }

  lemma PowersOf13()
    ensures ModPow(13, 9, 19) == 18
  {
    assert Pow(13, 1) == 13;
    assert Pow(13, 2) == 169;
    assert Pow(13, 3) == 2197;
    assert Pow(13, 4) == 28561;
    assert Pow(13, 5) == 371293;
    assert Pow(13, 6) == 4826809;
    assert Pow(13, 7) == 62748517;
    assert Pow(13, 8) == 815730721;
    assert Pow(13, 9) == 10604499373;
  }

  lemma PowersOf14()
    ensures ModPow(14, 9, 19) == 18
  {
    assert Pow(14, 1) == 14;
    assert Pow(14, 2) == 196;
    assert Pow(14, 3) == 2744;
    assert Pow(14, 4) == 38416;
    assert Pow(14, 5) == 537824;
    assert Pow(14, 6) == 7529536;
    assert Pow(14, 7) == 105413504;
    assert Pow(14, 8) == 1475789056;
    assert Pow(14, 9) == 20661046784;
  }

  lemma PowersOf15()
    ensures ModPow(15, 9, 19) == 18
  {
    assert Pow(15, 1) == 15;
    assert Pow(15, 2) == 225;
    assert Pow(15, 3) == 3375;
    assert Pow(15, 4) == 50625;
    assert Pow(15, 5) == 759375;
    assert Pow(15, 6) == 11390625;
    assert Pow(15, 7) == 170859375;
    assert Pow(15, 8) == 2562890625;
    assert Pow(15, 9) == 38443359375;
  }

  lemma PowersOf18()
    ensures ModPow(18, 9, 19) == 18
  {
    assert Pow(18, 1) == 18;
    assert Pow(18, 2) == 324;
    assert Pow(18, 3) == 5832;
    assert Pow(18, 4) == 104976;
    assert Pow(18, 5) == 1889568;
    assert Pow(18, 6) == 34012224;
    assert Pow(18, 7) == 612220032;
    assert Pow(18, 8) == 11019960576;
    assert Pow(18, 9) == 198359290368;
  }
}
