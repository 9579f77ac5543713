/**
 * The ECDSA-style scheme inside `main` of lab2/ecdsa.py, lifted into
 * separate operations: the search for a base point of largest prime order
 * among the enumerated curve points, key generation Q = d * P, the signing
 * retry loop and the verification of (r, s). The message is a plain integer
 * t in [0, n) (no hash), and the random draws d, t and k are parameters.
 */
module Ecdsa {
  import opened Wrappers
  import opened NumberTheory
  import opened CryptoLib
  import opened EcGroup
  import Sieve

  // ---------------------------------------------------------------------
  // Order search

  /** The accumulator of the inner search loop after i steps of `p_acc += pp`. */
  function Multiple(c: Curve, P: Point, i: nat): Point
    requires c.p > 0
  {
    if i == 0 then Zero else Add(c, Multiple(c, P, i - 1), P)
  }

  /**
   * The order the search records for P: the least i in [1, m] whose
   * multiple is the identity, or 0 when there is none.
   */
  function Order(c: Curve, P: Point, m: nat): (o: nat)
    requires c.p > 0
    ensures o <= m
    ensures o == 0 ==> forall i: nat :: 1 <= i <= m ==> !Multiple(c, P, i).Zero?
    ensures o != 0 ==> Multiple(c, P, o).Zero? && forall i: nat :: 1 <= i < o ==> !Multiple(c, P, i).Zero?
  {
    if m == 0 then 0
    else
      var o := Order(c, P, m - 1);
      if o != 0 then o
      else if Multiple(c, P, m).Zero? then m
      else 0
  }

  /**
   * The inner loop `for i in range(1, m + 1)`: add P until the identity is
   * reached, breaking there; 0 when the identity never appears.
   */
  method FirstZeroMultiple(c: Curve, P: Point, m: nat) returns (o: nat)
    requires c.p > 0
    ensures o == Order(c, P, m)
  {
    var acc := Zero;
    var i := 1;
    while i <= m
      invariant 1 <= i <= m + 1
      invariant acc == Multiple(c, P, i - 1)
      invariant Order(c, P, i - 1) == 0
    {
      acc := Add(c, acc, P);
      if acc.Zero? {
        OrderFound(c, P, i, m);
        return i;
      }
      i := i + 1;
    }
    return 0;
  }

  /** Once the first zero multiple is at i, every longer search finds it too. */
  lemma {:induction false} OrderFound(c: Curve, P: Point, i: nat, m: nat)
    requires c.p > 0 && 1 <= i <= m
    requires Order(c, P, i - 1) == 0 && Multiple(c, P, i).Zero?
    ensures Order(c, P, m) == i
    decreases m
  {
    if m > i {
      OrderFound(c, P, i, m - 1);
    }
  }

  /**
   * o is in `set(generate_primes(m))`: the sieve with the code's loop bound
   * (m + 1) // 2, which lists the primes up to m and, for m = 4, also 4.
   */
  predicate SieveListed(o: nat, m: nat) {
    o <= m && Sieve.Survives(o, (m + 1) / 2)
  }

  /** A listed order is prime, except 4 when the curve order is 4. */
  lemma ListedOrder(o: nat, m: nat)
    requires m >= 1 && SieveListed(o, m)
    ensures IsPrime(o) || (o == 4 && m == 4)
  {
    if m != 4 {
      Sieve.GeneratePrimesBound(m);
    } else if o < 4 {
      Sieve.SmallSurvivors(o, (m + 1) / 2);
    }
  }

  /** Point j has a listed order of at least bound. */
  ghost predicate ListedOrderAtLeast(c: Curve, points: seq<Point>, j: int, bound: nat)
    requires c.p > 0 && 0 <= j < |points|
  {
    var m := |points| + 1;
    var o := Order(c, points[j], m);
    SieveListed(o, m) && o >= bound
  }

  /**
   * The search of `main` over the enumerated `points`, with curve_order =
   * len(points) + 1 and the orders it accepts taken from
   * `generate_primes(curve_order)`. The result is the first point whose
   * order is listed and largest among the listed orders, with that order;
   * None and 0 when no order is listed. The order found is prime except on
   * a curve of order 4, where an element of order 4 is accepted.
   */
  method FindBasePoint(c: Curve, points: seq<Point>) returns (P: Option<Point>, n: nat)
    requires c.p > 0
    ensures var m := |points| + 1;
      forall j :: 0 <= j < |points| && SieveListed(Order(c, points[j], m), m) ==>
        Order(c, points[j], m) <= n
    ensures P.None? <==> n == 0
    ensures P.None? ==> forall j :: 0 <= j < |points| ==>
      !SieveListed(Order(c, points[j], |points| + 1), |points| + 1)
    ensures P.Some? ==> exists k :: (0 <= k < |points| && P.value == points[k] &&
      n == Order(c, points[k], |points| + 1) && SieveListed(n, |points| + 1) &&
      forall j :: 0 <= j < k ==> !ListedOrderAtLeast(c, points, j, n))
    ensures P.Some? ==> IsPrime(n) || (n == 4 && |points| == 3)
    ensures |points| != 3 && P.None? ==>
      forall j :: 0 <= j < |points| ==> !IsPrime(Order(c, points[j], |points| + 1))
  {
    var curveOrder := |points| + 1;
    var primes := Sieve.GeneratePrimes(curveOrder);
    P, n := None, 0;
    ghost var k := 0;
    var idx := 0;
    while idx < |points|
      invariant 0 <= idx <= |points|
      invariant P.None? <==> n == 0
      invariant forall j :: 0 <= j < idx && SieveListed(Order(c, points[j], curveOrder), curveOrder) ==>
        Order(c, points[j], curveOrder) <= n
      invariant P.Some? ==> (0 <= k < idx && P.value == points[k] &&
        n == Order(c, points[k], curveOrder) && SieveListed(n, curveOrder) &&
        forall j :: 0 <= j < k ==> !ListedOrderAtLeast(c, points, j, n))
      invariant P.Some? ==> IsPrime(n) || (n == 4 && curveOrder == 4)
    {
      var pp := points[idx];
      var i := FirstZeroMultiple(c, pp, curveOrder);
      if i != 0 && i > n && i in primes.value {
        ListedOrder(i, curveOrder);
        forall j | 0 <= j < idx
          ensures !ListedOrderAtLeast(c, points, j, i)
        {
        }
        n, P := i, Some(pp);
        k := idx;
      } else {
        assert i != 0 && i in primes.value ==> i <= n;
      }
      idx := idx + 1;
    }
    if |points| != 3 {
      Sieve.GeneratePrimesBound(curveOrder);
    }
  }

  // ---------------------------------------------------------------------
  // Keys

  datatype PublicKey = PublicKey(a: int, b: int, P: Point, n: nat, Q: Point)
  datatype Keypair = Keypair(publicKey: PublicKey, privateKey: nat)

  /**
   * `d = random.randrange(1, n); q = d * p`: the draw d is a parameter in
   * [1, n). An order below 2 leaves the range empty (ValueError); a missing
   * base point cannot be multiplied (TypeError).
   */
  function MakeKeypair(c: Curve, P: Option<Point>, n: nat, d: nat): (res: Result<Keypair>)
    requires c.p > 0
    requires n >= 2 ==> 1 <= d < n
    ensures n < 2 ==> res == Raised(ValueError)
    ensures n >= 2 && P.None? ==> res == Raised(TypeError)
    ensures n >= 2 && P.Some? ==> (res.Ok? &&
      res.value.privateKey == d && 1 <= d < n &&
      res.value.publicKey == PublicKey(c.a, c.b, P.value, n, ScalarMul(c, P.value, d)))
  {
    if n < 2 then Raised(ValueError)
    else if P.None? then Raised(TypeError)
    else Ok(Keypair(PublicKey(c.a, c.b, P.value, n, ScalarMul(c, P.value, d)), d))
  }

  /** On a valid curve the public point Q lies on the curve with P. */
  lemma PublicPointOnCurve(c: Curve, P: Point, n: nat, d: nat)
    requires ValidCurve(c) && OnCurve(c, P) && 1 <= d < n
    ensures MakeKeypair(c, Some(P), n, d).Ok?
    ensures OnCurve(c, MakeKeypair(c, Some(P), n, d).value.publicKey.Q)
  {
    ScalarMulOnCurve(c, P, d);
  }

  // ---------------------------------------------------------------------
  // Signing

  datatype Signature = Signature(r: nat, s: nat)

  /**
   * One pass of the signing loop with draw k: r = x(k * P) mod n and
   * s = k^-1 (t + d r) mod n; None when r or s is 0 (the loop continues),
   * TypeError when k * P is the identity (its x is None).
   */
  function Attempt(c: Curve, P: Point, n: nat, d: nat, t: nat, k: nat): (a: Result<Option<Signature>>)
    requires c.p > 0 && n >= 1
    ensures a.Raised? <==> ScalarMul(c, P, k).Zero?
    ensures a.Raised? ==> a.error == TypeError
    ensures a.Ok? && a.value.Some? ==>
      var sig := a.value.value;
      1 <= sig.r < n && 1 <= sig.s < n && sig.r == ScalarMul(c, P, k).x % n
    ensures a.Ok? && a.value.Some? && IsPrime(n) && 1 <= k < n ==>
      var sig := a.value.value;
      (sig.s * k - (t + d * sig.r)) % n == 0
  {
    var R := ScalarMul(c, P, k);
    if R.Zero? then Raised(TypeError)
    else
      var r := R.x % n;
      if r == 0 then Ok(None)
      else
        var s := (InverseInGroup(k, n) * (t + d * r)) % n;
        if s == 0 then Ok(None)
        else
          SignCongruence(n, k, t + d * r);
          Ok(Some(Signature(r, s)))
  }

  /** Over a prime n, s = k^-1 u mod n satisfies s k = u modulo n. */
  lemma SignCongruence(n: nat, k: nat, u: int)
    requires n >= 1
    ensures IsPrime(n) && 1 <= k < n ==> (((InverseInGroup(k, n) * u) % n) * k - u) % n == 0
  {
    if IsPrime(n) && 1 <= k < n {
      InverseModPrime(k, n);
      ModSmall(1, n);
      InverseCancel(InverseInGroup(k, n), k, u, n);
    }
  }

  /** For an inverse l of k modulo n, ((l * u) mod n) * k is u modulo n. */
  lemma InverseCancel(l: int, k: int, u: int, n: int)
    requires n >= 1 && (k * l) % n == 1 % n
    ensures (((l * u) % n) * k - u) % n == 0
  {
    ModEqIffDivides(k * l, 1, n);
    var m := (k * l - 1) / n;
    assert k * l - 1 == m * n;
    var q := (l * u) / n;
    var v := (l * u) % n;
    assert l * u == q * n + v;
    assert v * k - u == (l * u - q * n) * k - u;
    assert (l * u - q * n) * k - u == u * (k * l - 1) - (q * k) * n;
    assert u * (k * l - 1) == (u * m) * n;
    assert v * k - u == (u * m - q * k) * n;
    ModAddMultiple(0, u * m - q * k, n);
  }

  /** The draw ends the loop: it raises or yields a signature. */
  predicate Stops(c: Curve, P: Point, n: nat, d: nat, t: nat, k: nat)
    requires c.p > 0 && n >= 1
  {
    Attempt(c, P, n, d, t, k) != Ok(None)
  }

  /** Draw i is the first of `draws` that ends the signing loop. */
  ghost predicate FirstStopAt(c: Curve, P: Point, n: nat, d: nat, t: nat, draws: seq<nat>, i: int)
    requires c.p > 0 && n >= 1
  {
    0 <= i < |draws| && Stops(c, P, n, d, t, draws[i]) &&
    forall j :: 0 <= j < i ==> !Stops(c, P, n, d, t, draws[j])
  }

  /** What `main` is left with after a draw that ends the loop. */
  function Outcome(a: Result<Option<Signature>>): Result<Signature>
    requires a != Ok(None)
  {
    match a
    case Raised(e) => Raised(e)
    case Ok(sig) => Ok(sig.value)
  }

  /**
   * The `while True` signing loop of `main`, with the draws of
   * `random.randrange(1, n)` as the sequence `draws`, at least one of which
   * ends the loop. The outcome is that of the first such draw.
   */
  method Sign(c: Curve, P: Point, n: nat, d: nat, t: nat, draws: seq<nat>) returns (res: Result<Signature>)
    requires c.p > 0 && n >= 2 && 1 <= d < n && t < n
    requires forall i :: 0 <= i < |draws| ==> 1 <= draws[i] < n
    requires exists i :: 0 <= i < |draws| && Stops(c, P, n, d, t, draws[i])
    ensures exists i :: FirstStopAt(c, P, n, d, t, draws, i) && res == Outcome(Attempt(c, P, n, d, t, draws[i]))
  {
    ghost var last :| 0 <= last < |draws| && Stops(c, P, n, d, t, draws[last]);
    var i := 0;
    while true
      invariant 0 <= i <= last
      invariant forall j :: 0 <= j < i ==> !Stops(c, P, n, d, t, draws[j])
      decreases last - i
    {
      var a := TryDraw(c, P, n, d, t, draws[i]);
      if a != Ok(None) {
        assert FirstStopAt(c, P, n, d, t, draws, i);
        return Outcome(a);
      }
      i := i + 1;
    }
  }

  /** One pass of the signing loop's body with the draw k. */
  method TryDraw(c: Curve, P: Point, n: nat, d: nat, t: nat, k: nat) returns (a: Result<Option<Signature>>)
    requires c.p > 0 && n >= 1
    ensures a == Attempt(c, P, n, d, t, k)
  {
    var R, _ := Mul(c, P, k);
    if R.Zero? {
      return Raised(TypeError);
    }
    var r := R.x % n;
    if r != 0 {
      var l := InverseInGroup(k, n);
      var s := (l * (t + d * r)) % n;
      if s != 0 {
        return Ok(Some(Signature(r, s)));
      }
    }
    return Ok(None);
  }

  // ---------------------------------------------------------------------
  // Verification

  /**
   * The verification block of `main`: the two in-code assertions on the
   * ranges of s and r, then w = s^-1, u1 = t w, u2 = r w (mod n) and the
   * check that the x of u1 * P + u2 * Q is r modulo n (an identity sum has
   * no x: TypeError).
   */
  method Verify(c: Curve, key: PublicKey, t: nat, sig: Signature) returns (res: Result<bool>)
    requires c.p > 0
    ensures !(1 <= sig.s < key.n && 1 <= sig.r < key.n) ==> res == Raised(AssertionError)
    ensures 1 <= sig.s < key.n && 1 <= sig.r < key.n ==>
      var w := InverseInGroup(sig.s, key.n);
      var X := Add(c, ScalarMul(c, key.P, (t * w) % key.n), ScalarMul(c, key.Q, (sig.r * w) % key.n));
      res == if X.Zero? then Raised(TypeError) else Ok(X.x % key.n == sig.r)
  {
    var n := key.n;
    if !(1 <= sig.s < n) || !(1 <= sig.r < n) {
      return Raised(AssertionError);
    }
    var w := InverseInGroup(sig.s, n);
    var u1 := (t * w) % n;
    var u2 := (sig.r * w) % n;
    var A, _ := Mul(c, key.P, u1);
    var B, _ := Mul(c, key.Q, u2);
    var X := Add(c, A, B);
    if X.Zero? {
      return Raised(TypeError);
    }
    var v := X.x % n;
    return Ok(v == sig.r);
  }

  /**
   * The scalar half of why verification accepts a signature made with draw
   * k and key d over a prime n: u1 + u2 d is k modulo n, so u1 P + u2 Q is
   * k P once Q = d P and P has order n.
   */
  lemma VerifyScalars(n: nat, d: nat, t: nat, k: nat, sig: Signature)
    requires IsPrime(n) && 1 <= sig.s < n
    requires (sig.s * k - (t + d * sig.r)) % n == 0
    ensures var w := InverseInGroup(sig.s, n);
      ((t * w) % n + ((sig.r * w) % n) * d - k) % n == 0
  {
    var w := InverseInGroup(sig.s, n);
    InverseModPrime(sig.s, n);
    assert (sig.s * w) % n == 1 % n by { ModSmall(1, n); }
    ScalarCombination(n, d, t, k, sig.r, sig.s, w);
  }

  lemma ScalarCombination(n: int, d: int, t: int, k: int, r: int, s: int, w: int)
    requires n >= 1 && (s * w) % n == 1 % n && (s * k - (t + d * r)) % n == 0
    ensures ((t * w) % n + ((r * w) % n) * d - k) % n == 0
  {
    ModEqIffDivides(s * w, 1, n);
    var sw, tw, rw, sk := s * w, t * w, r * w, s * k;
    var a, f := (sw - 1) / n, (sk - (t + d * r)) / n;
    var u1, u2, A, B := tw % n, rw % n, tw / n, rw / n;
    DivModParts(sw - 1, n);
    DivModParts(sk - (t + d * r), n);
    DivModParts(tw, n);
    DivModParts(rw, n);
    ScalarIdentity(t, d, r, k, s, w, n, A, B, a, f, u1, u2);
    ModAddMultiple(0, a * k - w * f - A - B * d, n);
  }

  /** The ring identity behind ScalarCombination, with the quotients named. */
  lemma ScalarIdentity(t: int, d: int, r: int, k: int, s: int, w: int, n: int,
                       A: int, B: int, a: int, f: int, u1: int, u2: int)
    requires s * w == 1 + a * n && t + d * r == s * k - f * n
    requires t * w == A * n + u1 && r * w == B * n + u2
    ensures u1 + u2 * d - k == 0 + (a * k - w * f - A - B * d) * n
  {
    calc {
      u1 + u2 * d - k;
      (t * w - A * n) + (r * w - B * n) * d - k;
      { assert (r * w - B * n) * d == w * (d * r) - (B * d) * n; }
      w * (t + d * r) - A * n - (B * d) * n - k;
      w * (s * k - f * n) - A * n - (B * d) * n - k;
      { assert w * (s * k - f * n) == (s * w) * k - (w * f) * n; }
      (s * w) * k - (w * f) * n - A * n - (B * d) * n - k;
      (1 + a * n) * k - (w * f) * n - A * n - (B * d) * n - k;
      { assert (1 + a * n) * k == k + (a * k) * n; }
      (a * k - w * f - A - B * d) * n;
    }
  }

  /** A signature produced by Sign over a prime n satisfies the scalar verification equation. */
  lemma SignThenVerifyScalars(c: Curve, P: Point, n: nat, d: nat, t: nat, k: nat)
    requires c.p > 0 && IsPrime(n) && 1 <= k < n
    requires Attempt(c, P, n, d, t, k).Ok? && Attempt(c, P, n, d, t, k).value.Some?
    ensures var sig := Attempt(c, P, n, d, t, k).value.value;
      var w := InverseInGroup(sig.s, n);
      ((t * w) % n + ((sig.r * w) % n) * d - k) % n == 0
  {
    var sig := Attempt(c, P, n, d, t, k).value.value;
    VerifyScalars(n, d, t, k, sig);
  }

  // ---------------------------------------------------------------------
  // The search on E_19(1, 2)

  /**
   * On E_19(1, 2) the search adds (1, 2) to reach (18, 0), (1, 17) and then
   * the identity: it records order 4 for (1, 2), which is not prime.
   */
  lemma TestOrderOfGenerator()
    ensures Order(TestCurve, Affine(1, 2), 12) == 4 && !IsPrime(4)
  {
    var c, P := TestCurve, Affine(1, 2);
    assert Multiple(c, P, 1) == P by {
      assert Multiple(c, P, 1) == Add(c, Zero, P);
    }
    assert Multiple(c, P, 2) == Affine(18, 0) by {
      assert Multiple(c, P, 2) == Add(c, P, P);
      TestDouble();
    }
    assert Multiple(c, P, 3) == Affine(1, 17) by {
      assert Multiple(c, P, 3) == Add(c, Affine(18, 0), P);
      TestTriple();
    }
    assert Multiple(c, P, 4) == Zero by {
      assert Multiple(c, P, 4) == Add(c, Affine(1, 17), P);
      TestOrder();
    }
    assert Order(c, P, 3) == 0;
    OrderFound(c, P, 4, 12);
    assert Divides(2, 4);
  }

  /**
   * One instance of associativity on E_19(1, 2): with p = (1, 2) and
   * q = (10, 10), (p + q) + (-q) and p + (q + (-q)) are both p.
   */
  lemma TestAssociative(c: Curve, p: Point, q: Point)
    requires c == TestCurve && p == Affine(1, 2) && q == Affine(10, 10)
    ensures Add(c, Add(c, p, q), Neg(c, q)) == Add(c, p, Add(c, q, Neg(c, q)))
  {
    assert OnCurve(c, q) by {
      assert (10 * 10 - Rhs(c, 10)) % 19 == 0;
    }
    AddNegSelf(c, q);
    TestSub();
    TestChord();
  }
}
