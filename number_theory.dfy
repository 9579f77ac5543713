/**
 * Integer arithmetic the primitives are specified with: powers, Euclidean
 * remainders (Python's `%` and `//` agree with Dafny's for a positive
 * modulus), divisibility and primality.
 */
module NumberTheory {

  /** x to the power n, over the unbounded integers. */
  function Pow(x: int, n: nat): int
    decreases n
  {
    if n == 0 then 1 else x * Pow(x, n - 1)
  }

  /** 2 to the power n: the value of `1 << n`. */
  function Pow2(n: nat): (r: nat)
    ensures r >= 1
    decreases n
  {
    if n == 0 then 1 else 2 * Pow2(n - 1)
  }

  /** `d.bit_length()` for a non-negative integer. */
  function BitLength(d: nat): (r: nat)
    ensures d < Pow2(r)
    ensures r > 0 ==> Pow2(r - 1) <= d
    decreases d
  {
    if d == 0 then 0 else 1 + BitLength(d / 2)
  }

  /** d divides n (0 divides only 0). */
  ghost predicate Divides(d: nat, n: int) {
    if d == 0 then n == 0 else n % d == 0
  }

  /** The usual notion: at least 2 and no divisor strictly between 1 and itself. */
  ghost predicate IsPrime(p: int) {
    p >= 2 && forall d: nat :: 2 <= d < p ==> !Divides(d, p)
  }

  function Min(a: int, b: int): int { if a <= b then a else b }
  function Max(a: int, b: int): int { if a <= b then b else a }

  // ---------------------------------------------------------------------
  // Euclidean division

  /** Quotient and remainder are determined by the division equation. */
  lemma DivModUnique(x: int, q: int, r: int, m: int)
    requires m > 0 && 0 <= r < m && x == q * m + r
    ensures x / m == q && x % m == r
  {
    var q', r' := x / m, x % m;
    assert x == q' * m + r';
    assert (q - q') * m == r' - r;
    if q' < q {
      MulAtLeast(q - q', m);
    } else if q' > q {
      MulAtLeast(q' - q, m);
    }
  }

  /** The division equation of Euclidean division. */
  lemma DivModParts(x: int, m: int)
    requires m > 0
    ensures x == (x / m) * m + x % m && 0 <= x % m < m
  {
  }

  /** A multiple of m is 0 modulo m. */
  lemma MultipleOfModulus(x: int, p: int, d: int)
    requires p > 0 && x == p * d
    ensures x % p == 0
  {
    ModAddMultiple(0, d, p);
  }

  lemma MulAtLeast(t: int, m: int)
    requires t >= 1 && m > 0
    ensures t * m >= m
  {
    assert t * m == (t - 1) * m + m;
  }

  lemma ModAddMultiple(a: int, k: int, m: int)
    requires m > 0
    ensures (a + k * m) % m == a % m
  {
    DivModUnique(a + k * m, a / m + k, a % m, m);
  }

  lemma ModOfMod(a: int, m: int)
    requires m > 0
    ensures (a % m) % m == a % m
  {
    DivModUnique(a % m, 0, a % m, m);
  }

  lemma ModSmall(a: int, m: int)
    requires 0 <= a < m
    ensures a % m == a
  {
    DivModUnique(a, 0, a, m);
  }

  lemma ModAdd(a: int, b: int, m: int)
    requires m > 0
    ensures (a + b) % m == (a % m + b % m) % m
  {
    var qa, ra, qb, rb := a / m, a % m, b / m, b % m;
    assert a + b == (ra + rb) + (qa + qb) * m by {
      assert a == qa * m + ra && b == qb * m + rb;
      assert qa * m + qb * m == (qa + qb) * m;
    }
    ModAddMultiple(ra + rb, qa + qb, m);
  }

  lemma ModSub(a: int, b: int, m: int)
    requires m > 0
    ensures (a - b) % m == (a % m - b % m) % m
  {
    var qa, ra, qb, rb := a / m, a % m, b / m, b % m;
    assert a - b == (ra - rb) + (qa - qb) * m by {
      assert a == qa * m + ra && b == qb * m + rb;
      assert qa * m - qb * m == (qa - qb) * m;
    }
    ModAddMultiple(ra - rb, qa - qb, m);
  }

  lemma ModMul(a: int, b: int, m: int)
    requires m > 0
    ensures (a * b) % m == ((a % m) * (b % m)) % m
  {
    var qa, ra, qb, rb := a / m, a % m, b / m, b % m;
    assert a == qa * m + ra;
    assert b == qb * m + rb;
    calc {
      a * b;
      (qa * m + ra) * (qb * m + rb);
      ra * rb + (qa * qb * m + qa * rb + ra * qb) * m;
    }
    ModAddMultiple(ra * rb, qa * qb * m + qa * rb + ra * qb, m);
  }

  /** Congruence is the same as a divisible difference. */
  lemma ModEqIffDivides(a: int, b: int, m: int)
    requires m > 0
    ensures a % m == b % m <==> (a - b) % m == 0
  {
    ModSub(a, b, m);
    ResidueDifference(a % m, b % m, m);
  }

  /** Two residues differ by a multiple of m exactly when they are equal. */
  lemma ResidueDifference(ra: int, rb: int, m: int)
    requires 0 <= ra < m && 0 <= rb < m
    ensures (ra - rb) % m == 0 <==> ra == rb
  {
    if ra > rb {
      ModSmall(ra - rb, m);
    } else if ra < rb {
      ModAddMultiple(ra - rb, 1, m);
      ModSmall(ra - rb + m, m);
    } else {
      ModSmall(0, m);
    }
  }

  lemma DividesMod(d: nat, n: int)
    requires d > 0
    ensures Divides(d, n) <==> n % d == 0
  {
  }

  lemma DividesMultiple(d: nat, k: int)
    ensures Divides(d, d * k)
  {
    if d > 0 { ModAddMultiple(0, k, d); }
  }

  /** A positive multiple of d is at least d. */
  lemma DividesBound(d: nat, n: int)
    requires Divides(d, n) && n > 0
    ensures 1 <= d <= n
  {
    var q := n / d;
    assert n == d * q;
    if q >= 1 { MulAtLeast(q, d); }
  }

  lemma DividesTrans(a: nat, b: nat, c: int)
    requires Divides(a, b) && Divides(b, c)
    ensures Divides(a, c)
  {
    if a > 0 && b > 0 {
      var k1, k2 := b / a, c / b;
      assert c == a * (k1 * k2);
      DividesMultiple(a, k1 * k2);
    }
  }

  lemma DividesLinear(d: nat, a: int, b: int, u: int, v: int)
    requires Divides(d, a) && Divides(d, b)
    ensures Divides(d, u * a + v * b)
  {
    if d > 0 {
      var ka, kb := a / d, b / d;
      assert u * a + v * b == d * (u * ka + v * kb);
      DividesMultiple(d, u * ka + v * kb);
    }
  }

  // ---------------------------------------------------------------------
  // Powers

  lemma {:induction false} PowAdd(x: int, a: nat, b: nat)
    ensures Pow(x, a + b) == Pow(x, a) * Pow(x, b)
    decreases a
  {
    if a > 0 {
      PowAdd(x, a - 1, b);
    }
  }

  lemma {:induction false} PowMul(x: int, a: nat, b: nat)
    ensures Pow(x, a * b) == Pow(Pow(x, a), b)
    decreases b
  {
    if b > 0 {
      PowMul(x, a, b - 1);
      PowAdd(x, a * (b - 1), a);
      assert a * b == a * (b - 1) + a;
    }
  }

  lemma {:induction false} PowPositive(x: int, n: nat)
    requires x > 0
    ensures Pow(x, n) > 0
    decreases n
  {
    if n > 0 { PowPositive(x, n - 1); }
  }

  lemma {:induction false} PowZeroBase(n: nat)
    requires n > 0
    ensures Pow(0, n) == 0
  {
  }

  lemma {:induction false} PowOne(n: nat)
    ensures Pow(1, n) == 1
    decreases n
  {
    if n > 0 { PowOne(n - 1); }
  }

  lemma {:induction false} Pow2IsPow(n: nat)
    ensures Pow2(n) == Pow(2, n)
    decreases n
  {
    if n > 0 { Pow2IsPow(n - 1); }
  }

  /** Reducing the base first does not change a power's residue. */
  lemma {:induction false} PowMod(x: int, n: nat, m: int)
    requires m > 0
    ensures Pow(x % m, n) % m == Pow(x, n) % m
    decreases n
  {
    if n > 0 {
      PowMod(x, n - 1, m);
      calc {
        Pow(x % m, n) % m;
        ((x % m) * Pow(x % m, n - 1)) % m;
        { ModMul(x % m, Pow(x % m, n - 1), m); ModOfMod(x, m); }
        ((x % m) * (Pow(x % m, n - 1) % m)) % m;
        ((x % m) * (Pow(x, n - 1) % m)) % m;
        { ModMul(x, Pow(x, n - 1), m); }
        (x * Pow(x, n - 1)) % m;
      }
    }
  }

  lemma {:induction false} PowMonotone(x: int, a: nat, b: nat)
    requires x >= 1 && a <= b
    ensures Pow(x, a) <= Pow(x, b)
    decreases b - a
  {
    if a < b {
      PowMonotone(x, a, b - 1);
      PowPositive(x, b - 1);
    }
  }
}
