/**
 * Facts about prime moduli that the schemes rely on: Euclid's lemma (from the
 * Bezout coefficients of solve_diophantine) and Fermat's little theorem (from
 * the binomial theorem).
 */
module Fermat {
  import opened NumberTheory
  import opened CryptoLib

  /** A prime dividing a product divides one of the factors. */
  lemma EuclidLemma(p: nat, a: int, b: int)
    requires IsPrime(p) && (a * b) % p == 0
    ensures a % p == 0 || b % p == 0
  {
    var r := a % p;
    if r != 0 {
      ModSmall(r, p);
      PrimeCoprime(p, r);
      var xy := SolveDiophantine(r, p);
      assert r * xy.0 + p * xy.1 == 1;
      ModMul(a, b, p);
      ModMul(r, b, p);
      ModOfMod(a, p);
      BezoutCancel(b, r, xy.0, xy.1, p);
    }
  }

  lemma BezoutCancel(b: int, r: int, x: int, y: int, p: nat)
    requires p > 0 && r * x + p * y == 1 && (r * b) % p == 0
    ensures b % p == 0
  {
    var rb := r * b;
    assert b == rb * x + (b * y) * p by {
      calc {
        b;
        b * (r * x + p * y);
        (r * b) * x + (b * y) * p;
      }
    }
    ModAddMultiple(rb * x, b * y, p);
    MulModZero(rb, x, p);
  }

  lemma MulModZero(u: int, v: int, p: nat)
    requires p > 0 && u % p == 0
    ensures (u * v) % p == 0
  {
    ModMul(u, v, p);
  }

  /** Binomial coefficients by Pascal's rule. */
  function Binom(n: nat, k: nat): nat
    decreases n
  {
    if k == 0 then 1 else if n == 0 then 0 else Binom(n - 1, k - 1) + Binom(n - 1, k)
  }

  /** The partial binomial sum of C(n, j) * a^j for j = 0 .. k. */
  function BinomSum(a: int, n: nat, k: nat): int
    decreases k
  {
    (if k == 0 then 0 else BinomSum(a, n, k - 1)) + Binom(n, k) * Pow(a, k)
  }

  lemma {:induction false} BinomAbove(n: nat, k: nat)
    requires k > n
    ensures Binom(n, k) == 0
    decreases n
  {
    if n > 0 {
      BinomAbove(n - 1, k - 1);
      BinomAbove(n - 1, k);
    }
  }

  lemma {:induction false} BinomSumPascal(a: int, n: nat, k: nat)
    requires k >= 1
    ensures BinomSum(a, n + 1, k) == BinomSum(a, n, k) + a * BinomSum(a, n, k - 1)
    decreases k
  {
    var b1, b2 := Binom(n, k - 1), Binom(n, k);
    assert Binom(n + 1, k) == b1 + b2;
    var A, X := Pow(a, k - 1), Pow(a, k);
    assert X == a * A;
    if k == 1 {
      assert A == 1 && b1 == 1;
      assert BinomSum(a, n + 1, 0) == 1 && BinomSum(a, n, 0) == 1;
      assert BinomSum(a, n + 1, 1) == 1 + (b1 + b2) * X;
      assert BinomSum(a, n, 1) == 1 + b2 * X;
    } else {
      BinomSumPascal(a, n, k - 1);
      var t1, u1, u2 := BinomSum(a, n + 1, k - 1), BinomSum(a, n, k - 1), BinomSum(a, n, k - 2);
      assert t1 == u1 + a * u2;
      assert BinomSum(a, n + 1, k) == t1 + (b1 + b2) * X;
      assert BinomSum(a, n, k) == u1 + b2 * X;
      assert u1 == u2 + b1 * A;
      PascalRing(a, A, X, b1, b2, u1, u2);
    }
  }

  lemma PascalRing(a: int, A: int, X: int, b1: int, b2: int, u1: int, u2: int)
    requires X == a * A
    ensures u1 + a * u2 + (b1 + b2) * X == (u1 + b2 * X) + a * (u2 + b1 * A)
  {
  }

  /** The binomial theorem for (a + 1)^n. */
  lemma {:induction false} BinomialTheorem(a: int, n: nat)
    ensures Pow(a + 1, n) == BinomSum(a, n, n)
    decreases n
  {
    if n > 0 {
      BinomialTheorem(a, n - 1);
      BinomAbove(n - 1, n);
      var s := BinomSum(a, n - 1, n - 1);
      assert BinomSum(a, n - 1, n) == s;
      BinomSumPascal(a, n - 1, n);
      assert Pow(a + 1, n) == (a + 1) * s;
      SuccTimes(a, s);
    }
  }

  lemma SuccTimes(a: int, s: int)
    ensures (a + 1) * s == s + a * s
  {
  }

  /** k * C(n, k) = n * C(n - 1, k - 1). */
  lemma {:induction false} BinomAbsorb(n: nat, k: nat)
    requires n >= 1 && k >= 1
    ensures k * Binom(n, k) == n * Binom(n - 1, k - 1)
    decreases n
  {
    if n == 1 {
      if k > 1 { BinomAbove(0, k - 1); BinomAbove(0, k); }
    } else if k == 1 {
      BinomAbsorb(n - 1, 1);
      assert Binom(n, 1) == Binom(n - 1, 0) + Binom(n - 1, 1);
    } else {
      BinomAbsorb(n - 1, k);
      BinomAbsorb(n - 1, k - 1);
      var c, c1, c2 := Binom(n, k), Binom(n - 1, k - 1), Binom(n - 1, k);
      var d1, d2 := Binom(n - 2, k - 2), Binom(n - 2, k - 1);
      assert c == c1 + c2;
      assert c1 == d1 + d2;
      assert k * c2 == (n - 1) * d2;
      assert (k - 1) * c1 == (n - 1) * d1;
      AbsorbRing(n, k, c, c1, c2, d1, d2);
    }
  }

  lemma AbsorbRing(n: int, k: int, c: int, c1: int, c2: int, d1: int, d2: int)
    requires c == c1 + c2 && c1 == d1 + d2
    requires k * c2 == (n - 1) * d2 && (k - 1) * c1 == (n - 1) * d1
    ensures k * c == n * c1
  {
  }

  lemma PrimeDividesBinom(p: nat, k: nat)
    requires IsPrime(p) && 0 < k < p
    ensures Binom(p, k) % p == 0
  {
    BinomAbsorb(p, k);
    MultipleOfModulus(k * Binom(p, k), p, Binom(p - 1, k - 1));
    EuclidLemma(p, k, Binom(p, k));
    ModSmall(k, p);
  }

  lemma {:induction false} BinomSumModPrime(a: int, p: nat, k: nat)
    requires IsPrime(p) && k < p
    ensures BinomSum(a, p, k) % p == 1
    decreases k
  {
    if k == 0 {
      ModSmall(1, p);
    } else {
      BinomSumModPrime(a, p, k - 1);
      PrimeDividesBinom(p, k);
      var c := Binom(p, k) / p;
      assert Binom(p, k) * Pow(a, k) == (c * Pow(a, k)) * p;
      ModAddMultiple(BinomSum(a, p, k - 1), c * Pow(a, k), p);
    }
  }

  /** (a + 1)^p is congruent to a^p + 1 modulo a prime p. */
  lemma FreshmansDream(a: int, p: nat)
    requires IsPrime(p)
    ensures Pow(a + 1, p) % p == (Pow(a, p) + 1) % p
  {
    BinomialTheorem(a, p);
    BinomSumModPrime(a, p, p - 1);
    BinomAbsorbDiag(p);
    var s, x := BinomSum(a, p, p - 1), Pow(a, p);
    assert BinomSum(a, p, p) == s + Binom(p, p) * x;
    AddOneModulo(s, x, p);
  }

  lemma AddOneModulo(s: int, x: int, p: int)
    requires p > 1 && s % p == 1
    ensures (s + x) % p == (x + 1) % p
  {
    ModAdd(s, x, p);
    ModAdd(1, x, p);
    ModSmall(1, p);
  }

  lemma {:induction false} BinomAbsorbDiag(n: nat)
    ensures Binom(n, n) == 1
    decreases n
  {
    if n > 0 {
      BinomAbsorbDiag(n - 1);
      BinomAbove(n - 1, n);
    }
  }

  /** a^p is congruent to a modulo a prime p, for every integer a. */
  lemma FermatPow(a: int, p: nat)
    requires IsPrime(p)
    ensures Pow(a, p) % p == a % p
  {
    FermatPowNat(a % p, p);
    PowMod(a, p, p);
    ModOfMod(a, p);
  }

  lemma {:induction false} FermatPowNat(a: nat, p: nat)
    requires IsPrime(p)
    ensures Pow(a, p) % p == a % p
    decreases a
  {
    if a == 0 {
      PowZeroBase(p);
    } else {
      FermatPowNat(a - 1, p);
      FreshmansDream(a - 1, p);
      ModAdd(Pow(a - 1, p), 1, p);
      ModAdd(a - 1, 1, p);
    }
  }

  /** Fermat's little theorem: a^(p-1) is 1 modulo p when p does not divide a. */
  lemma FermatLittle(a: int, p: nat)
    requires IsPrime(p) && a % p != 0
    ensures Pow(a, p - 1) % p == 1
  {
    FermatPow(a, p);
    assert Pow(a, p) == a * Pow(a, p - 1);
    var e := Pow(a, p - 1) - 1;
    assert a * e == Pow(a, p) - a;
    ModEqIffDivides(Pow(a, p), a, p);
    EuclidLemma(p, a, e);
    ModEqIffDivides(Pow(a, p - 1), 1, p);
    ModSmall(1, p);
  }

  /** Exponents congruent modulo p - 1 give congruent powers of a unit modulo p. */
  lemma PowExponentModPrime(g: int, e1: nat, e2: nat, p: nat)
    requires IsPrime(p) && g % p != 0 && e1 % (p - 1) == e2 % (p - 1)
    ensures Pow(g, e1) % p == Pow(g, e2) % p
  {
    PowReduceExponent(g, e1, p);
    PowReduceExponent(g, e2, p);
  }

  lemma PowReduceExponent(g: int, e: nat, p: nat)
    requires IsPrime(p) && g % p != 0
    ensures Pow(g, e) % p == Pow(g, e % (p - 1)) % p
  {
    var m: nat := p - 1;
    var q: nat, r: nat := e / m, e % m;
    var mq: nat := m * q;
    assert e == mq + r;
    PowAdd(g, mq, r);
    PowMul(g, m, q);
    var u, w := Pow(g, m), Pow(g, r);
    var uq := Pow(u, q);
    assert Pow(g, e) == uq * w;
    FermatLittle(g, p);
    assert u % p == 1;
    PowMod(u, q, p);
    PowOne(q);
    ModSmall(1, p);
    assert uq % p == 1;
    ModMul(uq, w, p);
    ModOfMod(w, p);
    assert (uq * w) % p == (1 * (w % p)) % p;
  }
}
