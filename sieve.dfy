/**
 * The sieve of Eratosthenes of lab2/ecdsa.py (`generate_primes`): a list of
 * n + 1 flags, the multiples 2i, 3i, ... of every i in [2, bound) crossed
 * out, and the indices still standing returned in increasing order. The
 * code uses bound = (n + 1) // 2, which leaves 4 standing when n = 4;
 * GeneratePrimesFixed uses bound = n // 2 + 1 and returns exactly the
 * primes up to n for every n >= 1.
 */
module Sieve {
  import opened Wrappers
  import opened NumberTheory

  /** k is still standing once every i in [2, bound) has crossed out its multiples 2i, 3i, ... */
  predicate Survives(k: int, bound: int) {
    k >= 2 && forall d :: 2 <= d < bound && 2 * d <= k ==> k % d != 0
  }

  /** Strictly increasing, hence free of duplicates. */
  predicate Ascending(s: seq<nat>) {
    forall i, j :: 0 <= i < j < |s| ==> s[i] < s[j]
  }

  /** `[i for i, f in enumerate(s) if f]`. */
  function Indices(s: seq<bool>): (r: seq<nat>)
    ensures forall k :: k in r <==> 0 <= k < |s| && s[k]
    ensures Ascending(r)
  {
    if |s| == 0 then []
    else
      var init := Indices(s[..|s| - 1]);
      if s[|s| - 1] then
        AscendingAppend(init, |s| - 1);
        init + [|s| - 1]
      else
        init
  }

  lemma AscendingAppend(s: seq<nat>, x: nat)
    requires Ascending(s) && forall k :: k in s ==> k < x
    ensures Ascending(s + [x])
  {
    forall i, j | 0 <= i < j < |s| + 1
      ensures (s + [x])[i] < (s + [x])[j]
    {
      if j == |s| {
        assert s[i] in s;
      }
    }
  }

  /** Two increasing lists with the same members are the same list. */
  lemma {:induction false} AscendingDetermined(a: seq<nat>, b: seq<nat>)
    requires Ascending(a) && Ascending(b)
    requires forall k :: k in a <==> k in b
    ensures a == b
    decreases |a|
  {
    if |a| == 0 {
      FirstIsMember(b);
    } else {
      assert a[0] in b;
      assert |b| > 0;
      assert b[0] in a;
      assert a[0] == b[0] by {
        var i :| 0 <= i < |a| && a[i] == b[0];
        var j :| 0 <= j < |b| && b[j] == a[0];
        assert a[0] <= a[i] && b[0] <= b[j];
      }
      forall k | k in a[1..]
        ensures k in b[1..]
      {
        var i :| 1 <= i < |a| && a[i] == k;
        assert a[i] in a;
        var j :| 0 <= j < |b| && b[j] == k;
        assert j != 0;
      }
      forall k | k in b[1..]
        ensures k in a[1..]
      {
        var j :| 1 <= j < |b| && b[j] == k;
        assert b[j] in b;
        var i :| 0 <= i < |a| && a[i] == k;
        assert i != 0;
      }
      AscendingDetermined(a[1..], b[1..]);
      assert a == [a[0]] + a[1..] && b == [b[0]] + b[1..];
    }
  }

  lemma FirstIsMember(s: seq<nat>)
    ensures |s| > 0 ==> s[0] in s
  {
  }

  /**
   * The body of `generate_primes(n)` with the outer loop's bound as a
   * parameter. For n <= 0 the assignment to `sieve[1]` (or `sieve[0]`) is out
   * of range.
   */
  method SieveUpTo(n: int, bound: int) returns (res: Result<seq<nat>>)
    ensures n <= 0 ==> res == Raised(IndexError)
    ensures n >= 1 ==> res.Ok? && Ascending(res.value)
    ensures n >= 1 ==> forall k :: k in res.value <==> 0 <= k <= n && Survives(k, bound)
  {
    if n <= 0 {
      return Raised(IndexError);
    }
    var sieve := new bool[n + 1](_ => true);
    sieve[0], sieve[1] := false, false;
    var i := 2;
    while i < bound
      invariant i >= 2 && (i <= bound || i == 2)
      invariant forall k :: 0 <= k <= n ==> sieve[k] == Survives(k, i)
    {
      CrossOut(sieve, i);
      forall k | 0 <= k <= n
        ensures sieve[k] == Survives(k, i + 1)
      {
        SurvivesStep(k, i);
      }
      i := i + 1;
    }
    assert forall k :: 0 <= k <= n ==> sieve[k] == Survives(k, bound) by {
      forall k | 0 <= k <= n
        ensures Survives(k, i) == Survives(k, bound)
      {
        SurvivesBoundEmpty(k, i, bound);
      }
    }
    res := Ok(Indices(sieve[..]));
  }

  /** The inner loop `for j in range(2*i, n+1, i): sieve[j] = False`. */
  method CrossOut(sieve: array<bool>, i: int)
    requires i >= 2
    modifies sieve
    ensures forall k :: 0 <= k < sieve.Length ==>
      sieve[k] == (old(sieve[k]) && !(2 * i <= k && k % i == 0))
  {
    var j := 2 * i;
    while j < sieve.Length
      invariant j >= 2 * i && j % i == 0
      invariant forall k :: 0 <= k < sieve.Length ==>
        sieve[k] == (old(sieve[k]) && !(2 * i <= k < j && k % i == 0))
    {
      sieve[j] := false;
      forall k | j < k < j + i
        ensures k % i != 0
      {
        MultipleBelow(k, j, i);
      }
      ModAddMultiple(j, 1, i);
      j := j + i;
    }
  }

  /** Crossing out the multiples of i adds i to the divisors tried. */
  lemma SurvivesStep(k: int, i: int)
    requires i >= 2
    ensures Survives(k, i + 1) == (Survives(k, i) && !(2 * i <= k && k % i == 0))
  {
  }

  /** A multiple of i below j + i, for j a multiple of i, is at most j. */
  lemma MultipleBelow(k: int, j: int, i: int)
    requires i >= 1 && j % i == 0 && j < k < j + i
    ensures k % i != 0
  {
    if k % i == 0 {
      MultipleGap(k, j, i);
    }
  }

  lemma MultipleGap(k: int, j: int, i: int)
    requires i >= 1 && j % i == 0 && k % i == 0 && k < j + i
    ensures k <= j
  {
    var qk, qj := k / i, j / i;
    assert k == qk * i && j == qj * i;
    MulAtLeastIf(qk - qj, i);
    assert k - j == (qk - qj) * i;
  }

  lemma MulAtLeastIf(t: int, m: int)
    requires m >= 1
    ensures t >= 1 ==> t * m >= m
  {
    if t >= 1 { MulAtLeast(t, m); }
  }

  /** For non-negative b, b <= d gives b * b <= d * d. */
  lemma SquareMonotone(b: int, d: int)
    requires b >= 0
    ensures b <= d ==> b * b <= d * d
  {
    if b <= d {
      assert b * b <= b * d <= d * d;
    }
  }

  /** The loop stops at i == bound, or never starts when bound <= 2. */
  lemma SurvivesBoundEmpty(k: int, i: int, bound: int)
    requires i >= 2 && (i == bound || (i == 2 && bound <= 2))
    ensures Survives(k, i) == Survives(k, bound)
  {
  }

  /** A prime survives any bound. */
  lemma PrimeSurvives(k: int, bound: int)
    requires IsPrime(k)
    ensures Survives(k, bound)
  {
    forall d | 2 <= d < bound && 2 * d <= k
      ensures k % d != 0
    {
      assert d < k;
      assert !Divides(d, k);
    }
  }

  /** A composite k has a divisor d with 2 <= d and d * d <= k. */
  lemma SmallFactor(k: int) returns (d: nat)
    requires k >= 2 && !IsPrime(k)
    ensures 2 <= d && d * d <= k && k % d == 0
  {
    var e: nat :| 2 <= e < k && Divides(e, k);
    var f := k / e;
    assert k == e * f;
    CoFactor(k, e, f);
    assert k % f == 0 by {
      ModAddMultiple(0, e, f);
      assert f * e == k;
    }
    if e * e <= k {
      d := e;
    } else {
      d := f;
    }
  }

  /** For k = e * f with 2 <= e < k: f >= 2 and one of e, f has its square at most k. */
  lemma CoFactor(k: int, e: int, f: int)
    requires 2 <= e < k && k == e * f
    ensures f >= 2 && (e * e <= k || f * f <= k)
  {
    MulAtLeastIf(f - 1, e);
    assert (f - 1) * e == k - e;
    if f <= e {
      assert f * f <= e * f by { MulMonotone(f, e, f); }
    } else {
      assert e * e <= f * e by { MulMonotone(e, f, e); }
    }
  }

  lemma MulMonotone(a: int, b: int, c: int)
    requires a <= b && c >= 0
    ensures a * c <= b * c
  {
    assert b * c - a * c == (b - a) * c;
  }

  /** A survivor whose square root lies below bound is prime. */
  lemma SurvivorIsPrime(k: int, bound: int)
    requires bound >= 0 && Survives(k, bound) && k < bound * bound
    ensures IsPrime(k)
  {
    if !IsPrime(k) {
      var d := SmallFactor(k);
      SquareMonotone(bound, d);
      assert false;
    }
  }

  /** Below 4 there is no composite: the survivors are the primes for any bound. */
  lemma SmallSurvivors(k: int, bound: int)
    requires 0 <= k < 4
    ensures Survives(k, bound) <==> IsPrime(k)
  {
    if k == 2 {
      assert IsPrime(2);
    } else if k == 3 {
      assert IsPrime(3) by {
        forall d: nat | 2 <= d < 3 ensures !Divides(d, 3) { }
      }
    }
  }

  /** With n < bound * bound the sieve leaves exactly the primes up to n. */
  lemma SieveExact(n: int, bound: int)
    requires n < 4 || (bound >= 0 && n < bound * bound)
    ensures forall k :: 0 <= k <= n ==> (Survives(k, bound) <==> IsPrime(k))
  {
    forall k | 0 <= k <= n
      ensures Survives(k, bound) <==> IsPrime(k)
    {
      if k < 4 {
        SmallSurvivors(k, bound);
      } else {
        if IsPrime(k) { PrimeSurvives(k, bound); }
        if Survives(k, bound) { SurvivorIsPrime(k, bound); }
      }
    }
  }

  /** `generate_primes(n)` as written, with bound (n + 1) // 2. */
  method GeneratePrimes(n: int) returns (res: Result<seq<nat>>)
    ensures n <= 0 ==> res == Raised(IndexError)
    ensures n >= 1 ==> res.Ok? && Ascending(res.value)
    ensures n >= 1 ==> forall k :: k in res.value <==> 0 <= k <= n && Survives(k, (n + 1) / 2)
  {
    res := SieveUpTo(n, (n + 1) / 2);
  }

  /** The code's bound suffices for every n except 4. */
  lemma GeneratePrimesBound(n: int)
    requires n >= 1 && n != 4
    ensures forall k :: 0 <= k <= n ==> (Survives(k, (n + 1) / 2) <==> IsPrime(k))
  {
    var b := (n + 1) / 2;
    if n >= 5 {
      assert b >= 3;
      assert 2 * b >= n;
      assert b * b >= 3 * b;
      assert n < b * b;
    }
    SieveExact(n, b);
  }

  /** With n = 4 no multiple is crossed out and the composite 4 is listed. */
  lemma FourSurvivesAsWritten()
    ensures Survives(4, (4 + 1) / 2) && !IsPrime(4)
  {
    assert Divides(2, 4);
  }

  /** `generate_primes(4)` returns [2, 3, 4]. */
  method GeneratePrimesOfFour() returns (res: Result<seq<nat>>)
    ensures res == Ok([2, 3, 4])
  {
    res := GeneratePrimes(4);
    SmallSurvivors(2, 2);
    SmallSurvivors(3, 2);
    FourSurvivesAsWritten();
    AscendingDetermined(res.value, [2, 3, 4]);
  }

  /** `generate_primes` with the outer loop running up to n // 2: exactly the primes up to n. */
  method GeneratePrimesFixed(n: int) returns (res: Result<seq<nat>>)
    ensures n <= 0 ==> res == Raised(IndexError)
    ensures n >= 1 ==> res.Ok? && Ascending(res.value)
    ensures n >= 1 ==> forall k :: k in res.value <==> 0 <= k <= n && IsPrime(k)
  {
    res := SieveUpTo(n, n / 2 + 1);
    if n >= 1 {
      var b := n / 2 + 1;
      assert n < 4 || (b >= 0 && n < b * b) by {
        if n >= 4 {
          assert b >= 3 && 2 * b > n;
          assert b * b >= 3 * b;
        }
      }
      SieveExact(n, b);
    }
  }

  /** `generate_primes(17) == [2, 3, 5, 7, 11, 13, 17]`, the check in `main`. */
  method GeneratePrimesOf17() returns (res: Result<seq<nat>>)
    ensures res == Ok([2, 3, 5, 7, 11, 13, 17])
  {
    res := GeneratePrimes(17);
    GeneratePrimesBound(17);
    var expected: seq<nat> := [2, 3, 5, 7, 11, 13, 17];
    forall k | 0 <= k <= 17
      ensures IsPrime(k) <==> k in expected
    {
      PrimesUpTo17(k);
    }
    AscendingDetermined(res.value, expected);
  }

  /** The primes up to 17. */
  lemma PrimesUpTo17(k: int)
    requires 0 <= k <= 17
    ensures IsPrime(k) <==> k in [2, 3, 5, 7, 11, 13, 17]
  {
    if k in [2, 3, 5, 7, 11, 13, 17] {
      forall d: nat | 2 <= d < k
        ensures !Divides(d, k)
      {
        assert k % d != 0;
      }
    } else if k >= 2 {
      assert Divides(2, k) || Divides(3, k);
    }
  }
}
