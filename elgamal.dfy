/**
 * ElGamal signatures of lab1task2/elgamal_lib.py over the multiplicative
 * group modulo a prime p: key generation y = g^x, signing a number t with
 * an odd ephemeral exponent r coprime to p - 1, and checking
 * y^c1 * c1^c2 = g^t (mod p).
 */
module ElGamal {
  import opened Wrappers
  import opened NumberTheory
  import opened CryptoLib
  import Fermat

  datatype PublicKey = PublicKey(p: nat, g: nat, y: nat)
  datatype Keypair = Keypair(privateKey: nat, publicKey: PublicKey)
  datatype Signature = Signature(c1: nat, c2: nat)

  /**
   * `make_keypair()`: p is the prime drawn from the table, g and x the two
   * draws of `random.randrange(2, p - 1)`; the public y is g^x modulo p.
   * For p <= 3 that range is empty and the first draw raises ValueError.
   */
  function MakeKeypair(p: nat, g: nat, x: nat): (res: Result<Keypair>)
    requires p >= 4 ==> 2 <= g < p - 1 && 2 <= x < p - 1
    ensures p <= 3 <==> res == Raised(ValueError)
    ensures p >= 4 ==> (res.Ok? &&
      res.value.privateKey == x && res.value.publicKey.p == p && res.value.publicKey.g == g)
    ensures p >= 4 ==> 0 <= res.value.publicKey.y < p && res.value.publicKey.y == Pow(g, x) % p
  {
    if p <= 3 then Raised(ValueError)
    else
      ModPowProperties(g, x, p);
      Ok(Keypair(x, PublicKey(p, g, ModPow(g, x, p))))
  }

  /** The multiplier r = 2k + 1 from draw k is coprime to p - 1. */
  predicate Coprime(draw: nat, p: nat)
    requires p >= 1
  {
    Gcd(2 * draw + 1, p - 1) == 1
  }

  /** Draw k is the first one giving an r coprime to p - 1. */
  predicate FirstCoprimeAt(draws: seq<nat>, k: int, p: nat)
    requires p >= 1
  {
    0 <= k < |draws| && Coprime(draws[k], p) && forall j :: 0 <= j < k ==> !Coprime(draws[j], p)
  }

  /**
   * The retry loop of `sign_number`: r starts at p - 1 (never coprime to
   * p - 1 once p >= 3, so the loop runs at least once) and is redrawn as
   * 2k + 1 from the draws of `random.randrange(1, (p - 1) // 2)` until
   * gcd(r, p - 1) = 1. The draws must include one that ends the loop.
   */
  method DrawMultiplier(p: nat, draws: seq<nat>) returns (r: nat)
    requires p >= 5
    requires forall i :: 0 <= i < |draws| ==> 1 <= draws[i] < (p - 1) / 2
    requires exists i :: 0 <= i < |draws| && Coprime(draws[i], p)
    ensures r % 2 == 1 && 3 <= r <= p - 2 && Gcd(r, p - 1) == 1
    ensures exists k :: FirstCoprimeAt(draws, k, p) && r == 2 * draws[k] + 1
  {
    ghost var k :| 0 <= k < |draws| && Coprime(draws[k], p);
    GcdSelf(p - 1);
    r := p - 1;
    var i := 0;
    while Gcd(r, p - 1) != 1
      invariant 0 <= i <= k + 1
      invariant i == 0 ==> r == p - 1
      invariant i > 0 ==> r == 2 * draws[i - 1] + 1
      invariant AllFail(draws, i - 1, p)
      decreases k + 1 - i
    {
      NotYetCoprime(draws, p, k, i, r);
      r := 2 * draws[i] + 1;
      i := i + 1;
    }
    assert i > 0;
    assert FirstCoprimeAt(draws, i - 1, p);
    ChosenMultiplier(draws[i - 1], p);
  }

  /** Every draw before i gives an r that is not coprime to p - 1. */
  ghost predicate AllFail(draws: seq<nat>, i: int, p: nat)
    requires p >= 1
  {
    forall j :: 0 <= j < i && j < |draws| ==> !Coprime(draws[j], p)
  }

  /** Gcd(m, m) = m. */
  lemma GcdSelf(m: nat)
    ensures Gcd(m, m) == m
  {
    assert Gcd(0, m) == m;
  }

  /** While draws before i all failed and draw k succeeds, i has not passed k. */
  lemma NotYetCoprime(draws: seq<nat>, p: nat, k: int, i: int, r: nat)
    requires p >= 1 && 0 <= i <= k + 1 && 0 <= k < |draws| && Coprime(draws[k], p)
    requires AllFail(draws, i - 1, p) && Gcd(r, p - 1) != 1
    requires i > 0 ==> r == 2 * draws[i - 1] + 1
    ensures i <= k && AllFail(draws, i, p)
  {
    if i > 0 {
      assert !Coprime(draws[i - 1], p);
    }
  }

  /** r = 2k + 1 for 1 <= k < (p - 1) / 2 lies in [3, p - 2]. */
  lemma MultiplierRange(k: nat, p: nat)
    requires 1 <= k < (p - 1) / 2
    ensures 3 <= 2 * k + 1 <= p - 2
  {
  }

  /** The multiplier from a successful draw: odd, in [3, p - 2] and coprime to p - 1. */
  lemma ChosenMultiplier(k: nat, p: nat)
    requires p >= 5 && 1 <= k < (p - 1) / 2 && Coprime(k, p)
    ensures var r := 2 * k + 1; r % 2 == 1 && 3 <= r <= p - 2 && Gcd(r, p - 1) == 1
  {
    MultiplierRange(k, p);
    DivModUnique(2 * k + 1, k, 1, 2);
  }

  /**
   * `sign_number(t, private_key, public_key)`: the multiplier r from the
   * retry loop, c1 = g^r mod p, and c2 from the first Bezout coefficient of
   * solve_diophantine(r, p - 1). The in-code assertion is proved.
   */
  method SignNumber(t: nat, privateKey: nat, publicKey: PublicKey, draws: seq<nat>)
    returns (signature: Signature, r: nat)
    requires publicKey.p >= 5
    requires forall i :: 0 <= i < |draws| ==> 1 <= draws[i] < (publicKey.p - 1) / 2
    requires exists i :: 0 <= i < |draws| && Coprime(draws[i], publicKey.p)
    ensures r % 2 == 1 && 3 <= r <= publicKey.p - 2 && Gcd(r, publicKey.p - 1) == 1
    ensures exists k :: FirstCoprimeAt(draws, k, publicKey.p) && r == 2 * draws[k] + 1
    ensures signature.c1 == Pow(publicKey.g, r) % publicKey.p
    ensures signature.c2 < publicKey.p - 1
    ensures (signature.c2 * r + privateKey * signature.c1 - t) % (publicKey.p - 1) == 0
  {
    var x := privateKey;
    var p, g := publicKey.p, publicKey.g;
    r := DrawMultiplier(p, draws);
    var c1 := FastMul(g, r, p);
    var (s, _) := SolveDiophantine(r, p - 1);
    var c2 := (s * (t - x * c1)) % (p - 1);
    SignatureEquation(r, p, t, x, c1);
    return Signature(c1, c2), r;
  }

  /**
   * With r < p - 1 no swap happens in solve_diophantine(r, p - 1), so its
   * first coefficient inverts r modulo p - 1 and the computed c2 satisfies
   * the signing equation.
   */
  lemma SignatureEquation(r: nat, p: nat, t: int, x: int, c1: int)
    requires 1 <= r < p - 1 && Gcd(r, p - 1) == 1
    ensures var c2 := (SolveDiophantine(r, p - 1).0 * (t - x * c1)) % (p - 1);
      0 <= c2 < p - 1 && (c2 * r + x * c1 - t) % (p - 1) == 0
  {
    var (s, y) := SolveDiophantine(r, p - 1);
    var m, u := p - 1, t - x * c1;
    assert Min(r, m) == r && Max(r, m) == m;
    assert r * s + m * y == 1;
    SignatureCongruence(r, s, y, u, m);
    var c2 := (s * u) % m;
    assert c2 * r + x * c1 - t == c2 * r - u;
  }

  /** For r*a + m*b = 1, ((a*u) mod m) * r is u modulo m. */
  lemma SignatureCongruence(r: int, a: int, b: int, u: int, m: int)
    requires m >= 1 && r * a + m * b == 1
    ensures (((a * u) % m) * r - u) % m == 0
  {
    var au := a * u;
    var c, q := au % m, au / m;
    DivModParts(au, m);
    CongruenceIdentity(r, a, b, u, m, q, c);
    MultipleOfModulus(c * r - u, m, -(u * b) - q * r);
  }

  lemma CongruenceIdentity(r: int, a: int, b: int, u: int, m: int, q: int, c: int)
    requires r * a + m * b == 1 && a * u == q * m + c
    ensures c * r - u == m * (-(u * b) - q * r)
  {
    calc {
      c * r - u;
      (a * u - q * m) * r - u;
      u * (r * a) - (q * r) * m - u;
      u * (1 - m * b) - (q * r) * m - u;
      m * (-(u * b) - q * r);
    }
  }

  /**
   * `check_number_signature(t, signature, public_key)`: whether
   * y^c1 * c1^c2 and g^t agree modulo p, with the three powers (each as
   * `fastmul` returns it) and p.
   */
  function CheckNumberSignature(t: nat, signature: Signature, publicKey: PublicKey)
    : (res: (bool, (int, int, int, nat)))
    requires publicKey.p >= 1
    ensures var (p, g, y) := (publicKey.p, publicKey.g, publicKey.y);
      var (c1, c2) := (signature.c1, signature.c2);
      (res.0 <==> (Pow(y, c1) * Pow(c1, c2)) % p == Pow(g, t) % p) &&
      res.1.0 % p == Pow(y, c1) % p && res.1.1 % p == Pow(c1, c2) % p &&
      res.1.2 % p == Pow(g, t) % p && res.1.3 == p
  {
    var (p, g, y) := (publicKey.p, publicKey.g, publicKey.y);
    var (c1, c2) := (signature.c1, signature.c2);
    var yc1 := ModPow(y, c1, p);
    var c1c2 := ModPow(c1, c2, p);
    var gt := ModPow(g, t, p);
    ModPowProperties(y, c1, p);
    ModPowProperties(c1, c2, p);
    ModPowProperties(g, t, p);
    CheckEquation(yc1, c1c2, gt, Pow(y, c1), Pow(c1, c2), Pow(g, t), p);
    ((yc1 * c1c2 - gt) % p == 0, (yc1, c1c2, gt, p))
  }

  lemma CheckEquation(a: int, b: int, c: int, A: int, B: int, C: int, p: nat)
    requires p >= 1 && a % p == A % p && b % p == B % p && c % p == C % p
    ensures (a * b - c) % p == 0 <==> (A * B) % p == C % p
  {
    ModEqIffDivides(a * b, c, p);
    ModMul(a, b, p);
    ModMul(A, B, p);
  }

  /**
   * For a prime p, a signature with the properties SignNumber ensures
   * passes the check (Fermat's little theorem reduces the exponent
   * x*c1 + r*c2 modulo p - 1).
   */
  lemma SignThenCheck(t: nat, x: nat, publicKey: PublicKey, r: nat, signature: Signature)
    requires IsPrime(publicKey.p) && 2 <= publicKey.g < publicKey.p - 1
    requires publicKey.y == Pow(publicKey.g, x) % publicKey.p
    requires signature.c1 == Pow(publicKey.g, r) % publicKey.p
    requires (signature.c2 * r + x * signature.c1 - t) % (publicKey.p - 1) == 0
    ensures CheckNumberSignature(t, signature, publicKey).0
  {
    var (p, g, y) := (publicKey.p, publicKey.g, publicKey.y);
    var (c1, c2) := (signature.c1, signature.c2);
    ExponentNonNegative(x, c1, r, c2);
    var e: nat := x * c1 + r * c2;
    SignedResidues(g, x, r, c1, c2, p);
    assert e - t == c2 * r + x * c1 - t;
    ModEqIffDivides(e, t, p - 1);
    ModSmall(g, p);
    Fermat.PowExponentModPrime(g, e, t, p);
  }

  /**
   * With y = g^x and c1 = g^r (mod p), the product the check computes is
   * g^(x*c1 + r*c2) (mod p).
   */
  lemma SignedResidues(g: nat, x: nat, r: nat, c1: nat, c2: nat, p: nat)
    requires p >= 1 && c1 == Pow(g, r) % p
    ensures (Pow(Pow(g, x) % p, c1) * Pow(c1, c2)) % p == Pow(g, x * c1 + r * c2) % p
  {
    ReducedPower(g, x, c1, p);
    ReducedPower(g, r, c2, p);
    ProductOfPowers(Pow(Pow(g, x) % p, c1), Pow(c1, c2), g, x * c1, r * c2, p);
  }

  /** The exponent x*c1 + r*c2 of natural numbers is itself natural. */
  lemma ExponentNonNegative(x: nat, c1: nat, r: nat, c2: nat)
    ensures x * c1 + r * c2 >= 0
  {
  }

  /** Raising a residue of g^x to c gives the residue of g^(x*c). */
  lemma ReducedPower(g: int, x: nat, c: nat, p: nat)
    requires p >= 1
    ensures Pow(Pow(g, x) % p, c) % p == Pow(g, x * c) % p
  {
    PowMod(Pow(g, x), c, p);
    PowMul(g, x, c);
  }

  /** Residues of powers of g multiply by adding exponents. */
  lemma ProductOfPowers(A: int, B: int, g: int, e1: nat, e2: nat, p: nat)
    requires p >= 1 && A % p == Pow(g, e1) % p && B % p == Pow(g, e2) % p
    ensures (A * B) % p == Pow(g, e1 + e2) % p
  {
    PowAdd(g, e1, e2);
    ModMul(A, B, p);
    ModMul(Pow(g, e1), Pow(g, e2), p);
  }
}
