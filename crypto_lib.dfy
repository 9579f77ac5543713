/**
 * The shared numeric primitives of crypto_lib.py (duplicated verbatim as the
 * underscore-prefixed helpers of lab1task1/rsa_lib.py): square-and-multiply
 * modular exponentiation, the recursive extended Euclid solver, the modular
 * inverse and gcd built on it, and little-endian byte/block chunking.
 */
module CryptoLib {
  import opened NumberTheory
  import opened Wrappers

  // ---------------------------------------------------------------------
  // Modular exponentiation

  /**
   * What `fastmul(x, d, mod)` computes: x^d reduced modulo mod, except that
   * for d = 0 the loop never runs and the initial accumulator 1 comes back
   * unreduced.
   */
  function ModPow(x: int, d: nat, mod: int): int
    requires mod > 0
  {
    if d == 0 then 1 else Pow(x, d) % mod
  }

  lemma ModPowProperties(x: int, d: nat, mod: int)
    requires mod > 0
    ensures ModPow(x, d, mod) % mod == Pow(x, d) % mod
    ensures d > 0 ==> 0 <= ModPow(x, d, mod) < mod
    ensures 0 <= ModPow(x, d, mod) && (mod > 1 ==> ModPow(x, d, mod) < mod)
  {
    if d == 0 {
      if mod > 1 { ModSmall(1, mod); }
    } else {
      ModOfMod(Pow(x, d), mod);
    }
  }

  /** Python's `a & b` on non-negative integers. */
  function BitAnd(a: nat, b: nat): nat
    decreases a
  {
    if a == 0 || b == 0 then 0
    else 2 * BitAnd(a / 2, b / 2) + (if a % 2 == 1 && b % 2 == 1 then 1 else 0)
  }

  lemma DivDiv(d: nat, a: nat, b: nat)
    requires a > 0 && b > 0
    ensures (d / a) / b == d / (a * b)
  {
    var q1, r1 := d / a, d % a;
    var q2, r2 := q1 / b, q1 % b;
    assert d == q1 * a + r1;
    assert q1 == q2 * b + r2;
    assert q1 * a == q2 * (a * b) + r2 * a by {
      assert (q2 * b + r2) * a == q2 * (b * a) + r2 * a;
    }
    assert r2 * a <= (b - 1) * a by {
      MulLeq(r2, b - 1, a);
    }
    assert (b - 1) * a == a * b - a;
    DivModUnique(d, q2, r2 * a + r1, a * b);
  }

  lemma MulLeq(x: int, y: int, z: int)
    requires x <= y && z >= 0
    ensures x * z <= y * z
  {
  }

  /** With a single-bit mask 2^i, `mask & d` is non-zero exactly when bit i of d is set. */
  lemma {:induction false} BitAndPow2(i: nat, d: nat)
    ensures BitAnd(Pow2(i), d) != 0 <==> (d / Pow2(i)) % 2 == 1
    decreases i
  {
    if d == 0 {
      assert BitAnd(Pow2(i), d) == 0;
      DivModUnique(0, 0, 0, Pow2(i));
    } else if i == 0 {
      assert Pow2(0) == 1;
      assert BitAnd(1, d) == 2 * BitAnd(0, d / 2) + (if d % 2 == 1 then 1 else 0);
    } else {
      var m := Pow2(i);
      var h := Pow2(i - 1);
      assert m == 2 * h;
      assert m % 2 == 0 && m / 2 == h;
      assert BitAnd(m, d) == 2 * BitAnd(h, d / 2);
      BitAndPow2(i - 1, d / 2);
      DivDiv(d, 2, h);
      assert (d / 2) / h == d / m;
    }
  }

  /** Bit i of d extends the low i bits of d to its low i + 1 bits. */
  lemma LowBitsStep(d: nat, i: nat)
    ensures d % Pow2(i + 1) == d % Pow2(i) + (if (d / Pow2(i)) % 2 == 1 then Pow2(i) else 0)
  {
    var q, r := d / Pow2(i), d % Pow2(i);
    var bit := q % 2;
    assert d == Pow2(i) * q + r;
    assert q == 2 * (q / 2) + bit;
    assert d == (q / 2) * Pow2(i + 1) + (bit * Pow2(i) + r);
    DivModUnique(d, q / 2, bit * Pow2(i) + r, Pow2(i + 1));
  }

  lemma FastMulSquareStep(x: int, p: int, i: nat, mod: int)
    requires mod > 0 && p % mod == Pow(x, Pow2(i)) % mod
    ensures ((p * p) % mod) % mod == Pow(x, Pow2(i + 1)) % mod
  {
    ModOfMod(p * p, mod);
    ModMul(p, p, mod);
    ModMul(Pow(x, Pow2(i)), Pow(x, Pow2(i)), mod);
    PowAdd(x, Pow2(i), Pow2(i));
  }

  lemma FastMulMultiplyStep(x: int, r: int, p: int, lo: nat, i: nat, mod: int)
    requires mod > 0
    requires r % mod == Pow(x, lo) % mod && p % mod == Pow(x, Pow2(i)) % mod
    ensures 0 <= (r * p) % mod < mod
    ensures ((r * p) % mod) % mod == Pow(x, lo + Pow2(i)) % mod
  {
    ModOfMod(r * p, mod);
    ModMul(r, p, mod);
    ModMul(Pow(x, lo), Pow(x, Pow2(i)), mod);
    PowAdd(x, lo, Pow2(i));
  }

  /**
   * `fastmul(x, d, mod)`: square-and-multiply over the bit_length(d) bits of
   * d, least significant first. After `bit` rounds `mask` is 2^bit, `p` is
   * x^(2^bit) and `r` is x^(d mod 2^bit), both modulo mod.
   */
  method FastMul(x: int, d: nat, mod: int) returns (r: int)
    requires mod > 0
    ensures r == ModPow(x, d, mod)
    ensures d == 0 ==> r == 1
    ensures d > 0 ==> 0 <= r < mod && r == Pow(x, d) % mod
  {
    r := 1;
    var p := x;
    var mask: nat := 1;
    for bit := 0 to BitLength(d)
      invariant mask == Pow2(bit)
      invariant p % mod == Pow(x, Pow2(bit)) % mod
      invariant r % mod == Pow(x, d % Pow2(bit)) % mod
      invariant d % Pow2(bit) == 0 ==> r == 1
      invariant d % Pow2(bit) != 0 ==> 0 <= r < mod
    {
      LowBitsStep(d, bit);
      BitAndPow2(bit, d);
      if BitAnd(mask, d) != 0 {
        FastMulMultiplyStep(x, r, p, d % Pow2(bit), bit, mod);
        r := r * p;
        r := r % mod;
      }
      FastMulSquareStep(x, p, bit, mod);
      mask := mask * 2;
      p := p * p;
      p := p % mod;
    }
    ModSmall(d, Pow2(BitLength(d)));
    if d > 0 { ModSmall(r, mod); }
  }

  // ---------------------------------------------------------------------
  // Euclid

  /**
   * `crypto_lib.gcd`, which crypto_lib.py does not define here: modelled as
   * Euclid's algorithm that first orders its arguments, as solve_diophantine does.
   */
  function Gcd(a: nat, b: nat): (g: nat)
    ensures Divides(g, a) && Divides(g, b)
    ensures a > 0 || b > 0 ==> g > 0
    decreases Min(a, b), if a > b then 1 else 0
  {
    if a > b then Gcd(b, a)
    else if a == 0 then b
    else
      var g := Gcd(b % a, a);
      assert Divides(g, b) by {
        assert b == (b / a) * a + 1 * (b % a);
        DividesLinear(g, a, b % a, b / a, 1);
      }
      g
  }

  /**
   * `solve_diophantine(a, b)`: Bezout coefficients by the recursive extended
   * Euclid algorithm. The arguments are swapped into ascending order first,
   * so the first coefficient belongs to the smaller argument, not to `a`.
   * Each recursive call's smaller argument `b % a` is below `a`.
   */
  function SolveDiophantine(a: nat, b: nat): (r: (int, int))
    ensures Min(a, b) * r.0 + Max(a, b) * r.1 == Gcd(a, b)
    decreases Min(a, b)
  {
    var lo := Min(a, b);
    var hi := Max(a, b);
    if lo == 0 then (0, 1)
    else
      var r1 := SolveDiophantine(hi % lo, lo);
      assert Gcd(a, b) == Gcd(hi % lo, lo);
      BezoutStep(lo, hi, r1.0, r1.1);
      (r1.1 - (hi / lo) * r1.0, r1.0)
  }

  lemma BezoutStep(lo: nat, hi: nat, x1: int, y1: int)
    requires lo > 0
    ensures lo * (y1 - (hi / lo) * x1) + hi * x1 == (hi % lo) * x1 + lo * y1
  {
    var q, rem := hi / lo, hi % lo;
    assert hi == lo * q + rem;
    calc {
      lo * (y1 - q * x1) + hi * x1;
      lo * y1 - lo * q * x1 + (lo * q + rem) * x1;
      rem * x1 + lo * y1;
    }
  }

  /**
   * The coefficients stay small: neither exceeds the larger argument, and
   * the second not even the smaller one, once the smaller argument is positive.
   */
  lemma {:induction false} SolveDiophantineBound(a: nat, b: nat)
    requires Min(a, b) >= 1
    ensures -Max(a, b) <= SolveDiophantine(a, b).0 <= Max(a, b)
    ensures -Min(a, b) <= SolveDiophantine(a, b).1 <= Min(a, b)
    decreases Min(a, b)
  {
    var lo, hi := Min(a, b), Max(a, b);
    var q, rem := hi / lo, hi % lo;
    assert hi == q * lo + rem;
    var r1 := SolveDiophantine(rem, lo);
    assert SolveDiophantine(a, b) == (r1.1 - q * r1.0, r1.0);
    if rem >= 1 {
      SolveDiophantineBound(rem, lo);
      CoefficientBound(q, rem, lo, r1.0, r1.1);
    } else {
      assert r1 == (0, 1);
    }
  }

  lemma CoefficientBound(q: nat, rem: int, lo: int, x1: int, y1: int)
    requires -lo <= x1 <= lo && -rem <= y1 <= rem
    ensures -(q * lo + rem) <= y1 - q * x1 <= q * lo + rem
  {
    assert -(q * lo) <= q * x1 <= q * lo by {
      if x1 >= 0 {
        assert q * x1 <= q * lo;
      } else {
        assert q * (-x1) <= q * lo;
      }
    }
  }

  /** Every common divisor of a and b divides Gcd(a, b): it is the greatest one. */
  lemma GcdGreatest(d: nat, a: nat, b: nat)
    requires Divides(d, a) && Divides(d, b)
    ensures Divides(d, Gcd(a, b))
  {
    var (x, y) := SolveDiophantine(a, b);
    DividesLinear(d, Min(a, b), Max(a, b), x, y);
  }

  /** A prime shares no factor with a number it does not divide. */
  lemma PrimeCoprime(p: nat, a: nat)
    requires IsPrime(p) && a % p != 0
    ensures Gcd(a, p) == 1
  {
    DividesBound(Gcd(a, p), p);
  }

  /**
   * `crypto_lib.inverse_in_group(a, n)`, which crypto_lib.py does not define
   * here: modelled the way rsa_lib.make_keypair derives an inverse, as the
   * first Bezout coefficient of solve_diophantine(a, n) reduced modulo n.
   * Every caller passes a residue a < n; for a coprime to n it is the inverse.
   */
  function InverseInGroup(a: nat, n: nat): (r: nat)
    requires n >= 1
    ensures r < n
    ensures a < n && Gcd(a, n) == 1 ==> (a * r) % n == 1 % n
  {
    var (x, y) := SolveDiophantine(a, n);
    var r := x % n;
    assert a < n && Gcd(a, n) == 1 ==> (a * r) % n == 1 % n by {
      if a < n && Gcd(a, n) == 1 {
        assert a * x + n * y == 1;
        calc {
          (a * r) % n;
          { ModMul(a, x % n, n); ModOfMod(x, n); ModMul(a, x, n); }
          (a * x) % n;
          { ModAddMultiple(a * x, y, n); }
          (a * x + y * n) % n;
          1 % n;
        }
      }
    }
    r
  }

  /** For a prime modulus every non-zero residue is invertible. */
  lemma InverseModPrime(a: nat, p: nat)
    requires IsPrime(p) && 0 < a < p
    ensures 0 <= InverseInGroup(a, p) < p
    ensures (a * InverseInGroup(a, p)) % p == 1
  {
    ModSmall(a, p);
    PrimeCoprime(p, a);
    ModSmall(1, p);
  }

  // ---------------------------------------------------------------------
  // Little-endian chunking

  type Byte = x: int | 0 <= x < 256

  function Zeros(k: nat): (z: seq<Byte>)
    ensures |z| == k && forall i :: 0 <= i < k ==> z[i] == 0
  {
    seq(k, _ => 0)
  }

  /** `int.from_bytes(s, "little")`. */
  function FromLE(s: seq<Byte>): (v: nat)
    ensures v < Pow(256, |s|)
    decreases |s|
  {
    if s == [] then 0 else s[0] + 256 * FromLE(s[1..])
  }

  /** The k least significant base-256 digits of v, least significant first. */
  function LEDigits(v: nat, k: nat): (s: seq<Byte>)
    ensures |s| == k
    decreases k
  {
    if k == 0 then [] else [v % 256] + LEDigits(v / 256, k - 1)
  }

  /** `v.to_bytes(k, byteorder="little")`: OverflowError when v needs more than k bytes. */
  function ToLE(v: nat, k: nat): (r: Result<seq<Byte>>)
    ensures r.Ok? <==> v < Pow(256, k)
    ensures r.Ok? ==> |r.value| == k && FromLE(r.value) == v
  {
    if v < Pow(256, k) then
      LEDigitsRoundTrip(v, k);
      Ok(LEDigits(v, k))
    else Raised(OverflowError)
  }

  lemma {:induction false} LEDigitsRoundTrip(v: nat, k: nat)
    requires v < Pow(256, k)
    ensures FromLE(LEDigits(v, k)) == v
    decreases k
  {
    if k > 0 {
      LEDigitsRoundTrip(v / 256, k - 1);
      assert LEDigits(v, k)[1..] == LEDigits(v / 256, k - 1);
    }
  }

  /** Re-encoding a short slice pads it with zero bytes. */
  lemma {:induction false} FromLEPadded(s: seq<Byte>, k: nat)
    requires |s| <= k
    ensures LEDigits(FromLE(s), k) == s + Zeros(k - |s|)
    decreases k
  {
    if k > 0 {
      if s == [] {
        FromLEPadded([], k - 1);
        assert LEDigits(0, k) == [0] + LEDigits(0, k - 1);
        assert Zeros(k) == [0] + Zeros(k - 1);
      } else {
        var v := FromLE(s);
        assert v % 256 == s[0] && v / 256 == FromLE(s[1..]) by {
          DivModUnique(v, FromLE(s[1..]), s[0], 256);
        }
        FromLEPadded(s[1..], k - 1);
        assert s + Zeros(k - |s|) == [s[0]] + (s[1..] + Zeros(k - 1 - |s[1..]|));
      }
    }
  }

  /** The comprehension of `message_to_blocks` for a non-zero step. */
  function LEBlocks(m: seq<Byte>, bs: nat): seq<nat>
    requires bs >= 1
    decreases |m|
  {
    if |m| == 0 then []
    else if |m| <= bs then [FromLE(m)]
    else [FromLE(m[..bs])] + LEBlocks(m[bs..], bs)
  }

  /**
   * `message_to_blocks(message, block_size)`: the little-endian values of the
   * consecutive block_size-byte slices (the last one may be shorter).
   * `range` refuses a zero step.
   */
  function MessageToBlocks(m: seq<Byte>, bs: nat): (r: Result<seq<nat>>)
    ensures r.Raised? <==> bs == 0
    ensures r.Raised? ==> r.error == ValueError
    ensures r.Ok? ==> |r.value| == (|m| + bs - 1) / bs
    ensures r.Ok? ==> forall i :: 0 <= i < |r.value| ==>
      r.value[i] < Pow(256, bs) &&
      i * bs < |m| &&
      r.value[i] == FromLE(m[i * bs .. Min(i * bs + bs, |m|)])
  {
    if bs == 0 then Raised(ValueError)
    else
      LEBlocksSpec(m, bs);
      Ok(LEBlocks(m, bs))
  }

  lemma {:induction false} LEBlocksSpec(m: seq<Byte>, bs: nat)
    requires bs >= 1
    ensures |LEBlocks(m, bs)| == (|m| + bs - 1) / bs
    ensures forall i :: 0 <= i < |LEBlocks(m, bs)| ==>
      LEBlocks(m, bs)[i] < Pow(256, bs) &&
      i * bs < |m| &&
      LEBlocks(m, bs)[i] == FromLE(m[i * bs .. Min(i * bs + bs, |m|)])
  {
    LEBlocksLength(m, bs);
    forall i | 0 <= i < |LEBlocks(m, bs)|
      ensures LEBlocks(m, bs)[i] < Pow(256, bs) && i * bs < |m| &&
              LEBlocks(m, bs)[i] == FromLE(m[i * bs .. Min(i * bs + bs, |m|)])
    {
      BlockAt(m, bs, i, i * bs);
    }
  }

  lemma {:induction false} LEBlocksLength(m: seq<Byte>, bs: nat)
    requires bs >= 1
    ensures |LEBlocks(m, bs)| == (|m| + bs - 1) / bs
    decreases |m|
  {
    if |m| == 0 {
      DivModUnique(bs - 1, 0, bs - 1, bs);
    } else if |m| <= bs {
      DivModUnique(|m| + bs - 1, 1, |m| - 1, bs);
    } else {
      LEBlocksLength(m[bs..], bs);
      DivPlusDivisor(|m| - 1, bs);
    }
  }

  lemma DivPlusDivisor(x: int, m: int)
    requires m > 0
    ensures (x + m) / m == x / m + 1
  {
    var q, r := x / m, x % m;
    assert x == q * m + r;
    assert x + m == (q + 1) * m + r;
    DivModUnique(x + m, q + 1, r, m);
  }

  /** (i + 1) * bs is i * bs + bs. */
  lemma MulSucc(i: int, bs: int)
    ensures (i + 1) * bs == i * bs + bs
  {
  }

  /** Block i starts at offset lo = i * bs, stated without the product. */
  lemma {:induction false} BlockAt(m: seq<Byte>, bs: nat, i: nat, lo: nat)
    requires bs >= 1 && i < |LEBlocks(m, bs)| && lo == i * bs
    ensures lo < |m|
    ensures LEBlocks(m, bs)[i] == FromLE(m[lo .. Min(lo + bs, |m|)])
    ensures LEBlocks(m, bs)[i] < Pow(256, bs)
    decreases |m|
  {
    if i == 0 {
      FirstBlock(m, bs);
    } else {
      var rest := m[bs..];
      BlockTail(m, bs, i);
      MulSucc(i - 1, bs);
      BlockAt(rest, bs, i - 1, lo - bs);
      SliceTail(m, bs, lo);
    }
  }

  lemma FirstBlock(m: seq<Byte>, bs: nat)
    requires bs >= 1 && 0 < |LEBlocks(m, bs)|
    ensures 0 < |m|
    ensures LEBlocks(m, bs)[0] == FromLE(m[0 .. Min(bs, |m|)])
    ensures LEBlocks(m, bs)[0] < Pow(256, bs)
  {
    if |m| <= bs {
      assert m[0 .. Min(bs, |m|)] == m;
      PowMonotone(256, |m|, bs);
    } else {
      assert m[0 .. Min(bs, |m|)] == m[..bs];
    }
  }

  lemma BlockTail(m: seq<Byte>, bs: nat, i: nat)
    requires bs >= 1 && |m| > bs && 1 <= i < |LEBlocks(m, bs)|
    ensures i - 1 < |LEBlocks(m[bs..], bs)|
    ensures LEBlocks(m, bs)[i] == LEBlocks(m[bs..], bs)[i - 1]
  {
  }

  lemma SliceTail(m: seq<Byte>, bs: nat, lo: nat)
    requires bs < |m| && bs <= lo < |m|
    ensures m[bs..][lo - bs .. Min(lo, |m| - bs)] == m[lo .. Min(lo + bs, |m|)]
  {
  }

  /** The comprehension of `blocks_to_bytes_chunks` when every block fits. */
  function EncodeBlocks(blocks: seq<nat>, bs: nat): (chunks: seq<seq<Byte>>)
    ensures |chunks| == |blocks|
    ensures forall i :: 0 <= i < |blocks| ==> chunks[i] == LEDigits(blocks[i], bs)
  {
    seq(|blocks|, i requires 0 <= i < |blocks| => LEDigits(blocks[i], bs))
  }

  predicate AllFit(blocks: seq<nat>, bs: nat) {
    forall i :: 0 <= i < |blocks| ==> blocks[i] < Pow(256, bs)
  }

  /**
   * `blocks_to_bytes_chunks(blocks, block_size)`: each block as a
   * block_size-byte little-endian chunk; `to_bytes` raises OverflowError on
   * the first block that does not fit.
   */
  function BlocksToBytesChunks(blocks: seq<nat>, bs: nat): (r: Result<seq<seq<Byte>>>)
    ensures r.Ok? <==> AllFit(blocks, bs)
    ensures r.Raised? ==> r.error == OverflowError
    ensures r.Ok? ==> |r.value| == |blocks| && forall i :: 0 <= i < |blocks| ==>
      |r.value[i]| == bs && FromLE(r.value[i]) == blocks[i]
  {
    if AllFit(blocks, bs) then
      var chunks := EncodeBlocks(blocks, bs);
      assert forall i :: 0 <= i < |blocks| ==> FromLE(chunks[i]) == blocks[i] by {
        forall i | 0 <= i < |blocks| ensures FromLE(chunks[i]) == blocks[i] {
          LEDigitsRoundTrip(blocks[i], bs);
        }
      }
      Ok(chunks)
    else Raised(OverflowError)
  }

  /** `b"".join(chunks)`. */
  function Join(chunks: seq<seq<Byte>>): seq<Byte>
    decreases |chunks|
  {
    if chunks == [] then [] else chunks[0] + Join(chunks[1..])
  }

  lemma {:induction false} JoinLength(chunks: seq<seq<Byte>>, k: nat)
    requires forall i :: 0 <= i < |chunks| ==> |chunks[i]| == k
    ensures |Join(chunks)| == k * |chunks|
    decreases |chunks|
  {
    if chunks != [] { JoinLength(chunks[1..], k); }
  }

  /**
   * Chunking is undone by joining: the chunks of the blocks of m, joined,
   * are m followed by zero bytes up to a multiple of the block size.
   */
  lemma {:induction false} JoinEncodeBlocks(m: seq<Byte>, bs: nat)
    requires bs >= 1
    ensures AllFit(LEBlocks(m, bs), bs)
    ensures bs * |LEBlocks(m, bs)| >= |m|
    ensures Join(EncodeBlocks(LEBlocks(m, bs), bs)) == m + Zeros(bs * |LEBlocks(m, bs)| - |m|)
    decreases |m|
  {
    var b := LEBlocks(m, bs);
    if |m| == 0 {
      assert b == [];
      assert Join(EncodeBlocks(b, bs)) == [];
    } else if |m| <= bs {
      assert b == [FromLE(m)];
      PowMonotone(256, |m|, bs);
      FromLEPadded(m, bs);
      var eb := EncodeBlocks(b, bs);
      assert eb == [LEDigits(FromLE(m), bs)];
      assert Join(eb) == eb[0] + Join([]);
    } else {
      var rest := m[bs..];
      JoinEncodeBlocks(rest, bs);
      var br := LEBlocks(rest, bs);
      assert b == [FromLE(m[..bs])] + br;
      FromLEPadded(m[..bs], bs);
      JoinStep(m, bs, b, br);
    }
  }

  lemma JoinStep(m: seq<Byte>, bs: nat, b: seq<nat>, br: seq<nat>)
    requires 1 <= bs < |m|
    requires b == [FromLE(m[..bs])] + br
    requires LEDigits(FromLE(m[..bs]), bs) == m[..bs] + Zeros(0)
    requires AllFit(br, bs) && bs * |br| >= |m| - bs
    requires Join(EncodeBlocks(br, bs)) == m[bs..] + Zeros(bs * |br| - (|m| - bs))
    ensures AllFit(b, bs)
    ensures bs * |b| >= |m|
    ensures Join(EncodeBlocks(b, bs)) == m + Zeros(bs * |b| - |m|)
  {
    var rest := m[bs..];
    assert FromLE(m[..bs]) < Pow(256, bs);
    var eb := EncodeBlocks(b, bs);
    assert eb[0] == m[..bs];
    assert eb[1..] == EncodeBlocks(br, bs);
    assert bs * |b| == bs + bs * |br|;
    var pad := bs * |br| - |rest|;
    assert bs * |b| - |m| == pad;
    calc {
      Join(eb);
      eb[0] + Join(eb[1..]);
      m[..bs] + (rest + Zeros(pad));
      { assert m == m[..bs] + rest; }
      m + Zeros(pad);
    }
  }

  /** Joining fixed-size chunks and splitting again at that size gives back their values. */
  lemma {:induction false} BlocksOfJoin(blocks: seq<nat>, k: nat)
    requires k >= 1 && AllFit(blocks, k)
    ensures LEBlocks(Join(EncodeBlocks(blocks, k)), k) == blocks
    decreases |blocks|
  {
    if blocks != [] {
      var chunks := EncodeBlocks(blocks, k);
      assert chunks[1..] == EncodeBlocks(blocks[1..], k);
      BlocksOfJoin(blocks[1..], k);
      LEDigitsRoundTrip(blocks[0], k);
      JoinLength(chunks[1..], k);
      var j := Join(chunks);
      assert j == chunks[0] + Join(chunks[1..]);
      if |blocks| == 1 {
        assert j == chunks[0];
      } else {
        assert j[..k] == chunks[0] && j[k..] == Join(chunks[1..]);
      }
    }
  }
}
