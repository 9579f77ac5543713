# Toy public-key cryptography: a verified Dafny model

This project models the number-theory core of the `cryptography_class` course
repository and proves properties of it. The core has five parts:

- the shared modular-arithmetic helpers in `crypto_lib.py`: square-and-multiply
  exponentiation, recursive extended Euclid, and little-endian block chunking;
- the prime-table picker in `primes.py`, with its lower-bound binary search;
- textbook RSA in `lab1task1/rsa_lib.py`: the private exponent, plus a length
  header and block framing for `encrypt` and `decrypt`;
- ElGamal signing over Z_p* in `lab1task2/elgamal_lib.py`;
- the elliptic-curve part of `lab2/ecdsa.py`:
  - the chord-and-tangent group law over F_p (SEC 1 v2.0, section 2.2.1), with negation and double-and-add scalar multiplication;
  - brute-force point enumeration using Euler's criterion;
  - a Sieve of Eratosthenes;
  - the base-point order search;
  - ECDSA key generation, signing and verification (SEC 1 v2.0, sections 4.1.3 and 4.1.4), signing a raw integer `t` rather than a hash.

Modules, one per concept:

| module | file | models |
|---|---|---|
| `Wrappers` | wrappers.dfy | `Option`, and `Result` with the Python exception a call raises |
| `NumberTheory` | number_theory.dfy | `Pow`, bit length, divisibility and primality, modular-arithmetic lemmas |
| `CryptoLib` | crypto_lib.dfy | `fastmul`, `gcd`, `solve_diophantine`, `inverse_in_group`, block chunking |
| `Fermat` | fermat.dfy | the binomial theorem and Fermat's little theorem, used for ElGamal |
| `Primes` | primes.dfy | `_bin_search` and `RandomPrimeNumberGenerator.__call__` |
| `RsaLib` | rsa_lib.dfy | `make_keypair`, `encrypt`, `decrypt` |
| `ElGamal` | elgamal.dfy | `make_keypair`, `sign_number`, `check_number_signature` |
| `EcGroup` | ec_group.dfy | `EllipticPoint.__neg__`, `__add__`, `__mul__`, `__sub__` |
| `EcPoints` | ec_points.dfy | `generate_curve_points` |
| `Sieve` | sieve.dfy | `generate_primes` |
| `Ecdsa` | ecdsa.dfy | the order search, key generation, signing and verification inside `main` |

Loops in the source stay loops in the model:

- `fastmul`, `_bin_search`, the `__mul__` loop, the point enumeration, the sieve (over an `array<bool>`), the order search and both signing retry loops are `method`s with invariants.
- Each is proved against a specification function.
- The expression code (`__add__`, `solve_diophantine`, the chunking comprehensions, `encrypt`/`decrypt`) is made of functions.

How the source's behaviour is represented:

- A Python exception becomes `Raised(e)`, where `e` names the exception the source raises (`IndexError`, `ValueError`, `TypeError`, `OverflowError`, `AssertionError`).
- The identity point (`x is None`) is the constructor `Zero`.
- Randomness becomes parameters, as follows:
  - the values drawn by `random.randrange` are arguments with the source's ranges;
  - a retry loop takes a sequence of draws;
  - `primes.__call__` picks an arbitrary index in range.

Three helpers are called but not defined in `crypto_lib.py`, so the model fixes what they mean:

- `fastpow` is the same function as `fastmul`.
- `gcd` is Euclid's algorithm.
- `inverse_in_group(a, n)` is the first coefficient of `solve_diophantine(a, n)` reduced modulo `n`. This is how `rsa_lib.make_keypair` derives an inverse.

Four behaviours of the source are easy to miss. The model keeps each of them as written:

- **ECDSA signing does not test `gcd(k, n) = 1`.** The loop (lab2/ecdsa.py:225-237) retries only when `r` or `s` is zero.
- **ECDSA verification raises rather than returning false.** Out-of-range `r` or `s` fails an `assert` (lab2/ecdsa.py:243-244), where SEC 1 v2.0 section 4.1.4 outputs "invalid". `Ecdsa.Verify` returns `Raised(AssertionError)` there.
- **Verification and signing can raise `TypeError`.**
  - Verification: when `u1·P + u2·Q` is the identity, `x0 % n` reads `None`. SEC 1 v2.0 section 4.1.4 rejects the signature instead.
  - Signing: the same happens when `k·P` is the identity. For a base point of prime order n this cannot happen with k in [1, n), but the order the source finds need not be prime (see the last item).
- **`generate_primes` is not a complete sieve.** Its loop bound is `(n+1)//2`, so `generate_primes(4)` lists 4. See Findings. The base point search in `main` uses this sieve as written, so on a curve of order 4 it accepts a point of order 4.

## Model

| member | source | states |
|---|---|---|
| CryptoLib.FastMul | crypto_lib.py:15-26 | the square-and-multiply loop returns x^d mod `mod` for d ≥ 1 (the equality with `(x ** d) % mod` that the self-test at crypto_lib.py:43-50 checks on random inputs), in [0, mod), and the unreduced 1 for d = 0; the invariants r ≡ x^(d mod 2^i) and p ≡ x^(2^i) are proved per iteration |
| CryptoLib.Gcd | lab1task2/elgamal_lib.py:21 | Euclid's result divides both arguments and is positive unless both are zero |
| CryptoLib.GcdGreatest | lab1task2/elgamal_lib.py:21 | every common divisor of a and b divides gcd(a, b), so it is the greatest one |
| CryptoLib.SolveDiophantine | crypto_lib.py:29-38 | the coefficients satisfy min(a,b)·x + max(a,b)·y = gcd(a,b), in sorted order rather than argument order; recursion terminates on the smaller argument |
| CryptoLib.SolveDiophantineBound | crypto_lib.py:29-38 | for non-zero arguments the first coefficient lies in [−max, max] and the second in [−min, min] |
| CryptoLib.InverseInGroup | lab1task1/rsa_lib.py:47-49 | the reduced first Bezout coefficient lies in [0, n) and inverts a residue a < n modulo n whenever gcd(a, n) = 1 |
| CryptoLib.InverseModPrime | lab2/ecdsa.py:232 | modulo a prime every residue 0 < a < p has the inverse (a·w) mod p = 1 |
| CryptoLib.ToLE | crypto_lib.py:12 | `int.to_bytes(k, "little")` succeeds exactly when v < 256^k, else OverflowError; success gives k bytes whose little-endian value is v |
| CryptoLib.MessageToBlocks | crypto_lib.py:4-8 | block size 0 raises ValueError; otherwise ceil(len/bs) blocks, block i the little-endian value of m[i·bs .. min((i+1)·bs, len)], each below 256^bs |
| CryptoLib.BlocksToBytesChunks | crypto_lib.py:11-12 | one bs-byte chunk per block that decodes back to the block, exactly when every block is below 256^bs; otherwise OverflowError |
| CryptoLib.JoinEncodeBlocks | crypto_lib.py:4-12 | re-encoding the blocks of m and concatenating gives m followed by zero bytes up to a multiple of bs |
| CryptoLib.BlocksOfJoin | crypto_lib.py:4-12 | splitting the concatenated bs-byte encodings of fitting blocks gives back the blocks |
| Primes.BinSearch | primes.py:38-56 | on a strictly ascending list the result i lies in [0, len], items before i are below the value, items from i on are at least the value, and a present value is found at its index; an empty list raises IndexError at `array[m]` |
| Primes.Call | primes.py:20-30 | the pick is a table prime in [minimum, maximum) and one is returned exactly when such a prime exists; an empty range raises ValueError, and a bound on an empty table raises IndexError |
| RsaLib.PrivateExponent | lab1task1/rsa_lib.py:46-50 | the adjusted Bezout coefficient d satisfies (e·d) mod m = 1 exactly when gcd(e, m) = 1 and m ≥ 2; otherwise the in-code assert fails |
| RsaLib.MakeKeypair | lab1task1/rsa_lib.py:38-53 | the key pair is ((p·q, e), d) for table primes p, q, e with e < (p−1)(q−1) and e·d ≡ 1; an empty table raises ValueError and a non-coprime e raises AssertionError |
| RsaLib.ModulusFits | lab1task1/rsa_lib.py:80-84 | n < 256^(block_size+1), so every ciphered block fits its block_size+1 bytes |
| RsaLib.EncryptWith | lab1task1/rsa_lib.py:81-84 | framing succeeds exactly when block_size ≥ 1 and the length fits the header, and the cipher length is block_size+1 times the number of plaintext blocks; otherwise ValueError or OverflowError |
| RsaLib.DecryptWith | lab1task1/rsa_lib.py:90-94 | decryption succeeds exactly when every decrypted block fits block_size bytes, which always holds when block_size ≥ 1 and n ≤ 256^block_size; otherwise OverflowError |
| RsaLib.StripHeader | lab1task1/rsa_lib.py:93-94 | the result is the slice after the block_size-byte header, of the header's length clipped to what is there |
| RsaLib.HeaderRoundTrip | lab1task1/rsa_lib.py:81 | a message prefixed by its length header and followed by any zero padding strips back to the message |
| RsaLib.FramingRoundTrip | lab1task1/rsa_lib.py:77-94 | when the per-block map is an inverse pair on [0, n) and 256^bs ≤ n, decrypting the encryption returns the message |
| RsaLib.Encrypt | lab1task1/rsa_lib.py:77-84 | with block_size = n.bit_length() // 8, encryption succeeds exactly when block_size ≥ 1 and len(message) < 256^block_size, and its length is a multiple of block_size+1 |
| RsaLib.Decrypt | lab1task1/rsa_lib.py:87-94 | decryption fails only by OverflowError, and never when bit_length(n) is a multiple of 8 |
| RsaLib.EncryptDecrypt | lab1task1/rsa_lib.py:182-191 | when bit_length(n) is not a multiple of 8, the message length fits the header and the block map is an inverse pair, decrypt(encrypt(m)) = m |
| RsaLib.RoundTripFailsOnByteAlignedModulus | lab1task1/rsa_lib.py:80 | when bit_length(n) is a multiple of 8, the all-0xFF message of block_size bytes encrypts but no cipher decrypts to it |
| RsaLib.RoundTripFailsFor143 | lab1task1/rsa_lib.py:195-204 | for n = 143, e = 7, d = 103 the one-byte message 0xFF does not survive the round trip |
| RsaLib.FixedBlockSize | lab1task1/rsa_lib.py:80 | the corrected block size bs satisfies 256^bs ≤ n < 256^(bs+1) |
| RsaLib.EncryptFixed | lab1task1/rsa_lib.py:77-84 | with the corrected block size, encryption succeeds exactly when the size is at least 1 and the length fits the header |
| RsaLib.DecryptFixed | lab1task1/rsa_lib.py:87-94 | with the corrected block size, decryption fails only by OverflowError |
| RsaLib.FixedRoundTrip | lab1task1/rsa_lib.py:182-191 | with the corrected block size, for every n ≥ 256, every message whose length fits the header and every inverse-pair block map, decrypt(encrypt(m)) = m |
| ElGamal.MakeKeypair | lab1task2/elgamal_lib.py:6-13 | p ≤ 3 raises ValueError (the draw randrange(2, p − 1) has an empty range), and only then; otherwise the private key is x and the public key is (p, g, g^x mod p), with y in [0, p) |
| ElGamal.DrawMultiplier | lab1task2/elgamal_lib.py:20-22 | starting from r = p−1, the loop stops at the first draw k with gcd(2k+1, p−1) = 1 and returns r = 2k+1, which is odd with 3 ≤ r ≤ p−2 |
| ElGamal.SignNumber | lab1task2/elgamal_lib.py:16-27 | the loop stops at the first draw giving r = 2k+1 with gcd(r, p−1) = 1, and r is odd with 3 ≤ r ≤ p−2; c1 = g^r mod p, c2 < p−1, and the in-code assertion c2·r + x·c1 ≡ t (mod p−1) holds |
| ElGamal.SignatureEquation | lab1task2/elgamal_lib.py:24-26 | for r < p−1 coprime to p−1, the first Bezout coefficient of solve_diophantine(r, p−1) makes c2 satisfy the signing congruence |
| ElGamal.CheckNumberSignature | lab1task2/elgamal_lib.py:30-36 | the check is true exactly when y^c1·c1^c2 ≡ g^t (mod p), and the three returned powers are congruent to y^c1, c1^c2 and g^t |
| ElGamal.SignThenCheck | lab1task2/demo.py:14-25 | for a prime p, a signature satisfying the signing congruence passes the check, by Fermat's little theorem |
| Fermat.FermatLittle | lab1task2/elgamal_lib.py:30-36 | a^(p−1) ≡ 1 (mod p) for prime p not dividing a |
| EcGroup.Neg | lab2/ecdsa.py:39-42 | the identity negates to itself; an affine point keeps its x, and its new y is in [0, p) with y + y' ≡ 0 |
| EcGroup.NegInvolutive | lab2/ecdsa.py:39-42 | negating an on-curve point twice gives it back |
| EcGroup.NegOnCurve | lab2/ecdsa.py:39-42 | the negation of an on-curve point is on the curve |
| EcGroup.Add | lab2/ecdsa.py:54-76 | the identity on either side returns the other operand; two affine points sum to the identity exactly when one is the negation of the other; an affine sum has coordinates in [0, p) |
| EcGroup.AddNegSelf | lab2/ecdsa.py:63-64 | P + (−P) is the identity, including points with y = 0 |
| EcGroup.AddDenominatorNonZero | lab2/ecdsa.py:66-73 | on a curve over an odd prime field, after the P = −Q test the doubling denominator 2y and the chord denominator x_Q − x_P are non-zero residues, so the inverse exists |
| EcGroup.ModQuotient | lab2/ecdsa.py:69-73 | the slope (n·inverse(d)) mod p lies in [0, p) and solves l·d ≡ n (mod p) for a prime p and d ≢ 0 |
| EcGroup.AddOnCurve | lab2/ecdsa.py:74-76 | the sum of two on-curve points is the identity or lies on the curve |
| EcGroup.AddCommutative | lab2/ecdsa.py:54-76 | for on-curve points P + Q = Q + P |
| EcGroup.Mul | lab2/ecdsa.py:78-90 | the double-and-add loop returns the recursive double-and-add spec, runs bit_length(|k|) iterations, and negative k gives −((−k)·P) |
| EcGroup.ScalarMulNegate | lab2/ecdsa.py:81-82 | (−k)·P = −(k·P) for on-curve P |
| EcGroup.ScalarMulSmall | lab2/ecdsa.py:78-90 | 0·P is the identity, 1·P = P, 2·P = P + P, and 3·P = P + (P + P) |
| EcGroup.ScalarMulOnCurve | lab2/ecdsa.py:78-90 | every multiple of an on-curve point is on the curve |
| EcGroup.ScalarMulOfZero | lab2/ecdsa.py:78-90 | every multiple of the identity is the identity |
| EcGroup.TestChord | lab2/ecdsa.py:156 | on E_19(1,2), (1,2) + (10,10) = (17,7) in both operand orders |
| EcGroup.TestDouble | lab2/ecdsa.py:157-158 | on E_19(1,2), (1,2) + (1,2) = (18,0) and 2·(1,2) = (18,0) |
| EcGroup.SubProperties | lab2/ecdsa.py:92-93 | P − Q = P + (−Q) of on-curve points is on the curve, is the identity exactly when P = Q, and P − 0 = P, 0 − Q = −Q |
| EcGroup.TestSub | lab2/ecdsa.py:159-160 | on E_19(1,2), q − q is the identity and q + p − q = p |
| EcGroup.TestOrder | lab2/ecdsa.py:161-166 | on E_19(1,2), repeatedly adding (1,2) reaches the identity at the fourth multiple |
| EcPoints.GenerateCurvePoints | lab2/ecdsa.py:107-120 | the enumeration loop returns the list the per-x specification builds, and the empty list for p ≤ 0 |
| EcPoints.PointsInRange | lab2/ecdsa.py:107-120 | every enumerated point is affine with 0 ≤ x < p and 0 ≤ y < p |
| EcPoints.PointsAscending | lab2/ecdsa.py:111-119 | x is non-decreasing along the list |
| EcPoints.PointsAtStructure | lab2/ecdsa.py:113-119 | the iteration for x appends nothing exactly when Euler's criterion is neither 0 nor 1, one point (x, 0) exactly when it passes with root 0, and otherwise the two points (x, y) and (x, p − y) with 0 < y < p |
| EcPoints.PointsOnCurve | lab2/ecdsa.py:112-119 | for p ≡ 3 (mod 4) every enumerated point satisfies y² ≡ x³ + ax + b (mod p) |
| EcPoints.GeneratedPointsExact | lab2/ecdsa.py:107-120 | for p ≡ 3 (mod 4) the enumerated points are exactly the affine points of the curve |
| EcPoints.TestGenerateCurvePoints | lab2/ecdsa.py:133-149 | E_19(1,2) enumerates to exactly the 11 expected points |
| Sieve.Indices | lab2/ecdsa.py:130 | the comprehension lists, in ascending order, exactly the indices whose flag is set |
| Sieve.AscendingDetermined | lab2/ecdsa.py:130 | two ascending lists with the same members are equal |
| Sieve.SieveUpTo | lab2/ecdsa.py:125-130 | n ≤ 0 raises IndexError; otherwise the result is ascending and contains k exactly when 0 ≤ k ≤ n and no d in [2, bound) with 2d ≤ k divides k |
| Sieve.CrossOut | lab2/ecdsa.py:128-129 | the inner loop clears exactly the multiples 2i, 3i, … of i and leaves every other flag unchanged |
| Sieve.SurvivorIsPrime | lab2/ecdsa.py:127-130 | a survivor below bound² is prime |
| Sieve.PrimeSurvives | lab2/ecdsa.py:127-130 | every prime survives any bound |
| Sieve.GeneratePrimes | lab2/ecdsa.py:123-130 | the as-written sieve with bound (n+1)//2: IndexError for n ≤ 0, otherwise the ascending survivors of that bound |
| Sieve.GeneratePrimesBound | lab2/ecdsa.py:127 | with the as-written bound, the survivors are exactly the primes ≤ n for every n ≥ 1 except 4 |
| Sieve.FourSurvivesAsWritten | lab2/ecdsa.py:127 | 4 survives the bound (4+1)//2 = 2 and is not prime |
| Sieve.GeneratePrimesOfFour | lab2/ecdsa.py:123-130 | generate_primes(4) returns [2, 3, 4] |
| Sieve.GeneratePrimesFixed | lab2/ecdsa.py:123-130 | with the loop bound n//2 + 1, n ≤ 0 raises IndexError and otherwise the result is ascending and contains exactly the primes ≤ n |
| Sieve.GeneratePrimesOf17 | lab2/ecdsa.py:172 | generate_primes(17) = [2, 3, 5, 7, 11, 13, 17] |
| Ecdsa.Order | lab2/ecdsa.py:199-207 | the recorded order is the least i ≤ m with i·P the identity, and 0 when no multiple up to m is the identity |
| Ecdsa.FirstZeroMultiple | lab2/ecdsa.py:199-207 | the accumulation loop stops at that least i |
| Ecdsa.FindBasePoint | lab2/ecdsa.py:195-207 | over the enumerated points, with curve order m = len+1 and the orders accepted from generate_primes(m) as written: n bounds every accepted order; no point is found exactly when n = 0, and then no order is accepted; otherwise P is the first point whose accepted order n is maximal, and n is prime unless m = 4 and n = 4; for m ≠ 4, finding no point means no point has prime order |
| Ecdsa.ListedOrder | lab2/ecdsa.py:197 | an order in generate_primes(m) is prime, except 4 when m = 4 |
| Ecdsa.MakeKeypair | lab2/ecdsa.py:211-214 | n < 2 raises ValueError (randrange(1, n)); a missing base point raises TypeError; otherwise the key is (a, b, P, n, d·P) with private d in [1, n) |
| Ecdsa.PublicPointOnCurve | lab2/ecdsa.py:212 | the public point d·P of an on-curve base point is on the curve |
| Ecdsa.Attempt | lab2/ecdsa.py:226-236 | one draw raises TypeError exactly when k·P is the identity; an accepted signature has 1 ≤ r, s < n with r = x(k·P) mod n and, for prime n, s·k ≡ t + d·r (mod n) |
| Ecdsa.TryDraw | lab2/ecdsa.py:228-236 | one pass of the loop body with draw k computes exactly the outcome `Attempt` specifies: TypeError, a retry, or a signature |
| Ecdsa.Sign | lab2/ecdsa.py:225-237 | the retry loop returns the outcome of the first draw that does not retry (TypeError or a signature), after every earlier draw retried |
| Ecdsa.Verify | lab2/ecdsa.py:242-251 | out-of-range r or s raises AssertionError; otherwise, with w = s⁻¹, X = (t·w mod n)·P + (r·w mod n)·Q, the identity X raises TypeError and otherwise the result is x(X) mod n = r |
| Ecdsa.VerifyScalars | lab2/ecdsa.py:245-247 | for prime n, when s·k ≡ t + d·r, the scalars satisfy u1 + u2·d ≡ k (mod n) |
| Ecdsa.SignThenVerifyScalars | lab2/ecdsa.py:225-247 | for prime n, every signature a draw produces gives verification scalars with u1 + u2·d ≡ k (mod n) |
| Ecdsa.TestOrderOfGenerator | lab2/ecdsa.py:161-166 | the order of (1,2) on E_19(1,2) is 4, which is not prime |
| Ecdsa.TestAssociative | lab2/ecdsa.py:160 | on E_19(1,2), (p + q) + (−q) = p + (q + (−q)) for p = (1,2), q = (10,10) |

## Left out

- File I/O:
  - loading the prime table from a file;
  - saving and loading RSA keys;
  - every CLI and demo script (`create_keypair.py`, `create_valid_message.py`, `read_messagebox.py`, `create_malicious_message.py`, `lab1task2/demo.py`);
  - all `print` output. None of this is arithmetic.
- Python protocol plumbing, because it has no arithmetic content:
  - `__repr__`, `__hash__` and `__iter__`;
  - the `isinstance` guards;
  - `__rsub__` and `__rmul__` (the same operations with swapped operands).
- `EllipticPoint.__eq__` compares coordinates only. It is Dafny's equality on `Point`, with the curve passed alongside.
- The duplicate copies of `_fastmul`, `_solve_diophantine`, `_message_to_blocks`, `_blocks_to_bytes_chunks`, `_bin_search` and `RandomPrimeNumberGenerator` in `lab1task1/rsa_lib.py`. They are textually identical to those in `crypto_lib.py` and `primes.py`, which are modelled once.
- Probability distributions of `random.randrange`. Draws are parameters, so the bias of ECDSA's `k` is not modelled and no security property is claimed.
- Ecdsa.Sign: the draw sequence must contain a draw that does not retry. The model does not capture a loop that never stops.
- ElGamal.DrawMultiplier: the draw sequence must contain a draw k with gcd(2k+1, p−1) = 1. The model does not capture a loop that never stops.
- ElGamal.SignNumber: the draw sequence must contain a draw that does not retry. The model does not capture a loop that never stops.
- Ecdsa.SignThenVerifyScalars: the full round trip verify(sign(t)) = true is not proved. Only the scalar identity u1 + u2·d ≡ k (mod n) is. Concluding that u1·P + u2·Q = k·P would need associativity of the group law, which is not proved in general; `Ecdsa.TestAssociative` checks one instance.
- Ecdsa.Order: the order is defined by repeated addition (`P, P+P, …`, as the search loop computes it). It is not related to `ScalarMul` beyond `EcGroup.ScalarMulSmall`, because that also needs associativity.
- RsaLib.FramingRoundTrip and RsaLib.EncryptDecrypt: the per-block map x ↦ x^d mod n is assumed to be inverted by x ↦ x^e mod n on [0, n). Full RSA correctness (x^(ed) ≡ x mod pq) is not proved.
- The group-law lemmas (`AddOnCurve`, `AddCommutative`, `AddDenominatorNonZero`) are proved for an odd prime p (`EcGroup.ValidCurve`) and for points with reduced coordinates (`EcGroup.OnCurve`). The non-singularity check `4a³ + 27b² ≢ 0` is not needed for them and is not modelled.
- EcPoints.PointsOnCurve and EcPoints.GeneratedPointsExact: these need p ≡ 3 (mod 4). The source assumes this without checking it, and for other primes its root y2^(p//4+1) is not a square root.
- The concrete curve E_23(−5,−1) in `main` and its discriminant assertion are not evaluated. The concrete checks use E_19(1,2) from the tests.
- `random.randrange(n)` for the ECDSA message `t`: it is a parameter with 0 ≤ t < n.

## Findings

| source | as written | input that shows it | evidently intended | confidence | as-written member | corrected member |
|---|---|---|---|---|---|---|
| lab1task1/rsa_lib.py:80 | `block_size = n.bit_length() // 8`, so when bit_length(n) is a multiple of 8 a full block_size-byte plaintext block can reach 256^block_size > n and is reduced modulo n | n = 143, e = 7, d = 103, message b"\xff": the header block 1 and the data block 255 ≥ 143 | a block size with 256^block_size ≤ n, i.e. (n.bit_length() − 1) // 8 | not executed | RsaLib.RoundTripFailsOnByteAlignedModulus, RsaLib.RoundTripFailsFor143 | RsaLib.FixedRoundTrip |
| lab2/ecdsa.py:127 | `for i in range(2, (n+1) // 2)` stops before i = 2 when n = 4, so 4 is never crossed out | generate_primes(4) returns [2, 3, 4] | a bound that reaches every i with 2i ≤ n, e.g. range(2, n//2 + 1) | not executed | Sieve.GeneratePrimesOfFour, Sieve.FourSurvivesAsWritten | Sieve.GeneratePrimesFixed |
