/**
 * Textbook RSA of lab1task1/rsa_lib.py: the key-pair arithmetic (the public
 * exponent drawn from the prime table, the private exponent as its inverse
 * modulo (p-1)(q-1)) and the framing of `encrypt`/`decrypt`, which prefixes
 * the message with its length and maps fixed-size little-endian blocks
 * through modular exponentiation.
 */
module RsaLib {
  import opened NumberTheory
  import opened Wrappers
  import opened CryptoLib
  import Primes

  datatype PublicKey = PublicKey(n: nat, e: nat)
  datatype Keypair = Keypair(privateKey: nat, publicKey: PublicKey)

  // ---------------------------------------------------------------------
  // Key pair

  /**
   * The inverse step of `make_keypair`: the first Bezout coefficient of
   * solve_diophantine(e, m), moved up by m when negative, checked by the
   * `assert (e * d) % m == 1`. The earlier `assert e <= m - 1` is the
   * precondition. The check passes exactly when e and m are coprime and
   * m is at least 2.
   */
  function PrivateExponent(e: nat, m: nat): (r: Result<nat>)
    requires e < m
    ensures r.Ok? <==> Gcd(e, m) == 1 && m >= 2
    ensures r.Ok? ==> r.value <= m && (e * r.value) % m == 1
    ensures r.Raised? ==> r.error == AssertionError
  {
    var x := SolveDiophantine(e, m).0;
    PrivateExponentFacts(e, m);
    var d: nat := if x < 0 then x + m else x;
    if (e * d) % m == 1 then Ok(d) else Raised(AssertionError)
  }

  lemma PrivateExponentFacts(e: nat, m: nat)
    requires e < m
    ensures var x := SolveDiophantine(e, m).0;
      var d := if x < 0 then x + m else x;
      0 <= d <= m && ((e * d) % m == 1 <==> Gcd(e, m) == 1 && m >= 2)
  {
    var r := SolveDiophantine(e, m);
    if e == 0 {
      assert Min(e, m) == 0 && r == (0, 1);
      assert Gcd(e, m) == m;
    } else {
      assert Min(e, m) == e && Max(e, m) == m;
      SolveDiophantineBound(e, m);
      InverseFromBezout(e, m, r.0, r.1);
    }
  }

  /** The Bezout coefficient x of e, moved into [0, m], inverts e exactly when e and m are coprime. */
  lemma InverseFromBezout(e: nat, m: nat, x: int, y: int)
    requires 1 <= e < m && e * x + m * y == Gcd(e, m) && 0 <= x + m && x <= m
    ensures var d := if x < 0 then x + m else x;
      0 <= d <= m && ((e * d) % m == 1 <==> Gcd(e, m) == 1)
  {
    var d := if x < 0 then x + m else x;
    if x < 0 {
      MulAddMultiple(e, x, m);
      ModAddMultiple(e * x, e, m);
    }
    CoprimeIffInverse(e, m, d, x, y);
  }

  lemma MulAddMultiple(e: int, x: int, m: int)
    ensures e * (x + m) == e * x + e * m
  {
  }

  /** e*d is 1 modulo m exactly when e and m are coprime, for d from a Bezout identity. */
  lemma CoprimeIffInverse(e: nat, m: nat, d: int, x: int, y: int)
    requires 1 <= e < m && e * x + m * y == Gcd(e, m)
    requires (e * d) % m == (e * x) % m
    ensures (e * d) % m == 1 <==> Gcd(e, m) == 1
  {
    var g := Gcd(e, m);
    var ex := e * x;
    NegMul(y, m);
    assert ex == g + (-y) * m;
    ModAddMultiple(g, -y, m);
    DividesBound(g, e);
    ModSmall(g, m);
    ModSmall(1, m);
  }

  lemma NegMul(y: int, m: int)
    ensures (-y) * m == -(m * y)
  {
  }

  lemma PositiveProduct(a: int, b: int)
    requires a >= 1 && b >= 1
    ensures a * b >= 1
  {
    MulAtLeast(a, b);
  }

  /**
   * `make_keypair(get_random_prime)`: two table primes p and q, n = pq,
   * m = (p-1)(q-1), a table prime e below m, and d its inverse modulo m.
   * The drawn primes are returned as ghost outputs.
   */
  method MakeKeypair(getRandomPrime: Primes.RandomPrimeNumberGenerator)
    returns (res: Result<Keypair>, ghost p: int, ghost q: int, ghost e: int)
    requires Primes.StrictlySorted(getRandomPrime.primes)
    requires forall i :: 0 <= i < |getRandomPrime.primes| ==> getRandomPrime.primes[i] >= 2
    ensures |getRandomPrime.primes| == 0 ==> res == Raised(ValueError)
    ensures res.Raised? ==> res.error == ValueError || res.error == AssertionError
    ensures res.Raised? && res.error == AssertionError ==>
      p in getRandomPrime.primes && q in getRandomPrime.primes && e in getRandomPrime.primes &&
      2 <= e < (p - 1) * (q - 1) && Gcd(e, (p - 1) * (q - 1)) != 1
    ensures res.Ok? ==>
      p in getRandomPrime.primes && q in getRandomPrime.primes && e in getRandomPrime.primes &&
      res.value.publicKey == PublicKey(p * q, e) &&
      e < (p - 1) * (q - 1) && Gcd(e, (p - 1) * (q - 1)) == 1 &&
      (e * res.value.privateKey) % ((p - 1) * (q - 1)) == 1
  {
    p, q, e := 0, 0, 0;
    var drawP := Primes.Call(getRandomPrime, None, None);
    if drawP.Raised? {
      return Raised(drawP.error), p, q, e;
    }
    var pv := drawP.value;
    p := pv;
    var drawQ := Primes.Call(getRandomPrime, None, None);
    var qv := drawQ.value;
    q := qv;
    assert pv >= 2 && qv >= 2;
    PositiveProduct(pv, qv);
    PositiveProduct(pv - 1, qv - 1);
    var n: nat := pv * qv;
    var m: nat := (pv - 1) * (qv - 1);
    var drawE := Primes.Call(getRandomPrime, None, Some(m));
    if drawE.Raised? {
      return Raised(drawE.error), p, q, e;
    }
    var ev: nat := drawE.value;
    e := ev;
    assert ev <= m - 1;
    var d := PrivateExponent(ev, m);
    if d.Raised? {
      return Raised(d.error), p, q, e;
    }
    res := Ok(Keypair(d.value, PublicKey(n, ev)));
  }

  // ---------------------------------------------------------------------
  // Framing

  /** `n.bit_length() // 8`, the plaintext block size of `encrypt`/`decrypt`. */
  function BlockSize(n: nat): nat {
    BitLength(n) / 8
  }

  /** Each block through `fastmul(b, exp, n)`. */
  function MapBlocks(blocks: seq<nat>, exp: nat, n: nat): (out: seq<nat>)
    requires n >= 1
    ensures |out| == |blocks|
    ensures forall i :: 0 <= i < |blocks| ==> out[i] == ModPow(blocks[i], exp, n)
  {
    seq(|blocks|, i requires 0 <= i < |blocks| => ModPowNat(blocks[i], exp, n))
  }

  /** ModPow on a non-negative base is non-negative. */
  function ModPowNat(x: nat, exp: nat, n: nat): (r: nat)
    requires n >= 1
    ensures r == ModPow(x, exp, n)
  {
    ModPowProperties(x, exp, n);
    ModPow(x, exp, n)
  }

  /** Every ciphered block fits in bs + 1 bytes when n does. */
  lemma CipheredFit(blocks: seq<nat>, d: nat, n: nat, bs: nat)
    requires 1 <= n <= Pow(256, bs + 1)
    ensures AllFit(MapBlocks(blocks, d, n), bs + 1)
  {
    assert Pow(256, bs + 1) >= 256 by {
      PowMonotone(256, 1, bs + 1);
    }
    forall i | 0 <= i < |blocks|
      ensures MapBlocks(blocks, d, n)[i] < Pow(256, bs + 1)
    {
      ModPowProperties(blocks[i], d, n);
    }
  }

  /**
   * `encrypt` for a given block size bs: a bs-byte little-endian header
   * holding the message length, the header and message cut into bs-byte
   * blocks, each block raised to d modulo n and written in bs + 1 bytes.
   * A length that does not fit the header raises OverflowError, a zero block
   * size makes `range` raise ValueError.
   */
  function EncryptWith(message: seq<Byte>, n: nat, d: nat, bs: nat): (r: Result<seq<Byte>>)
    requires 1 <= n <= Pow(256, bs + 1)
    ensures r.Ok? <==> bs >= 1 && |message| < Pow(256, bs)
    ensures r.Raised? ==> r.error == (if bs == 0 && |message| == 0 then ValueError else OverflowError)
    ensures r.Ok? ==> |r.value| == (bs + 1) * ((|message| + 2 * bs - 1) / bs)
  {
    var header :- ToLE(|message|, bs);
    var blocks :- MessageToBlocks(header + message, bs);
    var ciphered := MapBlocks(blocks, d, n);
    CipheredFit(blocks, d, n, bs);
    var chunks := BlocksToBytesChunks(ciphered, bs + 1).value;
    JoinLength(chunks, bs + 1);
    Ok(Join(chunks))
  }

  /**
   * `decrypt` for a given block size bs: (bs + 1)-byte blocks raised to e
   * modulo n, each re-encoded in bs bytes (OverflowError if one does not
   * fit), then the length header read from the first bs bytes and the
   * message sliced after it, with Python's clamping of slice bounds.
   */
  function DecryptWith(cipher: seq<Byte>, n: nat, e: nat, bs: nat): (r: Result<seq<Byte>>)
    requires n >= 1
    ensures r.Ok? <==> AllFit(MapBlocks(LEBlocks(cipher, bs + 1), e, n), bs)
    ensures r.Raised? ==> r.error == OverflowError
    ensures n <= Pow(256, bs) && bs >= 1 ==> r.Ok?
  {
    var ciphered := MessageToBlocks(cipher, bs + 1).value;
    var blocks := MapBlocks(ciphered, e, n);
    assert n <= Pow(256, bs) && bs >= 1 ==> AllFit(blocks, bs) by {
      if n <= Pow(256, bs) && bs >= 1 { DecryptedFit(ciphered, e, n, bs); }
    }
    var chunks :- BlocksToBytesChunks(blocks, bs);
    Ok(StripHeader(Join(chunks), bs))
  }

  /**
   * The last two lines of `decrypt`: the length read from the first bs
   * bytes, and at most that many of the bytes after them (Python clamps
   * both slice bounds to the message).
   */
  function StripHeader(message: seq<Byte>, bs: nat): (r: seq<Byte>)
    ensures var start := Min(bs, |message|);
      |r| == Min(FromLE(message[..start]), |message| - start) &&
      r == message[start .. start + |r|]
  {
    var start := Min(bs, |message|);
    var length := FromLE(message[..start]);
    message[start .. Min(bs + length, |message|)]
  }

  /** A message behind its length header, padded by zero bytes, is recovered. */
  lemma HeaderRoundTrip(message: seq<Byte>, bs: nat, pad: nat)
    requires |message| < Pow(256, bs)
    ensures StripHeader(LEDigits(|message|, bs) + message + Zeros(pad), bs) == message
  {
    LEDigitsRoundTrip(|message|, bs);
    StripFramed(LEDigits(|message|, bs), message, Zeros(pad), bs);
  }

  /** A bs-byte header holding the length of the message that follows strips to that message. */
  lemma StripFramed(header: seq<Byte>, message: seq<Byte>, rest: seq<Byte>, bs: nat)
    requires |header| == bs && FromLE(header) == |message|
    ensures StripHeader(header + message + rest, bs) == message
  {
    var framed := header + message + rest;
    assert framed[..bs] == header;
    var r := StripHeader(framed, bs);
    assert |r| == |message|;
    assert framed[bs .. bs + |message|] == message;
  }

  /** Under `n <= 256^bs` every decrypted block fits its bs bytes. */
  lemma DecryptedFit(blocks: seq<nat>, e: nat, n: nat, bs: nat)
    requires 1 <= n <= Pow(256, bs) && bs >= 1
    ensures AllFit(MapBlocks(blocks, e, n), bs)
  {
    forall i | 0 <= i < |blocks|
      ensures MapBlocks(blocks, e, n)[i] < Pow(256, bs)
    {
      ModPowProperties(blocks[i], e, n);
      PowMonotone(256, 1, bs);
    }
  }

  /** The RSA maps b -> b^d and c -> c^e modulo n undo each other below `bound`. */
  ghost predicate InversePair(n: nat, e: nat, d: nat, bound: nat)
    requires n >= 1
  {
    forall b: nat :: b < bound ==> ModPow(ModPow(b, d, n), e, n) == b
  }

  /**
   * The framing round trip for any block size: when n fits in bs + 1 bytes,
   * 256^bs <= n, and the per-block maps are inverse on residues, decrypting
   * an encrypted message gives the message back.
   */
  lemma {:induction false} FramingRoundTrip(message: seq<Byte>, n: nat, e: nat, d: nat, bs: nat)
    requires 1 <= n <= Pow(256, bs + 1) && bs >= 1 && Pow(256, bs) <= n
    requires |message| < Pow(256, bs)
    requires InversePair(n, e, d, n)
    ensures EncryptWith(message, n, d, bs).Ok?
    ensures DecryptWith(EncryptWith(message, n, d, bs).value, n, e, bs) == Ok(message)
  {
    var whole := LEDigits(|message|, bs) + message;
    var blocks := LEBlocks(whole, bs);
    EncryptWithValue(message, n, d, bs);
    JoinEncodeBlocks(whole, bs);
    DecryptOfEncoded(blocks, n, e, d, bs);
    HeaderRoundTrip(message, bs, bs * |blocks| - |whole|);
  }

  /** What `encrypt` produces for a message that fits its header. */
  lemma EncryptWithValue(message: seq<Byte>, n: nat, d: nat, bs: nat)
    requires 1 <= n <= Pow(256, bs + 1) && bs >= 1 && |message| < Pow(256, bs)
    ensures EncryptWith(message, n, d, bs) ==
      Ok(Join(EncodeBlocks(MapBlocks(LEBlocks(LEDigits(|message|, bs) + message, bs), d, n), bs + 1)))
  {
    LEDigitsRoundTrip(|message|, bs);
    CipheredFit(LEBlocks(LEDigits(|message|, bs) + message, bs), d, n, bs);
  }

  /** Decrypting the encoding of ciphered blocks maps them back and re-encodes them. */
  lemma DecryptOfEncoded(blocks: seq<nat>, n: nat, e: nat, d: nat, bs: nat)
    requires 1 <= n <= Pow(256, bs + 1) && bs >= 1 && Pow(256, bs) <= n
    requires AllFit(blocks, bs) && InversePair(n, e, d, n)
    ensures DecryptWith(Join(EncodeBlocks(MapBlocks(blocks, d, n), bs + 1)), n, e, bs) ==
      Ok(StripHeader(Join(EncodeBlocks(blocks, bs)), bs))
  {
    var ciphered := MapBlocks(blocks, d, n);
    CipheredFit(blocks, d, n, bs);
    BlocksOfJoin(ciphered, bs + 1);
    var back := MapBlocks(ciphered, e, n);
    assert back == blocks by {
      forall i | 0 <= i < |blocks| ensures back[i] == blocks[i] {
        assert blocks[i] < Pow(256, bs);
      }
    }
  }

  // ---------------------------------------------------------------------
  // encrypt / decrypt as written

  /** 2^(8k) is 256^k. */
  lemma {:induction false} Pow2Bytes(k: nat)
    ensures Pow2(8 * k) == Pow(256, k)
  {
    Pow2IsPow(8 * k);
    PowMul(2, 8, k);
    assert Pow(2, 8) == 256 by {
      assert Pow(2, 4) == 16;
    }
  }

  /** 2^a <= 2^b for a <= b. */
  lemma Pow2Monotone(a: nat, b: nat)
    requires a <= b
    ensures Pow2(a) <= Pow2(b)
  {
    Pow2IsPow(a);
    Pow2IsPow(b);
    PowMonotone(2, a, b);
  }

  /** Every modulus fits in BlockSize(n) + 1 bytes. */
  lemma ModulusFits(n: nat)
    ensures n < Pow(256, BlockSize(n) + 1)
  {
    var bs := BlockSize(n);
    Pow2Monotone(BitLength(n), 8 * (bs + 1));
    Pow2Bytes(bs + 1);
  }

  lemma MultipleMod(a: nat, k: nat)
    requires a >= 1
    ensures (a * k) % a == 0
  {
    ModAddMultiple(0, k, a);
    assert 0 + k * a == a * k;
  }

  /** `encrypt(message, pubkey, private_key)`. */
  function Encrypt(message: seq<Byte>, pubkey: PublicKey, privateKey: nat): (r: Result<seq<Byte>>)
    requires pubkey.n >= 1
    ensures r.Ok? <==> BlockSize(pubkey.n) >= 1 && |message| < Pow(256, BlockSize(pubkey.n))
    ensures r.Ok? ==> |r.value| % (BlockSize(pubkey.n) + 1) == 0
  {
    ModulusFits(pubkey.n);
    var r := EncryptWith(message, pubkey.n, privateKey, BlockSize(pubkey.n));
    assert r.Ok? ==> |r.value| % (BlockSize(pubkey.n) + 1) == 0 by {
      if r.Ok? {
        var bs := BlockSize(pubkey.n);
        MultipleMod(bs + 1, (|message| + 2 * bs - 1) / bs);
      }
    }
    r
  }

  /** `decrypt(cipher, pubkey)`. */
  function Decrypt(cipher: seq<Byte>, pubkey: PublicKey): (r: Result<seq<Byte>>)
    requires pubkey.n >= 1
    ensures r.Raised? ==> r.error == OverflowError
    ensures BitLength(pubkey.n) % 8 == 0 ==> r.Ok?
  {
    var bs := BlockSize(pubkey.n);
    assert BitLength(pubkey.n) % 8 == 0 ==> pubkey.n <= Pow(256, bs) && bs >= 1 by {
      if BitLength(pubkey.n) % 8 == 0 {
        Pow2Bytes(bs);
        assert BitLength(pubkey.n) == 8 * bs;
      }
    }
    DecryptWith(cipher, pubkey.n, pubkey.e, bs)
  }

  /**
   * The round trip the self-test asserts, for a modulus whose bit length is
   * not a multiple of 8: then every plaintext block is below n.
   */
  lemma EncryptDecrypt(message: seq<Byte>, pubkey: PublicKey, privateKey: nat)
    requires pubkey.n >= 1 && BitLength(pubkey.n) % 8 != 0 && BlockSize(pubkey.n) >= 1
    requires |message| < Pow(256, BlockSize(pubkey.n))
    requires InversePair(pubkey.n, pubkey.e, privateKey, pubkey.n)
    ensures Encrypt(message, pubkey, privateKey).Ok?
    ensures Decrypt(Encrypt(message, pubkey, privateKey).value, pubkey) == Ok(message)
  {
    var n, bs := pubkey.n, BlockSize(pubkey.n);
    ModulusFits(n);
    Pow2Bytes(bs);
    Pow2Monotone(8 * bs, BitLength(n) - 1);
    FramingRoundTrip(message, n, pubkey.e, privateKey, bs);
  }

  // ---------------------------------------------------------------------
  // The byte-aligned modulus

  /** k bytes 0xFF: the largest k-byte block. */
  function Ones(k: nat): (s: seq<Byte>)
    ensures |s| == k && forall i :: 0 <= i < k ==> s[i] == 255
  {
    seq(k, _ => 255)
  }

  lemma {:induction false} FromLEOnes(k: nat)
    ensures FromLE(Ones(k)) == Pow(256, k) - 1
    decreases k
  {
    if k > 0 {
      FromLEOnes(k - 1);
      assert Ones(k)[1..] == Ones(k - 1);
    }
  }

  lemma {:induction false} LengthBelowPow(k: nat)
    ensures k < Pow(256, k)
    decreases k
  {
    if k > 0 {
      LengthBelowPow(k - 1);
    }
  }

  /** The second of several equal-sized chunks sits right after the first one. */
  lemma JoinSecond(chunks: seq<seq<Byte>>, k: nat)
    requires |chunks| >= 2 && forall i :: 0 <= i < |chunks| ==> |chunks[i]| == k
    ensures |Join(chunks)| >= 2 * k && Join(chunks)[k .. 2 * k] == chunks[1]
  {
    var rest := chunks[2..];
    assert chunks[1..][1..] == rest;
    assert Join(chunks) == chunks[0] + (chunks[1] + Join(rest));
  }

  /**
   * When the bit length of n is a multiple of 8, every decrypted block is
   * below n < 256^bs - 1, so no ciphertext at all decrypts to the bs-byte
   * message of 0xFF bytes, although `encrypt` accepts that message.
   */
  lemma RoundTripFailsOnByteAlignedModulus(pubkey: PublicKey, privateKey: nat)
    requires pubkey.n >= 1 && BitLength(pubkey.n) % 8 == 0
    ensures Encrypt(Ones(BlockSize(pubkey.n)), pubkey, privateKey).Ok?
    ensures forall cipher :: Decrypt(cipher, pubkey) != Ok(Ones(BlockSize(pubkey.n)))
  {
    var n, bs := pubkey.n, BlockSize(pubkey.n);
    Pow2Bytes(bs);
    assert BitLength(n) == 8 * bs;
    assert bs >= 1;
    PowMonotone(256, 1, bs);
    ModulusFits(n);
    LengthBelowPow(bs);
    forall cipher: seq<Byte> ensures Decrypt(cipher, pubkey) != Ok(Ones(bs)) {
      DecryptMissesOnes(cipher, n, pubkey.e, bs);
    }
  }

  lemma DecryptMissesOnes(cipher: seq<Byte>, n: nat, e: nat, bs: nat)
    requires bs >= 1 && 1 <= n < Pow(256, bs)
    ensures DecryptWith(cipher, n, e, bs) != Ok(Ones(bs))
  {
    var ciphered := LEBlocks(cipher, bs + 1);
    var blocks := MapBlocks(ciphered, e, n);
    DecryptedFit(ciphered, e, n, bs);
    assert DecryptWith(cipher, n, e, bs) == Ok(StripHeader(Join(EncodeBlocks(blocks, bs)), bs));
    var bound := if n > 1 then n else 2;
    PowMonotone(256, 1, bs);
    forall i | 0 <= i < |blocks|
      ensures blocks[i] < bound
    {
      ModPowProperties(ciphered[i], e, n);
    }
    StrippedBelow(blocks, bs, bound);
    FromLEOnes(bs);
  }

  /**
   * Decoding blocks below `bound`: a stripped message exactly bs bytes long
   * is the second block, so its value is below `bound` too.
   */
  lemma StrippedBelow(blocks: seq<nat>, bs: nat, bound: nat)
    requires bs >= 1 && bound <= Pow(256, bs)
    requires forall i :: 0 <= i < |blocks| ==> blocks[i] < bound
    ensures var r := StripHeader(Join(EncodeBlocks(blocks, bs)), bs);
      |r| == bs ==> FromLE(r) < bound
  {
    var chunks := EncodeBlocks(blocks, bs);
    var message := Join(chunks);
    var r := StripHeader(message, bs);
    JoinLength(chunks, bs);
    if |r| == bs {
      assert |message| >= 2 * bs;
      FactorAtLeastTwo(|chunks|, bs);
      JoinSecond(chunks, bs);
      assert r == chunks[1];
      LEDigitsRoundTrip(blocks[1], bs);
    }
  }

  /** A multiple bs * k of bs that is at least 2 * bs has k >= 2. */
  lemma FactorAtLeastTwo(k: int, bs: int)
    requires bs >= 1 && bs * k >= 2 * bs
    ensures k >= 2
  {
  }

  /** A concrete key: n = 11 * 13 = 143 has bit length 8, and the message [0xFF] fails. */
  lemma RoundTripFailsFor143()
    ensures Encrypt([255], PublicKey(143, 7), 103).Ok?
    ensures Decrypt(Encrypt([255], PublicKey(143, 7), 103).value, PublicKey(143, 7)) != Ok([255])
  {
    assert (7 * 103) % ((11 - 1) * (13 - 1)) == 1;
    ByteAligned143();
    RoundTripFailsOnByteAlignedModulus(PublicKey(143, 7), 103);
  }

  lemma ByteAligned143()
    ensures BitLength(143) == 8 && BlockSize(143) == 1 && Ones(1) == [255]
  {
    assert BitLength(1) == 1;
    assert BitLength(2) == 2;
    assert BitLength(4) == 3;
    assert BitLength(8) == 4;
    assert BitLength(17) == 5;
    assert BitLength(35) == 6;
    assert BitLength(71) == 7;
    assert BitLength(143) == 8;
    assert Ones(1) == [255];
  }

  // ---------------------------------------------------------------------
  // A block size that keeps plaintext blocks below n

  /** The largest k with 256^k <= n: every plaintext block is then below n. */
  function FixedBlockSize(n: nat): (bs: nat)
    requires n >= 1
    ensures Pow(256, bs) <= n < Pow(256, bs + 1)
  {
    var bs := (BitLength(n) - 1) / 8;
    Pow2Bytes(bs);
    Pow2Monotone(8 * bs, BitLength(n) - 1);
    Pow2Bytes(bs + 1);
    Pow2Monotone(BitLength(n), 8 * (bs + 1));
    bs
  }

  /** `encrypt` with the corrected block size. */
  function EncryptFixed(message: seq<Byte>, pubkey: PublicKey, privateKey: nat): (r: Result<seq<Byte>>)
    requires pubkey.n >= 1
    ensures r.Ok? <==> FixedBlockSize(pubkey.n) >= 1 && |message| < Pow(256, FixedBlockSize(pubkey.n))
  {
    EncryptWith(message, pubkey.n, privateKey, FixedBlockSize(pubkey.n))
  }

  /** `decrypt` with the corrected block size. */
  function DecryptFixed(cipher: seq<Byte>, pubkey: PublicKey): (r: Result<seq<Byte>>)
    requires pubkey.n >= 1
    ensures r.Raised? ==> r.error == OverflowError
  {
    DecryptWith(cipher, pubkey.n, pubkey.e, FixedBlockSize(pubkey.n))
  }

  /** The intended round trip holds for every modulus of at least 256. */
  lemma FixedRoundTrip(message: seq<Byte>, pubkey: PublicKey, privateKey: nat)
    requires pubkey.n >= 256
    requires |message| < Pow(256, FixedBlockSize(pubkey.n))
    requires InversePair(pubkey.n, pubkey.e, privateKey, pubkey.n)
    ensures EncryptFixed(message, pubkey, privateKey).Ok?
    ensures DecryptFixed(EncryptFixed(message, pubkey, privateKey).value, pubkey) == Ok(message)
  {
    var bs := FixedBlockSize(pubkey.n);
    FramingRoundTrip(message, pubkey.n, pubkey.e, privateKey, bs);
  }
}
