/**
 * What the three windows achieve together: a key from the generator turns
 * c = m^e mod n back into m, the encryption window's ciphertext splits back
 * into its tokens at the decryption window, and so decrypting an encrypted
 * text returns the blocks that were encrypted.
 */
module Rsa {
  import opened Options
  import opened Arithmetic
  import opened Fermat
  import opened Digits
  import K = KeyGeneration
  import E = Encryption
  import D = Decryption

  // ---------------------------------------------------------------------
  // RSA correctness
  // ---------------------------------------------------------------------

  lemma {:induction false} PowOfOne(t: nat)
    ensures Pow(1, t) == 1
    decreases t
  {
    if t > 0 {
      PowOfOne(t - 1);
    }
  }

  /** Once m^(p-1) is one modulo p, so is every power of it. */
  lemma PowMultipleOfOrder(m: nat, p: nat, t: nat)
    requires p >= 2 && Pow(m, p - 1) % p == 1
    ensures Pow(m, (p - 1) * t) % p == 1
  {
    var y := Pow(m, p - 1);
    assert Pow(m, (p - 1) * t) == Pow(y, t) by {
      PowMul(m, p - 1, t);
    }
    assert Pow(y, t) % p == 1 % p by {
      PowModBase(y, t, p);
      PowOfOne(t);
    }
    ModUnique(p, 1, 0, 1);
  }

  /** m^(1 + (p-1)t) = m modulo a prime p, whether or not p divides m. */
  lemma FermatPower(m: nat, p: nat, t: nat)
    requires IsPrime(p)
    ensures Pow(m, 1 + (p - 1) * t) % p == m % p
  {
    var x := (p - 1) * t;
    var y := Pow(m, x);
    assert Pow(m, 1 + x) == m * y;
    assert (m * y) % p == ((m % p) * (y % p)) % p by {
      MulMod(m, y, p);
    }
    if Divides(p, m) {
      assert m % p == 0;
      assert (m * y) % p == 0 by {
        ZeroTimes(y % p, p);
      }
    } else {
      assert y % p == 1 by {
        FermatCoprime(m, p);
        PowMultipleOfOrder(m, p, t);
      }
      assert (m * y) % p == m % p by {
        ModTwice(m, p);
      }
    }
  }

  lemma ZeroTimes(y: int, p: int)
    requires p > 0
    ensures (0 * y) % p == 0
  {
  }

  lemma ModTwice(m: int, p: int)
    requires p > 0
    ensures ((m % p) * 1) % p == m % p
  {
  }

  /** m^(1 + x) is at least m. */
  lemma PowAtLeastBase(m: nat, x: nat)
    ensures Pow(m, 1 + x) >= m
  {
    if m > 0 {
      MulAtLeast(m, Pow(m, x));
    }
  }

  /** A prime q other than the prime p does not divide p. */
  lemma DistinctPrimes(p: nat, q: nat)
    requires IsPrime(p) && IsPrime(q) && p != q
    ensures !Divides(q, p)
  {
    if Divides(q, p) {
      DividesLe(q, p);
    }
  }

  /**
   * Chinese remainder: agreeing with b below pq modulo two distinct primes
   * p and q, a leaves remainder b modulo pq.
   */
  lemma ChineseRemainder(a: nat, b: nat, p: nat, q: nat)
    requires IsPrime(p) && IsPrime(q) && p != q
    requires a % p == b % p && a % q == b % q
    requires b <= a && b < p * q
    ensures a % (p * q) == b
  {
    var x: nat := a - b;
    CongruentDifference(a, b, p);
    CongruentDifference(a, b, q);
    var j: nat := x / p;
    assert x == p * j by {
      Quotient(x, p);
    }
    EuclidLemma(q, p, j);
    DistinctPrimes(p, q);
    var i: nat := j / q;
    assert j == q * i by {
      Quotient(j, q);
    }
    assert a == (p * q) * i + b by {
      Reassociate(p, q, i);
    }
    ModUnique(p * q, a, i, b);
  }

  lemma Quotient(x: int, d: int)
    requires d > 0 && x % d == 0
    ensures x == d * (x / d)
  {
  }

  lemma Reassociate(p: int, q: int, i: int)
    ensures p * (q * i) == (p * q) * i
  {
  }

  /** (p-1)(q-1) is at least two for distinct primes p and q. */
  lemma TotientAtLeastTwo(p: nat, q: nat)
    requires IsPrime(p) && IsPrime(q) && p != q
    ensures K.Totient(p, q) >= 2
  {
    if p >= 3 {
      ProductAtLeast(p - 1, q - 1);
    } else {
      ProductAtLeast(q - 1, p - 1);
      Commute(p - 1, q - 1);
    }
  }

  lemma ProductAtLeast(a: nat, b: nat)
    requires a >= 2 && b >= 1
    ensures a * b >= 2
  {
    MulAtLeast(a, b);
  }

  lemma Commute(a: int, b: int)
    ensures a * b == b * a
  {
  }

  /** An exponent of the form 1 + k(p-1)(q-1), read with either prime first. */
  lemma ExponentForms(p: nat, q: nat, k: nat)
    requires p >= 1 && q >= 1
    ensures 1 + (p - 1) * (q - 1) * k == 1 + (p - 1) * ((q - 1) * k)
    ensures 1 + (p - 1) * (q - 1) * k == 1 + (q - 1) * ((p - 1) * k)
  {
  }

  /**
   * RSA correctness: with n = pq for distinct primes and de = 1 modulo
   * (p-1)(q-1), decrypting the encryption of any m < n gives m back.
   */
  lemma RsaCorrect(p: nat, q: nat, e: nat, d: nat, m: nat)
    requires IsPrime(p) && IsPrime(q) && p != q
    requires (d * e) % K.Totient(p, q) == 1 % K.Totient(p, q)
    requires m < p * q
    ensures ModPow(ModPow(m, e, p * q), d, p * q) == m
  {
    var n := p * q;
    var phi := K.Totient(p, q);
    TotientAtLeastTwo(p, q);
    var de := d * e;
    var k: nat := de / phi;
    assert de % phi == 1 by {
      ModUnique(phi, 1, 0, 1);
    }
    assert de == phi * k + de % phi;
    assert e * d == 1 + phi * k by {
      Commute(d, e);
    }
    var a := Pow(m, e * d);
    assert ModPow(ModPow(m, e, n), d, n) == a % n by {
      PowModBase(Pow(m, e), d, n);
      PowMul(m, e, d);
    }
    var x := (p - 1) * (q - 1) * k;
    assert a == Pow(m, 1 + x) by {
      Commute(phi, k);
    }
    assert a % p == m % p by {
      ExponentForms(p, q, k);
      FermatPower(m, p, (q - 1) * k);
    }
    assert a % q == m % q by {
      ExponentForms(p, q, k);
      FermatPower(m, q, (p - 1) * k);
    }
    assert m <= a by {
      PowAtLeastBase(m, x);
    }
    ChineseRemainder(a, m, p, q);
  }

  // ---------------------------------------------------------------------
  // The ciphertext at the decryption window
  // ---------------------------------------------------------------------

  /** The decimal tokens the encryption window writes, one per block, in order. */
  function CipherTokens(bs: seq<seq<Byte>>, e: nat, n: nat): (ts: seq<string>)
    requires n > 0
    ensures |ts| == |bs|
    ensures forall i :: 0 <= i < |ts| ==> ParseDecimal(ts[i]) == Some(ModPow(BytesToNat(bs[i]), e, n))
    ensures forall i :: 0 <= i < |ts| ==> D.DELIMITER !in ts[i]
  {
    var ts := seq(|bs|, i requires 0 <= i < |bs| => Decimal(ModPow(BytesToNat(bs[i]), e, n)));
    forall i | 0 <= i < |ts|
      ensures ParseDecimal(ts[i]) == Some(ModPow(BytesToNat(bs[i]), e, n)) && D.DELIMITER !in ts[i]
    {
      DecimalRoundTrip(ModPow(BytesToNat(bs[i]), e, n));
      NoDelimiterInDecimal(ts[i]);
    }
    ts
  }

  lemma NoDelimiterInDecimal(s: string)
    requires IsDecimal(s)
    ensures D.DELIMITER !in s
  {
  }

  /** The encrypted text is its tokens, each followed by the delimiter. */
  lemma {:induction false} EncryptedTextJoin(bs: seq<seq<Byte>>, e: nat, n: nat)
    requires n > 0
    ensures E.EncryptedText(bs, e, n) == D.Join(CipherTokens(bs, e, n))
    decreases |bs|
  {
    if |bs| > 0 {
      EncryptedTextJoin(bs[1..], e, n);
      assert CipherTokens(bs, e, n)[1..] == CipherTokens(bs[1..], e, n);
    }
  }

  /**
   * The decryption window's split recovers exactly the encryption window's
   * tokens, with nothing left pending after the last '/'.
   */
  lemma CiphertextSplits(bs: seq<seq<Byte>>, e: nat, n: nat)
    requires n > 0
    ensures D.Split(E.EncryptedText(bs, e, n)) == (CipherTokens(bs, e, n), [])
  {
    var ts := CipherTokens(bs, e, n);
    EncryptedTextJoin(bs, e, n);
    D.SplitJoin(ts, []);
    assert D.Join(ts) + [] == D.Join(ts);
  }

  /** A token written by the encryption window is read back as the same number. */
  lemma TokenRoundTrip(x: nat)
    ensures D.TokenValue(Decimal(x)) == x
  {
    DecimalIsCString(x);
    DecimalRoundTrip(x);
  }

  // ---------------------------------------------------------------------
  // Decrypting what was encrypted
  // ---------------------------------------------------------------------

  /** The key pair the generator aims at: distinct primes and de = 1 modulo (p-1)(q-1). */
  ghost predicate ValidKey(p: nat, q: nat, e: nat, d: nat)
  {
    IsPrime(p) && IsPrime(q) && p != q && (d * e) % K.Totient(p, q) == 1 % K.Totient(p, q)
  }

  /**
   * A block that is non-empty, does not start with a zero byte and stays below
   * n decrypts to itself; the first two conditions make its bits, read back,
   * come to the same number of whole bytes.
   */
  ghost predicate Recoverable(b: seq<Byte>, n: nat)
  {
    |b| > 0 && b[0] != 0 && BytesToNat(b) < n
  }

  lemma BlockRoundTrip(b: seq<Byte>, p: nat, q: nat, e: nat, d: nat)
    requires ValidKey(p, q, e, d) && Recoverable(b, p * q)
    ensures D.DecryptedBlock(Decimal(ModPow(BytesToNat(b), e, p * q)), d, p * q) == b
  {
    var n := p * q;
    var c := ModPow(BytesToNat(b), e, n);
    TokenRoundTrip(c);
    RsaCorrect(p, q, e, d, BytesToNat(b));
    CodecRoundTrip(b);
  }

  /** Decrypting the tokens of recoverable blocks gives the blocks back, end to end. */
  lemma {:induction false} TextRoundTrip(bs: seq<seq<Byte>>, p: nat, q: nat, e: nat, d: nat)
    requires ValidKey(p, q, e, d)
    requires forall i :: 0 <= i < |bs| ==> Recoverable(bs[i], p * q)
    ensures D.DecryptedText(CipherTokens(bs, e, p * q), d, p * q) == E.Concat(bs)
    decreases |bs|
  {
    var n := p * q;
    if |bs| > 0 {
      var k := |bs| - 1;
      var front, last := bs[..k], bs[k];
      assert front + [last] == bs;
      var ts := CipherTokens(bs, e, n);
      assert ts[..k] == CipherTokens(front, e, n);
      TextRoundTrip(front, p, q, e, d);
      BlockRoundTrip(last, p, q, e, d);
      E.ConcatSnoc(front, last);
    }
  }

  /**
   * A 256-bit modulus takes every block of the framing: each block is at most
   * 32 characters, so below 2^256.
   */
  lemma BlocksFitModulus(text: seq<Byte>, n: nat, k: nat)
    requires Pow(2, E.BLOCK_SIZE) <= n
    requires forall i :: 0 <= i < |text| ==> text[i] != 0
    requires k < |E.Blocks(text)|
    ensures Recoverable(E.Blocks(text)[k], n)
  {
    var b := E.Blocks(text)[k];
    BlockLeads(text, k);
    BlockFits(b, E.BLOCK_LENGTH, E.BLOCK_SIZE, n);
  }

  /** Block k of a text without NUL characters starts with a non-zero character. */
  lemma BlockLeads(text: seq<Byte>, k: nat)
    requires forall i :: 0 <= i < |text| ==> text[i] != 0
    requires k < |E.Blocks(text)|
    ensures 0 < |E.Blocks(text)[k]| <= E.BLOCK_LENGTH && E.Blocks(text)[k][0] != 0
  {
    E.BlocksLength(text, k);
    E.BlocksFirst(text, k);
  }

  /** The same for the intended framing. */
  lemma FullBlockLeads(text: seq<Byte>, k: nat)
    requires forall i :: 0 <= i < |text| ==> text[i] != 0
    requires k < |E.FullBlocks(text)|
    ensures 0 < |E.FullBlocks(text)[k]| <= E.BLOCK_LENGTH && E.FullBlocks(text)[k][0] != 0
  {
    E.FullBlocksFirst(text, k);
  }

  /** A block of at most w characters is below any n >= 2^bits with 8w <= bits. */
  lemma BlockFits(b: seq<Byte>, w: nat, bits: nat, n: nat)
    requires |b| <= w && 8 * w <= bits && Pow(2, bits) <= n
    ensures BytesToNat(b) < n
  {
    BlockBelowBound(b, w);
    PowMonotone(2, 8 * w, bits);
  }

  /** At most w characters read as a number stay below 2^(8w). */
  lemma BlockBelowBound(b: seq<Byte>, w: nat)
    requires |b| <= w
    ensures BytesToNat(b) < Pow(2, 8 * w)
  {
    BytesToNatBound(b);
    PowMonotone(256, |b|, w);
    BytePower(w);
  }

  /**
   * The full round trip as the windows are written: decrypting the encrypted
   * text gives back exactly the blocks the encryption window encrypted.
   */
  lemma EndToEnd(text: seq<Byte>, p: nat, q: nat, e: nat, d: nat)
    requires ValidKey(p, q, e, d) && Pow(2, E.BLOCK_SIZE) <= p * q
    requires forall i :: 0 <= i < |text| ==> text[i] != 0
    ensures D.DecryptedText(D.Split(E.EncryptedText(E.Blocks(text), e, p * q)).0, d, p * q)
         == E.Concat(E.Blocks(text))
  {
    var bs := E.Blocks(text);
    CiphertextSplits(bs, e, p * q);
    forall i | 0 <= i < |bs|
      ensures Recoverable(bs[i], p * q)
    {
      BlocksFitModulus(text, p * q, i);
    }
    TextRoundTrip(bs, p, q, e, d);
  }

  /** Every block of the intended framing fits a 256-bit modulus as well. */
  lemma FullBlocksFitModulus(text: seq<Byte>, n: nat, k: nat)
    requires Pow(2, E.BLOCK_SIZE) <= n
    requires forall i :: 0 <= i < |text| ==> text[i] != 0
    requires k < |E.FullBlocks(text)|
    ensures Recoverable(E.FullBlocks(text)[k], n)
  {
    var b := E.FullBlocks(text)[k];
    FullBlockLeads(text, k);
    BlockFits(b, E.BLOCK_LENGTH, E.BLOCK_SIZE, n);
  }

  /**
   * The round trip with the intended framing: decrypting the encrypted text
   * gives back the whole text, followed by the spaces of its last block.
   */
  lemma CorrectedEndToEnd(text: seq<Byte>, p: nat, q: nat, e: nat, d: nat)
    requires ValidKey(p, q, e, d) && Pow(2, E.BLOCK_SIZE) <= p * q
    requires forall i :: 0 <= i < |text| ==> text[i] != 0
    ensures D.DecryptedText(D.Split(E.EncryptedText(E.FullBlocks(text), e, p * q)).0, d, p * q)
         == text + E.Spaces(E.Padding(|text|))
  {
    var bs := E.FullBlocks(text);
    CiphertextSplits(bs, e, p * q);
    forall i | 0 <= i < |bs|
      ensures Recoverable(bs[i], p * q)
    {
      FullBlocksFitModulus(text, p * q, i);
    }
    TextRoundTrip(bs, p, q, e, d);
    E.FullBlocksConcat(text);
  }

  /**
   * Primes accepted for a buffer of at least 17 bytes, i.e. a key size of
   * at least 272 bits such as the default 4096, make a modulus of at least
   * 2^256, so every block fits.
   */
  lemma AcceptedModulusFitsBlocks(B: nat, attempts: seq<K.Attempt>, p: nat, q: nat)
    requires B >= 17 && K.Enough(B, attempts)
    requires K.Accepted(B, attempts, p) && K.Accepted(B, attempts, q)
    ensures Pow(2, E.BLOCK_SIZE) <= p * q
  {
    var i :| 0 <= i < |attempts| && K.Passes(B, attempts[i]) && p == K.Candidate(attempts[i].randomValues, B);
    var j :| 0 <= j < |attempts| && K.Passes(B, attempts[j]) && q == K.Candidate(attempts[j].randomValues, B);
    K.CandidateShape(attempts[i].randomValues, B);
    K.CandidateShape(attempts[j].randomValues, B);
    HalfBound(p, B, E.BLOCK_SIZE / 2);
    HalfBound(q, B, E.BLOCK_SIZE / 2);
    SquareBound(p, q, E.BLOCK_SIZE / 2);
  }

  lemma HalfBound(x: nat, B: nat, h: nat)
    requires B >= 1 && h + 2 <= 8 * B && x >= 3 * Pow(2, 8 * B - 2)
    ensures x >= Pow(2, h)
  {
    PowMonotone(2, h, 8 * B - 2);
  }

  lemma SquareBound(x: nat, y: nat, h: nat)
    requires x >= Pow(2, h) && y >= Pow(2, h)
    ensures x * y >= Pow(2, 2 * h)
  {
    var m := Pow(2, h);
    assert Pow(2, 2 * h) == m * m by {
      PowAdd(2, h, h);
    }
    MonotoneMul2(m, x, m, y);
  }

  lemma MonotoneMul2(a: nat, x: nat, b: nat, y: nat)
    requires a <= x && b <= y
    ensures a * b <= x * y
  {
    assert a * b <= x * b;
    assert x * b <= x * y;
  }
}
