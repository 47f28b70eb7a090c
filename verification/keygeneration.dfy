/**
 * Key generation: random odd candidates from a byte buffer, the Miller-Rabin
 * test, the search for two distinct probable primes, and the derivation of
 * the RSA key components n = p * q, e = 65537 and d = e^-1 mod (p - 1)(q - 1).
 *
 * rand() and the Mersenne Twister behind mpz_urandomm are not modelled: the
 * values they would produce are inputs (see Attempt).
 */
module KeyGeneration {
  import opened Options
  import opened Arithmetic
  import opened MillerRabin
  import opened Digits

  /** The public exponent, 0x10001. */
  const PUBLIC_EXPONENT: nat := 65537
  /** Rounds of Miller-Rabin a candidate must pass in the prime search. */
  const PRIME_ROUNDS: nat := 20
  /** rand() is reduced modulo 0xFF, so a random byte is at most 0xFE. */
  const RAND_MODULUS: nat := 0xFF
  /** The largest value QString::toInt returns (INT_MAX). */
  const INT_MAX: nat := 0x7FFF_FFFF

  // ---------------------------------------------------------------------
  // The key records (keygeneration.h), written through pointers
  // ---------------------------------------------------------------------

  class PublicKey {
    var modulus: nat
    var publicExponent: nat

    /** initializePublicKey: every field mpz_init-ed to zero. */
    constructor ()
      ensures modulus == 0 && publicExponent == 0
    {
      modulus, publicExponent := 0, 0;
    }
  }

  class PrivateKey {
    var modulus: nat
    var publicExponent: nat
    var privateExponent: nat
    var prime1: nat
    var prime2: nat

    /** initializePrivateKey: every field mpz_init-ed to zero. */
    constructor ()
      ensures modulus == 0 && publicExponent == 0 && privateExponent == 0
      ensures prime1 == 0 && prime2 == 0
    {
      modulus, publicExponent, privateExponent := 0, 0, 0;
      prime1, prime2 := 0, 0;
    }
  }

  // ---------------------------------------------------------------------
  // Specification of a candidate
  // ---------------------------------------------------------------------

  /** The randomness one round of the prime search consumes. */
  datatype Attempt = Attempt(randomValues: seq<nat>, draws: seq<nat>)

  /** The buffer filled from rand(): each value reduced modulo 0xFF. */
  function RandomBytes(randomValues: seq<nat>): (b: seq<Byte>)
    ensures |b| == |randomValues|
    ensures forall i :: 0 <= i < |b| ==> b[i] == randomValues[i] % RAND_MODULUS && b[i] < RAND_MODULUS
  {
    seq(|randomValues|, i requires 0 <= i < |randomValues| => randomValues[i] % RAND_MODULUS)
  }

  /** x | y on two bytes. */
  function OrByte(x: Byte, y: Byte): (r: Byte)
    ensures r == BitOr(x, y)
  {
    assert Pow(2, 8) == 256;
    BitOrBound(x, y, 8);
    BitOr(x, y)
  }

  /** The buffer after the top two bits of the first byte and the low bit of the last are set. */
  function ForceBits(b: seq<Byte>): (r: seq<Byte>)
    requires |b| >= 1
    ensures |r| == |b|
  {
    var top := b[0 := OrByte(b[0], 0xC0)];
    top[|b| - 1 := OrByte(top[|b| - 1], 0x01)]
  }

  /** The candidate generateRandomNumber produces from the first B random values. */
  function Candidate(randomValues: seq<nat>, B: nat): nat
    requires 1 <= B <= |randomValues|
  {
    BytesToNat(ForceBits(RandomBytes(randomValues[..B])))
  }

  lemma {:induction false} BytesToNatParity(b: seq<Byte>)
    requires |b| >= 1
    ensures BytesToNat(b) % 2 == b[|b| - 1] % 2
    decreases |b|
  {
    if |b| > 1 {
      BytesToNatParity(b[1..]);
      var p := Pow(256, |b| - 2);
      assert Pow(256, |b| - 1) == 2 * (128 * p);
      ModAddMultiple(2, b[0] * (128 * p), BytesToNat(b[1..]));
      assert b[0] * (2 * (128 * p)) == 2 * (b[0] * (128 * p));
    }
  }

  /**
   * A candidate of B bytes is odd and has its top two bits set:
   * 3 * 2^(8B - 2) <= c < 2^(8B).
   */
  lemma CandidateShape(randomValues: seq<nat>, B: nat)
    requires 1 <= B <= |randomValues|
    ensures Candidate(randomValues, B) % 2 == 1
    ensures 3 * Pow(2, 8 * B - 2) <= Candidate(randomValues, B) < Pow(2, 8 * B)
  {
    var b := ForceBits(RandomBytes(randomValues[..B]));
    var c := BytesToNat(b);
    BytesToNatParity(b);
    assert b[0] >= 0xC0;
    BytesToNatBound(b);
    BytePower(B);
    BytePower(B - 1);
    assert 3 * Pow(2, 8 * B - 2) == 0xC0 * Pow(2, 8 * (B - 1)) by {
      PowAdd(2, 6, 8 * (B - 1));
      assert Pow(2, 6) == 64;
    }
    MonotoneMul(0xC0, b[0], Pow(256, B - 1));
  }

  // ---------------------------------------------------------------------
  // One Miller-Rabin round and the k-round test
  // ---------------------------------------------------------------------

  /**
   * singlePrimeCheck: halve n - 1 to its odd part d, accept when a^d mod n
   * has low word one, then walk a^(d * 2^r) mod n while d * 2^r < n - 1,
   * accepting on n - 1.
   */
  method SinglePrimeCheck(n: nat, a: nat) returns (accepted: bool)
    requires n >= 2
    ensures accepted == WitnessAccepts(n, a)
  {
    var exponent := n - 1;
    ghost var s := 0;
    while exponent % 2 == 0
      invariant exponent > 0
      invariant OddPart(exponent) == OddPart(n - 1)
      invariant s + Valuation(exponent) == Valuation(n - 1)
      decreases exponent
    {
      exponent := exponent / 2;
      s := s + 1;
    }
    assert exponent == OddPart(n - 1) * Pow(2, 0);
    var temp := ModPow(a, exponent, n);
    if LowWord(temp) == 1 {
      return true;
    }
    var last := n - 1;
    ghost var r := 0;
    while exponent < last
      invariant r <= s
      invariant exponent == OddPart(n - 1) * Pow(2, r)
      invariant forall j :: 0 <= j < r ==> ChainTerm(n, a, j) != n - 1
      decreases last - exponent
    {
      ExponentBelow(n, r);
      var second := ModPow(a, exponent, n);
      if second == last {
        assert ChainTerm(n, a, r) == n - 1;
        return true;
      }
      DoubleExponent(OddPart(n - 1), r);
      exponent := exponent * 2;
      r := r + 1;
    }
    ExponentBelow(n, r);
    return false;
  }

  /** The witness drawn from a raw value: mpz_urandomm below n - 3, plus 2. */
  function Witness(n: nat, draw: nat): (a: nat)
    requires n > 3
    ensures 2 <= a <= n - 2
  {
    draw % (n - 3) + 2
  }

  /** Every one of the first k draws gives an accepted witness. */
  predicate AllWitnessesAccept(n: nat, k: int, draws: seq<nat>)
    requires n > 3 && k <= |draws|
  {
    forall i :: 0 <= i < k ==> WitnessAccepts(n, Witness(n, draws[i]))
  }

  /**
   * millerRabinPrimeCheck: k rounds, stopping at the first rejected witness;
   * a prime always passes.
   */
  method MillerRabinPrimeCheck(n: nat, k: int, draws: seq<nat>) returns (probablyPrime: bool)
    requires n > 3 && k <= |draws|
    ensures probablyPrime <==> AllWitnessesAccept(n, k, draws)
    ensures IsPrime(n) ==> probablyPrime
  {
    var i := 0;
    while i < k
      invariant 0 <= i <= if k < 0 then 0 else k
      invariant forall j :: 0 <= j < i ==> WitnessAccepts(n, Witness(n, draws[j]))
    {
      var accepted := SinglePrimeCheck(n, Witness(n, draws[i]));
      if !accepted {
        RejectionProvesComposite(n, Witness(n, draws[i]));
        return false;
      }
      i := i + 1;
    }
    if IsPrime(n) {
      PrimePassesAllRounds(n, k, draws);
    }
    return true;
  }

  /** A prime accepts every witness in [2, n - 2], so it passes every round. */
  lemma PrimePassesAllRounds(n: nat, k: int, draws: seq<nat>)
    requires n > 3 && k <= |draws| && IsPrime(n)
    ensures AllWitnessesAccept(n, k, draws)
  {
    forall i | 0 <= i < k
      ensures WitnessAccepts(n, Witness(n, draws[i]))
    {
      WitnessInRangeCoprime(n, Witness(n, draws[i]));
      PrimeAcceptsEveryWitness(n, Witness(n, draws[i]));
    }
  }

  /** A composite candidate is caught when any one of the k draws is a rejected witness. */
  lemma RejectedRoundProvesComposite(n: nat, k: int, draws: seq<nat>)
    requires n > 3 && k <= |draws| && !AllWitnessesAccept(n, k, draws)
    ensures !IsPrime(n)
  {
    var i :| 0 <= i < k && !WitnessAccepts(n, Witness(n, draws[i]));
    RejectionProvesComposite(n, Witness(n, draws[i]));
  }

  // ---------------------------------------------------------------------
  // Key size bookkeeping and the generator
  // ---------------------------------------------------------------------

  /**
   * QString::toInt on the selected key size: the decimal value, or zero when
   * the text is not a number or exceeds INT_MAX.
   */
  function ToInt(text: string): (v: nat)
    ensures v <= INT_MAX
    ensures v > 0 ==> ParseDecimal(text) == Some(v)
    ensures ParseDecimal(text).Some? && ParseDecimal(text).value <= INT_MAX ==> v == ParseDecimal(text).value
    ensures ParseDecimal(text).None? || ParseDecimal(text).value > INT_MAX ==> v == 0
  {
    match ParseDecimal(text)
    case Some(x) => if x <= INT_MAX then x else 0
    case None => 0
  }

  /** A buffer of random values is large enough for one candidate. */
  predicate Enough(B: int, attempts: seq<Attempt>) {
    forall i :: 0 <= i < |attempts| ==>
      B <= |attempts[i].randomValues| && PRIME_ROUNDS <= |attempts[i].draws|
  }

  /** The candidate an attempt yields passes all 20 Miller-Rabin rounds. */
  predicate Passes(B: nat, attempt: Attempt)
    requires 1 <= B <= |attempt.randomValues| && PRIME_ROUNDS <= |attempt.draws|
  {
    var c := Candidate(attempt.randomValues, B);
    CandidateShape(attempt.randomValues, B);
    assert Pow(2, 8 * B - 2) >= 1;
    AllWitnessesAccept(c, PRIME_ROUNDS, attempt.draws)
  }

  /** x is the candidate of some attempt and passed the test. */
  ghost predicate Accepted(B: nat, attempts: seq<Attempt>, x: nat)
    requires B >= 1 && Enough(B, attempts)
  {
    exists i :: 0 <= i < |attempts| && Passes(B, attempts[i]) && x == Candidate(attempts[i].randomValues, B)
  }

  /** s is the decimal string of some attempt's candidate that passed the test. */
  ghost predicate AcceptedString(B: nat, attempts: seq<Attempt>, s: string)
    requires B >= 1 && Enough(B, attempts)
  {
    exists i :: 0 <= i < |attempts| && Passes(B, attempts[i]) && s == Decimal(Candidate(attempts[i].randomValues, B))
  }

  /** An accepted decimal string denotes an accepted candidate, at least 3, and is its own rendering. */
  lemma AcceptedValue(B: nat, attempts: seq<Attempt>, s: string)
    requires B >= 1 && Enough(B, attempts) && AcceptedString(B, attempts, s)
    ensures Accepted(B, attempts, DecimalToNat(s))
    ensures DecimalToNat(s) >= 3 && Decimal(DecimalToNat(s)) == s
  {
    var i :| 0 <= i < |attempts| && Passes(B, attempts[i]) && s == Decimal(Candidate(attempts[i].randomValues, B));
    var c := Candidate(attempts[i].randomValues, B);
    DecimalRoundTrip(c);
    CandidateShape(attempts[i].randomValues, B);
    assert Pow(2, 8 * B - 2) >= 1;
  }

  /** phi(n) = (p - 1)(q - 1) for n = p * q. */
  function Totient(p: nat, q: nat): (phi: nat)
    requires p >= 2 && q >= 2
    ensures phi >= 1 && phi == (p - 1) * (q - 1)
  {
    PositiveProduct(p - 1, q - 1);
    (p - 1) * (q - 1)
  }

  lemma PositiveProduct(a: nat, b: nat)
    requires a >= 1 && b >= 1
    ensures a * b >= 1
  {
    MonotoneMul(1, a, b);
  }

  /**
   * The arithmetic half of generatePrivateKey: store the primes, n = p * q and,
   * when e has an inverse modulo phi = (p - 1)(q - 1), d = e^-1 mod phi.
   */
  method DeriveComponents(key: PrivateKey, p: nat, q: nat)
    requires p >= 3 && q >= 3
    modifies key
    ensures key.prime1 == p && key.prime2 == q && key.modulus == p * q
    ensures key.publicExponent == old(key.publicExponent)
    ensures var phi := Totient(p, q);
      ModInverse(PUBLIC_EXPONENT, phi).Some? ==>
        key.privateExponent == ModInverse(PUBLIC_EXPONENT, phi).value &&
        (key.privateExponent * PUBLIC_EXPONENT) % phi == 1 % phi
  {
    key.prime1 := p;
    key.prime2 := q;
    key.modulus := p * q;
    var phi := Totient(p, q);
    var inverse := ModInverse(PUBLIC_EXPONENT, phi);
    if inverse.Some? {
      key.privateExponent := inverse.value;
    }
  }

  class KeyGenerator {
    var sizeOfKey: int
    var sizeOfPrimes: int
    var bufferSize: int
    var filepathChosen: bool

    /** The defaults: 4096-bit keys, 2048-bit primes, 256-byte buffers, no filepath. */
    constructor ()
      ensures sizeOfKey == 4096 && sizeOfPrimes == 2048 && bufferSize == 256
      ensures !filepathChosen
    {
      sizeOfKey := 4096;
      sizeOfPrimes := 4096 / 2;
      bufferSize := 4096 / 16;
      filepathChosen := false;
    }

    /** setGlobalVariables: the key size from the drop-down, primes of half that, buffers of a sixteenth. */
    method SetGlobalVariables(dropDownValue: string)
      modifies this
      ensures sizeOfKey == ToInt(dropDownValue)
      ensures sizeOfPrimes == sizeOfKey / 2 && bufferSize == sizeOfKey / 16
      ensures filepathChosen == old(filepathChosen)
    {
      sizeOfKey := ToInt(dropDownValue);
      sizeOfPrimes := sizeOfKey / 2;
      bufferSize := sizeOfKey / 16;
    }

    /** checkUserInput: a key size must be selected and a filepath chosen; on success the sizes are set. */
    method CheckUserInput(dropDownValue: string) returns (ok: bool)
      modifies this
      ensures ok <==> dropDownValue != [] && filepathChosen
      ensures filepathChosen == old(filepathChosen)
      ensures ok ==> sizeOfKey == ToInt(dropDownValue) && sizeOfPrimes == sizeOfKey / 2 && bufferSize == sizeOfKey / 16
      ensures !ok ==> sizeOfKey == old(sizeOfKey) && sizeOfPrimes == old(sizeOfPrimes) && bufferSize == old(bufferSize)
    {
      if dropDownValue == [] {
        return false;
      } else if !filepathChosen {
        return false;
      }
      SetGlobalVariables(dropDownValue);
      return true;
    }

    /**
     * generateRandomNumber: fill a buffer of bufferSize bytes, force the top two
     * bits and the low bit, read it big-endian and render it in decimal.
     */
    method GenerateRandomNumber(randomValues: seq<nat>) returns (numberString: string)
      requires 1 <= bufferSize <= |randomValues|
      ensures numberString == Decimal(Candidate(randomValues, bufferSize))
      ensures DecimalToNat(numberString) == Candidate(randomValues, bufferSize)
    {
      var hexArray := new Byte[bufferSize];
      for i := 0 to bufferSize
        invariant forall j :: 0 <= j < i ==> hexArray[j] == randomValues[j] % RAND_MODULUS
      {
        hexArray[i] := randomValues[i] % RAND_MODULUS;
      }
      assert hexArray[..] == RandomBytes(randomValues[..bufferSize]);
      hexArray[0] := OrByte(hexArray[0], 0xC0);
      hexArray[bufferSize - 1] := OrByte(hexArray[bufferSize - 1], 0x01);
      var number := BytesToNat(hexArray[..]);
      numberString := Decimal(number);
      DecimalRoundTrip(number);
    }

    /**
     * generatePrimeNumber: draw candidates until one passes 20 rounds. The
     * search runs over the given attempts; consumed says how many it used.
     */
    method GeneratePrimeNumber(attempts: seq<Attempt>) returns (prime: Option<string>, consumed: nat)
      requires 1 <= bufferSize && Enough(bufferSize, attempts)
      ensures consumed <= |attempts|
      ensures prime.Some? ==> consumed >= 1 && Passes(bufferSize, attempts[consumed - 1])
      ensures prime.Some? ==> prime.value == Decimal(Candidate(attempts[consumed - 1].randomValues, bufferSize))
      ensures prime.Some? ==> forall j :: 0 <= j < consumed - 1 ==> !Passes(bufferSize, attempts[j])
      ensures prime.None? ==> consumed == |attempts| && forall j :: 0 <= j < |attempts| ==> !Passes(bufferSize, attempts[j])
    {
      var i := 0;
      while i < |attempts|
        invariant i <= |attempts|
        invariant forall j :: 0 <= j < i ==> !Passes(bufferSize, attempts[j])
      {
        var randomNumberString := GenerateRandomNumber(attempts[i].randomValues);
        var currentNumber := DecimalToNat(randomNumberString);
        CandidateShape(attempts[i].randomValues, bufferSize);
        assert Pow(2, 8 * bufferSize - 2) >= 1;
        var primeFound := MillerRabinPrimeCheck(currentNumber, PRIME_ROUNDS, attempts[i].draws);
        if primeFound {
          return Some(randomNumberString), i + 1;
        }
        assert !Passes(bufferSize, attempts[i]);
        i := i + 1;
      }
      return None, |attempts|;
    }

    /**
     * The two searches of generatePrivateKey: a first prime, then further
     * searches until one gives a different decimal string.
     */
    method GenerateDistinctPrimes(attempts: seq<Attempt>) returns (primes: Option<(string, string)>)
      requires 1 <= bufferSize && Enough(bufferSize, attempts)
      ensures primes.Some? ==> primes.value.0 != primes.value.1
      ensures primes.Some? ==> AcceptedString(bufferSize, attempts, primes.value.0)
      ensures primes.Some? ==> AcceptedString(bufferSize, attempts, primes.value.1)
    {
      var first, used := GeneratePrimeNumber(attempts);
      if first.None? {
        return None;
      }
      var primeString1 := first.value;
      assert AcceptedString(bufferSize, attempts, primeString1) by {
        assert attempts[used - 1] == attempts[used - 1];
      }
      var rest := attempts[used..];
      var primeString2 := primeString1;
      var offset := used;
      while primeString2 == primeString1
        invariant offset <= |attempts| && rest == attempts[offset..]
        invariant AcceptedString(bufferSize, attempts, primeString2)
        decreases |rest|
      {
        var second, more := GeneratePrimeNumber(rest);
        if second.None? {
          return None;
        }
        assert rest[more - 1] == attempts[offset + more - 1];
        primeString2 := second.value;
        rest := rest[more..];
        offset := offset + more;
      }
      return Some((primeString1, primeString2));
    }

    /**
     * generatePrivateKey: e = 65537, two distinct probable primes, n = p * q and
     * d = e^-1 mod (p - 1)(q - 1) when the inverse exists. completed is false
     * when the attempts run out before both primes are found.
     */
    method GeneratePrivateKey(key: PrivateKey, attempts: seq<Attempt>) returns (completed: bool)
      requires 1 <= bufferSize && Enough(bufferSize, attempts)
      modifies key
      ensures key.publicExponent == PUBLIC_EXPONENT
      ensures completed ==> key.prime1 != key.prime2 && key.modulus == key.prime1 * key.prime2
      ensures completed ==> Accepted(bufferSize, attempts, key.prime1) && Accepted(bufferSize, attempts, key.prime2)
      ensures completed ==> key.prime1 >= 3 && key.prime2 >= 3
      ensures completed ==> var phi := Totient(key.prime1, key.prime2);
        ModInverse(PUBLIC_EXPONENT, phi).Some? ==>
          key.privateExponent == ModInverse(PUBLIC_EXPONENT, phi).value &&
          (key.privateExponent * PUBLIC_EXPONENT) % phi == 1 % phi
      ensures !completed ==> key.modulus == old(key.modulus) && key.prime1 == old(key.prime1)
      ensures !completed ==> key.prime2 == old(key.prime2) && key.privateExponent == old(key.privateExponent)
    {
      key.publicExponent := PUBLIC_EXPONENT;
      var primes := GenerateDistinctPrimes(attempts);
      if primes.None? {
        return false;
      }
      var (primeString1, primeString2) := primes.value;
      AcceptedValue(bufferSize, attempts, primeString1);
      AcceptedValue(bufferSize, attempts, primeString2);
      DeriveComponents(key, DecimalToNat(primeString1), DecimalToNat(primeString2));
      return true;
    }

    /** generatePublicKey: the public key takes the private key's modulus and exponent. */
    method GeneratePublicKey(publicKey: PublicKey, privateKey: PrivateKey)
      modifies publicKey
      ensures publicKey.modulus == privateKey.modulus
      ensures publicKey.publicExponent == privateKey.publicExponent
    {
      publicKey.publicExponent := privateKey.publicExponent;
      publicKey.modulus := privateKey.modulus;
    }
  }
}
