/**
 * The Miller-Rabin round used by the key generator, as a specification:
 * n - 1 = d * 2^s with d odd, and the chain of powers a^(d * 2^r) mod n.
 */
module MillerRabin {
  import opened Arithmetic
  import opened Fermat

  /** The number of times 2 divides m (s in m = d * 2^s). */
  function Valuation(m: nat): (s: nat)
    requires m > 0
    ensures s > 0 <==> m % 2 == 0
    decreases m
  {
    if m % 2 == 0 then 1 + Valuation(m / 2) else 0
  }

  /** The odd part of m: what remains after halving while m is even. */
  function OddPart(m: nat): (d: nat)
    requires m > 0
    ensures d % 2 == 1 && d * Pow(2, Valuation(m)) == m
    decreases m
  {
    if m % 2 == 0 then
      var h := m / 2;
      var d := OddPart(h);
      DoubleExponent(d, Valuation(h));
      d
    else
      m
  }

  /** d * 2^(r + 1) is twice d * 2^r. */
  lemma DoubleExponent(d: nat, r: nat)
    ensures d * Pow(2, r + 1) == 2 * (d * Pow(2, r))
  {
    assert Pow(2, r + 1) == 2 * Pow(2, r);
    Reassociate(d, 2, Pow(2, r));
  }

  lemma Reassociate(x: int, y: int, z: int)
    ensures x * (y * z) == y * (x * z)
  {
  }

  /** The width of the unsigned long that mpz_get_ui returns. */
  const WORD: nat := 0x1_0000_0000_0000_0000

  /** The least significant machine word of x (mpz_get_ui on a non-negative value). */
  function LowWord(x: nat): (w: nat)
    ensures w < WORD
    ensures x < WORD ==> w == x
  {
    x % WORD
  }

  /** The r-th term of the chain: a^(d * 2^r) mod n with d the odd part of n - 1. */
  function ChainTerm(n: nat, a: nat, r: nat): (t: nat)
    requires n >= 2
    ensures t < n
  {
    ModPow(a, OddPart(n - 1) * Pow(2, r), n)
  }

  /**
   * One round accepts witness a when the first term's low word is one, or when
   * some term before the s-th is n - 1.
   */
  predicate WitnessAccepts(n: nat, a: nat)
    requires n >= 2
  {
    LowWord(ChainTerm(n, a, 0)) == 1 ||
    exists r :: 0 <= r < Valuation(n - 1) && ChainTerm(n, a, r) == n - 1
  }

  /** Each term of the chain is the square of the one before, modulo n. */
  lemma ChainSquares(n: nat, a: nat, r: nat)
    requires n >= 2
    ensures ChainTerm(n, a, r + 1) == (ChainTerm(n, a, r) * ChainTerm(n, a, r)) % n
  {
    var d := OddPart(n - 1);
    var e := d * Pow(2, r);
    var x := Pow(a, e);
    assert d * Pow(2, r + 1) == e * 2 by {
      DoubleExponent(d, r);
    }
    assert Pow(a, e * 2) == x * x by {
      PowMul(a, e, 2);
      assert Pow(x, 2) == x * Pow(x, 1) == x * x;
    }
    var t := x % n;
    assert (x * x) % n == (t * t) % n by {
      PowModBase(x, 2, n);
      assert Pow(x, 2) == x * x;
      assert Pow(t, 2) == t * t;
    }
  }

  /** The s-th term is a^(n - 1) mod n. */
  lemma ChainEnd(n: nat, a: nat)
    requires n >= 2
    ensures ChainTerm(n, a, Valuation(n - 1)) == ModPow(a, n - 1, n)
  {
  }

  /** A term of the chain falls below n - 1 exactly before the s-th. */
  lemma ExponentBelow(n: nat, r: nat)
    requires n >= 2
    ensures r < Valuation(n - 1) <==> OddPart(n - 1) * Pow(2, r) < n - 1
  {
    var d, s := OddPart(n - 1), Valuation(n - 1);
    if r < s {
      PowStrict(2, r, s);
      MonotoneProduct(d, Pow(2, r), Pow(2, s));
    } else {
      PowMonotone(2, s, r);
      MonotoneProduct(d, Pow(2, s), Pow(2, r));
    }
  }

  lemma MonotoneProduct(d: nat, x: nat, y: nat)
    requires d > 0
    ensures x < y ==> d * x < d * y
    ensures x <= y ==> d * x <= d * y
  {
  }

  /**
   * Descent: if the r-th term is one, the round accepts with a term at or
   * before r.
   */
  lemma {:induction false} ChainDescent(n: nat, a: nat, r: nat)
    requires IsPrime(n) && r <= Valuation(n - 1) && ChainTerm(n, a, r) == 1
    ensures ChainTerm(n, a, 0) == 1 || exists j :: 0 <= j < r && ChainTerm(n, a, j) == n - 1
    decreases r
  {
    if r > 0 {
      var x := ChainTerm(n, a, r - 1);
      ChainSquares(n, a, r - 1);
      SquareRootOfOne(x, n);
      if x == 1 {
        ChainDescent(n, a, r - 1);
      }
    }
  }

  /** A prime n accepts every witness it does not divide. */
  lemma PrimeAcceptsEveryWitness(n: nat, a: nat)
    requires IsPrime(n) && !Divides(n, a)
    ensures WitnessAccepts(n, a)
  {
    FermatCoprime(a, n);
    ChainEnd(n, a);
    ChainDescent(n, a, Valuation(n - 1));
  }

  /** Every witness in [2, n - 2] of a prime n is one it does not divide. */
  lemma WitnessInRangeCoprime(n: nat, a: nat)
    requires IsPrime(n) && 2 <= a <= n - 2
    ensures !Divides(n, a)
  {
    ModUnique(n, a, 0, a);
  }

  /**
   * Contrapositive of the theorem: a rejected witness in [2, n - 2] proves n
   * composite.
   */
  lemma RejectionProvesComposite(n: nat, a: nat)
    requires n >= 4 && 2 <= a <= n - 2 && !WitnessAccepts(n, a)
    ensures !IsPrime(n)
  {
    if IsPrime(n) {
      WitnessInRangeCoprime(n, a);
      PrimeAcceptsEveryWitness(n, a);
    }
  }
}
