/**
  * Fermat's little theorem, proved through the binomial expansion of
  * (x + 1)^p, and the square roots of one modulo a prime: the number theory
  * on which the Miller-Rabin test and RSA decryption rest.
  */
module Fermat {
  import opened Arithmetic

  /** Binomial coefficients by Pascal's rule. */
  function Binom(n: nat, k: nat): nat
    decreases n
  {
    if k == 0 then 1 else if n == 0 then 0 else Binom(n - 1, k - 1) + Binom(n - 1, k)
  }

  lemma {:induction false} BinomAbove(n: nat, k: nat)
    requires k > n
    ensures Binom(n, k) == 0
    decreases n
  {
    if n > 0 {
      BinomAbove(n - 1, k - 1);
      BinomAbove(n - 1, k);
    }
  }

  lemma {:induction false} BinomDiagonal(n: nat)
    ensures Binom(n, n) == 1
    decreases n
  {
    if n > 0 {
      BinomDiagonal(n - 1);
      BinomAbove(n - 1, n);
    }
  }

  lemma {:induction false} BinomOne(n: nat)
    ensures Binom(n, 1) == n
    decreases n
  {
    if n > 0 {
      BinomOne(n - 1);
    }
  }

  /** k * C(n, k) == n * C(n - 1, k - 1). */
  lemma {:induction false} BinomAbsorb(n: nat, k: nat)
    requires n >= 1 && k >= 1
    ensures k * Binom(n, k) == n * Binom(n - 1, k - 1)
    decreases n
  {
    if k == 1 {
      BinomOne(n);
    } else if n == 1 {
      BinomAbove(0, k - 1);
      BinomAbove(0, k);
    } else {
      BinomAbsorb(n - 1, k);
      BinomAbsorb(n - 1, k - 1);
      AbsorbStep(n, k, Binom(n, k), Binom(n - 1, k - 1), Binom(n - 1, k),
                 Binom(n - 2, k - 2), Binom(n - 2, k - 1));
    }
  }

  /** The arithmetic of one Pascal step in BinomAbsorb. */
  lemma AbsorbStep(n: int, k: int, nk: int, a: int, b: int, c: int, d: int)
    requires nk == a + b && a == c + d
    requires k * b == (n - 1) * d && (k - 1) * a == (n - 1) * c
    ensures k * nk == n * a
  {
    calc {
      k * nk;
      k * a + k * b;
      (k - 1) * a + a + (n - 1) * d;
      (n - 1) * c + (n - 1) * d + a;
      (n - 1) * (c + d) + a;
    }
  }

  /** A prime divides every inner coefficient of its row of Pascal's triangle. */
  lemma PrimeDividesBinom(p: nat, k: nat)
    requires IsPrime(p) && 0 < k < p
    ensures Divides(p, Binom(p, k))
  {
    BinomAbsorb(p, k);
    assert Divides(p, k * Binom(p, k)) by {
      ModOfMultiple(p, Binom(p - 1, k - 1));
    }
    assert !Divides(p, k) by {
      ModUnique(p, k, 0, k);
    }
    EuclidLemma(p, k, Binom(p, k));
  }

  /** The first m terms of the binomial expansion of (x + 1)^n. */
  function BinomSum(x: nat, n: nat, m: nat): nat
  {
    if m == 0 then 0 else BinomSum(x, n, m - 1) + Binom(n, m - 1) * Pow(x, m - 1)
  }

  lemma {:induction false} BinomSumPascal(x: nat, n: nat, m: nat)
    requires m >= 1
    ensures BinomSum(x, n + 1, m) == BinomSum(x, n, m) + x * BinomSum(x, n, m - 1)
    decreases m
  {
    if m > 1 {
      BinomSumPascal(x, n, m - 1);
      assert Binom(n + 1, m - 1) == Binom(n, m - 2) + Binom(n, m - 1);
      assert Pow(x, m - 1) == x * Pow(x, m - 2);
      PascalSumStep(x, BinomSum(x, n, m - 1), BinomSum(x, n, m - 2), Binom(n, m - 1), Binom(n, m - 2),
                    Pow(x, m - 1), Pow(x, m - 2), BinomSum(x, n + 1, m - 1));
    }
  }

  /** The arithmetic of one step of BinomSumPascal. */
  lemma PascalSumStep(x: int, s1: int, s2: int, c1: int, c2: int, p1: int, p2: int, t: int)
    requires p1 == x * p2 && t == s1 + x * s2
    ensures t + (c2 + c1) * p1 == (s1 + c1 * p1) + x * (s2 + c2 * p2)
  {
    assert c2 * p1 == x * (c2 * p2);
  }

  lemma {:induction false} BinomSumComplete(x: nat, n: nat, m: nat)
    requires m >= n + 1
    ensures BinomSum(x, n, m) == BinomSum(x, n, n + 1)
    decreases m
  {
    if m > n + 1 {
      BinomSumComplete(x, n, m - 1);
      BinomAbove(n, m - 1);
    }
  }

  /** The binomial theorem for (x + 1)^n. */
  lemma {:induction false} BinomialTheorem(x: nat, n: nat)
    ensures Pow(x + 1, n) == BinomSum(x, n, n + 1)
    decreases n
  {
    if n > 0 {
      var s := BinomSum(x, n - 1, n);
      BinomialTheorem(x, n - 1);
      BinomSumPascal(x, n - 1, n + 1);
      BinomSumComplete(x, n - 1, n + 1);
      assert BinomSum(x, n, n + 1) == s + x * s;
      assert Pow(x + 1, n) == (x + 1) * s by {
        assert Pow(x + 1, n) == (x + 1) * Pow(x + 1, n - 1);
      }
      SuccessorTimes(x, s);
    }
  }

  lemma SuccessorTimes(x: int, s: int)
    ensures (x + 1) * s == s + x * s
  {
  }

  lemma {:induction false} BinomSumInner(x: nat, p: nat, m: nat)
    requires IsPrime(p) && 1 <= m <= p
    ensures Divides(p, BinomSum(x, p, m) - 1)
    decreases m
  {
    if m == 1 {
      ModOfMultiple(p, 0);
    } else {
      BinomSumInner(x, p, m - 1);
      PrimeDividesBinom(p, m - 1);
      DividesLinear(p, BinomSum(x, p, m - 1) - 1, Binom(p, m - 1), 1, Pow(x, m - 1));
    }
  }

  /** (x + 1)^p == x^p + 1 modulo a prime p. */
  lemma FreshmansDream(x: nat, p: nat)
    requires IsPrime(p)
    ensures Divides(p, Pow(x + 1, p) - Pow(x, p) - 1)
  {
    BinomialTheorem(x, p);
    BinomAbove(p - 1, p);
    BinomDiagonal(p);
    assert BinomSum(x, p, p + 1) == BinomSum(x, p, p) + Pow(x, p);
    BinomSumInner(x, p, p);
  }

  /** Fermat's little theorem: a^p == a modulo a prime p. */
  lemma {:induction false} FermatLittle(a: nat, p: nat)
    requires IsPrime(p)
    ensures Divides(p, Pow(a, p) - a)
    decreases a
  {
    if a == 0 {
      assert Pow(0, p) == 0 * Pow(0, p - 1) == 0;
      ModOfMultiple(p, 0);
    } else {
      FermatLittle(a - 1, p);
      FreshmansDream(a - 1, p);
      DividesLinear(p, Pow(a, p) - Pow(a - 1, p) - 1, Pow(a - 1, p) - (a - 1), 1, 1);
    }
  }

  /** A number of the form p * k + 1 leaves remainder 1 modulo p >= 2. */
  lemma RemainderOne(x: int, p: nat)
    requires p >= 2 && Divides(p, x - 1)
    ensures x % p == 1
  {
    assert x == p * ((x - 1) / p) + 1;
    ModUnique(p, x, (x - 1) / p, 1);
  }

  /** Fermat's little theorem for a base the prime does not divide. */
  lemma FermatCoprime(a: nat, p: nat)
    requires IsPrime(p) && !Divides(p, a)
    ensures Pow(a, p - 1) % p == 1
  {
    assert a != 0 by {
      ModOfMultiple(p, 0);
    }
    var q := Pow(a, p - 1);
    FermatLittle(a, p);
    assert Pow(a, p) - a == a * (q - 1);
    EuclidLemma(p, a, q - 1);
    RemainderOne(q, p);
  }

  /** Modulo a prime, the only square roots of one are 1 and p - 1. */
  lemma SquareRootOfOne(x: nat, p: nat)
    requires IsPrime(p) && x < p && (x * x) % p == 1
    ensures x == 1 || x == p - 1
  {
    assert x != 0;
    ModUnique(p, 1, 0, 1);
    CongruentDifference(x * x, 1, p);
    assert x * x - 1 == (x - 1) * (x + 1);
    EuclidLemma(p, x - 1, x + 1);
    ModUnique(p, x - 1, 0, x - 1);
    if x + 1 < p {
      ModUnique(p, x + 1, 0, x + 1);
    }
  }
}
