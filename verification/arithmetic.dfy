/**
  * The arbitrary-precision arithmetic that the RSA tool obtains from GMP,
  * stated on unbounded naturals: powers, modular exponentiation
  * (mpz_powm), divisibility and primality, the extended Euclidean
  * algorithm and the modular inverse (mpz_invert), and Euclid's lemma.
  */
module Arithmetic {
  import opened Options

  function Pow(b: nat, e: nat): (r: nat)
    ensures b > 0 ==> r > 0
    decreases e
  {
    if e == 0 then 1 else b * Pow(b, e - 1)
  }

  /** mpz_powm: b^e mod n, always below the modulus. */
  function ModPow(b: nat, e: nat, n: nat): (r: nat)
    requires n > 0
    ensures r < n
  {
    Pow(b, e) % n
  }

  lemma {:induction false} PowAdd(b: nat, x: nat, y: nat)
    ensures Pow(b, x + y) == Pow(b, x) * Pow(b, y)
    decreases x
  {
    if x > 0 {
      PowAdd(b, x - 1, y);
      var p, q := Pow(b, x - 1), Pow(b, y);
      assert Pow(b, x + y) == b * (p * q);
      assert Pow(b, x) == b * p;
      MulAssociates(b, p, q);
    }
  }

  lemma MulAssociates(a: int, b: int, c: int)
    ensures a * (b * c) == (a * b) * c
  {
  }

  lemma {:induction false} PowMul(b: nat, x: nat, y: nat)
    ensures Pow(b, x * y) == Pow(Pow(b, x), y)
    decreases y
  {
    if y > 0 {
      PowMul(b, x, y - 1);
      assert x * y == x * (y - 1) + x;
      PowAdd(b, x * (y - 1), x);
    }
  }

  lemma {:induction false} PowMonotone(b: nat, i: nat, j: nat)
    requires b >= 1 && i <= j
    ensures Pow(b, i) <= Pow(b, j)
    decreases j
  {
    if i < j {
      PowMonotone(b, i, j - 1);
    }
  }

  lemma PowStrict(b: nat, i: nat, j: nat)
    requires b >= 2 && i < j
    ensures Pow(b, i) < Pow(b, j)
  {
    PowMonotone(b, i, j - 1);
  }

  lemma MulAtLeast(d: int, m: int)
    requires d > 0 && m >= 1
    ensures d * m >= d
  {
  }

  /** Dafny's % agrees with any quotient/remainder pair with a remainder in [0, d). */
  lemma ModUnique(d: int, a: int, q: int, r: int)
    requires d > 0 && a == d * q + r && 0 <= r < d
    ensures a % d == r && a / d == q
  {
    var q', r' := a / d, a % d;
    assert d * (q - q') == r' - r;
    if q - q' >= 1 {
      MulAtLeast(d, q - q');
    } else if q' - q >= 1 {
      MulAtLeast(d, q' - q);
    }
  }

  lemma ModOfMultiple(d: int, k: int)
    requires d > 0
    ensures (d * k) % d == 0
  {
    ModUnique(d, d * k, k, 0);
  }

  lemma ModAddMultiple(d: int, k: int, x: int)
    requires d > 0
    ensures (d * k + x) % d == x % d
  {
    assert d * k + x == d * (k + x / d) + x % d;
    ModUnique(d, d * k + x, k + x / d, x % d);
  }

  lemma MulMod(a: int, b: int, d: int)
    requires d > 0
    ensures (a * b) % d == ((a % d) * (b % d)) % d
  {
    var qa, ra := a / d, a % d;
    var qb, rb := b / d, b % d;
    assert a == d * qa + ra;
    assert b == d * qb + rb;
    assert a * b == d * (qa * b + ra * qb) + ra * rb by {
      assert a * b == (d * qa + ra) * b;
      assert (d * qa + ra) * b == d * qa * b + ra * b;
      assert ra * b == ra * (d * qb + rb) == d * (ra * qb) + ra * rb;
    }
    ModAddMultiple(d, qa * b + ra * qb, ra * rb);
  }

  /** Multiplying congruent numbers by the same factor keeps them congruent. */
  lemma MulCongruent(r: int, p: int, q: int, n: int)
    requires n > 0 && p % n == q % n
    ensures (r * p) % n == (r * q) % n
  {
    MulMod(r, p, n);
    MulMod(r, q, n);
  }

  /** Reducing the base first does not change a modular power. */
  lemma {:induction false} PowModBase(b: nat, e: nat, n: nat)
    requires n > 0
    ensures Pow(b, e) % n == Pow(b % n, e) % n
    decreases e
  {
    if e > 0 {
      var r, p, q := b % n, Pow(b, e - 1), Pow(b % n, e - 1);
      assert (b * p) % n == (r * p) % n by {
        ModUnique(n, r, 0, r);
        MulCongruent(p, b, r, n);
        assert b * p == p * b && r * p == p * r;
      }
      assert (r * p) % n == (r * q) % n by {
        PowModBase(b, e - 1, n);
        MulCongruent(r, p, q, n);
      }
    }
  }

  /** d divides x (d is positive). */
  ghost predicate Divides(d: nat, x: int)
  {
    d > 0 && x % d == 0
  }

  ghost predicate IsPrime(n: nat)
  {
    n >= 2 && forall k: nat :: 2 <= k < n ==> !Divides(k, n)
  }

  lemma DividesLinear(d: nat, a: int, b: int, x: int, y: int)
    requires Divides(d, a) && Divides(d, b)
    ensures Divides(d, a * x + b * y)
  {
    var qa, qb := a / d, b / d;
    assert a == d * qa;
    assert b == d * qb;
    assert a * x + b * y == d * (qa * x + qb * y) by {
      assert a * x == d * qa * x;
      assert b * y == d * qb * y;
    }
    ModOfMultiple(d, qa * x + qb * y);
  }

  lemma DividesTrans(d: nat, m: nat, x: int)
    requires Divides(d, m) && Divides(m, x)
    ensures Divides(d, x)
  {
    assert x == m * (x / m);
    DividesLinear(d, m, 0, x / m, 0);
  }

  /** A positive multiple of d is at least d. */
  lemma DividesLe(d: nat, x: int)
    requires Divides(d, x) && x > 0
    ensures d <= x
  {
    var q := x / d;
    assert x == d * q;
    if q > 0 {
      MulAtLeast(d, q);
    }
  }

  lemma DividesSelf(d: nat)
    requires d > 0
    ensures Divides(d, d)
  {
    ModOfMultiple(d, 1);
  }

  /** Two numbers with equal remainders differ by a multiple of the modulus. */
  lemma CongruentDifference(a: int, b: int, d: nat)
    requires d > 0 && a % d == b % d
    ensures Divides(d, a - b)
  {
    assert a == d * (a / d) + a % d;
    assert b == d * (b / d) + b % d;
    assert a - b == d * (a / d - b / d);
    ModOfMultiple(d, a / d - b / d);
  }

  lemma {:induction false} ExtGcdStep(a: int, b: int, g: int, x: int, y: int)
    requires b > 0 && a >= 0 && b * x + (a % b) * y == g
    ensures a * y + b * (x - (a / b) * y) == g
  {
    assert a == b * (a / b) + a % b;
    assert a * y == b * (a / b) * y + (a % b) * y;
    assert b * (x - (a / b) * y) == b * x - b * (a / b) * y;
  }

  /**
    * The extended Euclidean algorithm: (g, x, y) with a*x + b*y == g and g
    * a common divisor of a and b.
    */
  function ExtGcd(a: nat, b: nat): (r: (nat, int, int))
    ensures a * r.1 + b * r.2 == r.0
    ensures a > 0 || b > 0 ==> Divides(r.0, a) && Divides(r.0, b)
    decreases b
  {
    if b == 0 then
      DividesSelfOrZero(a);
      (a, 1, 0)
    else
      var t := ExtGcd(b, a % b);
      ExtGcdStep(a, b, t.0, t.1, t.2);
      DividesCombination(t.0, a, b);
      (t.0, t.2, t.1 - (a / b) * t.2)
  }

  lemma DividesSelfOrZero(a: nat)
    ensures a > 0 ==> Divides(a, a) && Divides(a, 0)
  {
    if a > 0 {
      DividesSelf(a);
    }
  }

  lemma DividesCombination(g: nat, a: nat, b: nat)
    requires b > 0 && Divides(g, b) && Divides(g, a % b)
    ensures Divides(g, a)
  {
    assert a == b * (a / b) + (a % b) * 1;
    DividesLinear(g, b, a % b, a / b, 1);
  }

  lemma InverseFromBezout(a: nat, m: nat, x: int, y: int)
    requires m > 0 && a * x + m * y == 1
    ensures ((x % m) * a) % m == 1 % m
  {
    var r := x % m;
    assert r % m == x % m;
    MulCongruent(a, r, x, m);
    assert a * r == r * a && a * x == x * a;
    assert x * a == m * (-y) + 1;
    ModAddMultiple(m, -y, 1);
  }

  /**
    * mpz_invert: the inverse of a modulo m when gcd(a, m) == 1, and None when
    * no inverse exists (see NoInverse).
    */
  function ModInverse(a: nat, m: nat): (r: Option<nat>)
    requires m > 0
    ensures r.Some? ==> r.value < m && (r.value * a) % m == 1 % m
  {
    var t := ExtGcd(a, m);
    if t.0 == 1 then
      InverseFromBezout(a, m, t.1, t.2);
      Some(t.1 % m)
    else
      None
  }

  /** When ModInverse fails, no number at all is an inverse of a modulo m. */
  lemma NoInverse(a: nat, m: nat, x: nat)
    requires m > 0 && ModInverse(a, m).None?
    ensures (x * a) % m != 1 % m
  {
    var t := ExtGcd(a, m);
    var g := t.0;
    if (x * a) % m == 1 % m {
      CongruentDifference(x * a, 1, m);
      DividesTrans(g, m, x * a - 1);
      DividesLinear(g, a, x * a - 1, x, -1);
      assert a * x + (x * a - 1) * (-1) == 1;
      DividesLe(g, 1);
      assert false;
    }
  }

  /** Euclid's lemma: a prime dividing a product divides one of the factors. */
  lemma EuclidLemma(p: nat, a: nat, b: nat)
    requires IsPrime(p) && Divides(p, a * b)
    ensures Divides(p, a) || Divides(p, b)
  {
    if !Divides(p, a) {
      var t := ExtGcd(p, a);
      var g := t.0;
      DividesLe(g, p);
      assert g == 1;
      assert b == p * (b * t.1) + (a * b) * t.2 by {
        assert p * t.1 + a * t.2 == 1;
        assert b == b * (p * t.1 + a * t.2);
      }
      DividesSelf(p);
      DividesLinear(p, p, a * b, b * t.1, t.2);
    }
  }
}
