/**
 * Number theory behind the RSA round trip: Euclid's lemma (a prime dividing a product
 * divides a factor), binomial coefficients and the binomial theorem, Fermat's little
 * theorem, and the congruence x^(e * d) == x modulo a product of two distinct primes.
 */
module Fermat {
  import opened Arithmetic
  import opened Primes
  import Euclid

  /** The divisor of the corrected Euclid procedure is non-negative on non-negative inputs. */
  lemma {:induction false} CorrectedNonNegative(a: int, b: int)
    requires a >= 0 && b >= 0
    ensures Euclid.ComputeCorrected(a, b).0 >= 0
    decreases b
  {
    if b != 0 {
      CorrectedNonNegative(b, TruncRem(a, b));
    }
  }

  /** The only non-negative divisors of a prime are 1 and itself. */
  lemma PrimeDivisor(p: int, g: int)
    requires Prime(p) && g >= 0 && Divides(g, p)
    ensures g == 1 || g == p
  {
    if g > p {
      ModUnique(p, 0, p, g);
    }
  }

  /** Euclid's lemma: a prime that divides a * b divides a or b. */
  lemma EuclidLemma(p: int, a: int, b: int)
    requires Prime(p) && Divides(p, a * b)
    ensures Divides(p, a) || Divides(p, b)
  {
    var a' := a % p;
    if a' != 0 {
      var q := a / p;
      RemainderProduct(a, b, p, q, a');
      ModUnique(p, 1, 0, p);
      DividesCombination(p, a * b, p, 1, -q * b);
      CoprimeFactor(p, a', b);
    }
  }

  /** With a == q * p + r, the product r * b is a * b less a multiple of p. */
  lemma RemainderProduct(a: int, b: int, p: int, q: int, r: int)
    requires a == q * p + r
    ensures r * b == a * b * 1 + p * (-q * b)
  {
  }

  /** A prime p dividing r * b with 0 < r < p divides b: Bezout gives 1 == p * s + r * t. */
  lemma CoprimeFactor(p: int, r: int, b: int)
    requires Prime(p) && 0 < r < p && Divides(p, r * b)
    ensures Divides(p, b)
  {
    var e := Euclid.ComputeCorrected(p, r);
    var g, s, t := e.0, e.1, e.2;
    CorrectedNonNegative(p, r);
    PrimeDivisor(p, g);
    if g == p {
      ModUnique(r, 0, r, p);
      assert false;
    }
    ModUnique(p, 1, 0, p);
    ScaleBezout(b, p, s, r, t);
    DividesCombination(p, p, r * b, s * b, t);
  }

  /** Multiplying 1 == p * s + a * t through by b. */
  lemma ScaleBezout(b: int, p: int, s: int, a: int, t: int)
    requires 1 == p * s + a * t
    ensures b == p * (s * b) + (a * b) * t
  {
    calc {
      b;
      b * (p * s + a * t);
      p * (s * b) + (a * b) * t;
    }
  }

  /** Two distinct primes that both divide z: their product divides z. */
  lemma ProductDivides(p: int, q: int, z: int)
    requires Prime(p) && Prime(q) && p != q && Divides(p, z) && Divides(q, z)
    ensures Divides(p * q, z)
  {
    var k := z / p;
    DividesQuotient(p, z);
    assert z == p * k;
    EuclidLemma(q, p, k);
    if Divides(q, p) {
      PrimeDivisor(p, q);
      assert false;
    }
    DividesQuotient(q, k);
    assert z == (p * q) * (k / q);
    DividesWitness(p * q, z, k / q);
  }

  /** The binomial coefficient by Pascal's rule. */
  function Binom(n: nat, k: nat): nat
    decreases n
  {
    if k == 0 then 1 else if n == 0 then 0 else Binom(n - 1, k - 1) + Binom(n - 1, k)
  }

  lemma {:induction false} BinomAbove(n: nat, k: nat)
    requires k > n
    ensures Binom(n, k) == 0
  {
    if n > 0 {
      BinomAbove(n - 1, k - 1);
      BinomAbove(n - 1, k);
    }
  }

  lemma {:induction false} BinomDiagonal(n: nat)
    ensures Binom(n, n) == 1
  {
    if n > 0 {
      BinomDiagonal(n - 1);
      BinomAbove(n - 1, n);
    }
  }

  /** The absorption identity k * C(n, k) == n * C(n - 1, k - 1). */
  lemma {:induction false} Absorption(n: nat, k: nat)
    requires 1 <= k && 1 <= n
    ensures k * Binom(n, k) == n * Binom(n - 1, k - 1)
    decreases n
  {
    if n == 1 {
      if k > 1 {
        BinomAbove(0, k - 1);
        BinomAbove(0, k);
      }
    } else if k == 1 {
      Absorption(n - 1, 1);
    } else {
      Absorption(n - 1, k - 1);
      Absorption(n - 1, k);
      AbsorptionStep(n, k, Binom(n - 1, k - 1), Binom(n - 1, k), Binom(n - 2, k - 2), Binom(n - 2, k - 1));
    }
  }

  /** The algebra of the absorption step, with C(n - 1, k - 1) = c + d by Pascal's rule. */
  lemma AbsorptionStep(n: int, k: int, a: int, b: int, c: int, d: int)
    requires a == c + d && (k - 1) * a == (n - 1) * c && k * b == (n - 1) * d
    ensures k * (a + b) == n * a
  {
    calc {
      k * (a + b);
      (k - 1) * a + a + k * b;
      (n - 1) * c + a + (n - 1) * d;
      (n - 1) * (c + d) + a;
      n * a;
    }
  }

  /** A prime p divides C(p, k) for 0 < k < p. */
  lemma PrimeDividesBinom(p: nat, k: nat)
    requires Prime(p) && 0 < k < p
    ensures Divides(p, Binom(p, k))
  {
    Absorption(p, k);
    DividesWitness(p, k * Binom(p, k), Binom(p - 1, k - 1));
    EuclidLemma(p, k, Binom(p, k));
    if Divides(p, k) {
      ModUnique(k, 0, k, p);
      assert false;
    }
  }

  /** The first j terms of the expansion of (x + 1)^n: the sum of C(n, k) * x^k for k < j. */
  function BinomSum(n: nat, x: int, j: nat): int {
    if j == 0 then 0 else BinomSum(n, x, j - 1) + Binom(n, j - 1) * Pow(x, j - 1)
  }

  /** Pascal's rule lifted to the partial sums. */
  lemma {:induction false} PascalSum(n: nat, x: int, j: nat)
    requires n >= 1 && j >= 1
    ensures BinomSum(n, x, j) == BinomSum(n - 1, x, j) + x * BinomSum(n - 1, x, j - 1)
  {
    if j > 1 {
      PascalSum(n, x, j - 1);
      assert Pow(x, j - 1) == x * Pow(x, j - 2);
      PascalStep(BinomSum(n - 1, x, j - 1), BinomSum(n - 1, x, j - 2), Binom(n - 1, j - 2), Binom(n - 1, j - 1), x, Pow(x, j - 2));
    }
  }

  /** The algebra of PascalSum's step: regroup the two new terms into the two partial sums. */
  lemma PascalStep(s1: int, s2: int, b1: int, b2: int, x: int, y: int)
    ensures s1 + x * s2 + (b1 + b2) * (x * y) == (s1 + b2 * (x * y)) + x * (s2 + b1 * y)
  {
  }

  /** The binomial theorem: (x + 1)^n is the sum of C(n, k) * x^k for k <= n. */
  lemma {:induction false} BinomialTheorem(n: nat, x: int)
    ensures Pow(x + 1, n) == BinomSum(n, x, n + 1)
  {
    if n > 0 {
      var t := BinomSum(n - 1, x, n);
      calc {
        Pow(x + 1, n);
        (x + 1) * Pow(x + 1, n - 1);
        { BinomialTheorem(n - 1, x); }
        (x + 1) * t;
        t + x * t;
        { BinomAbove(n - 1, n); }
        BinomSum(n - 1, x, n + 1) + x * t;
        { PascalSum(n, x, n + 1); }
        BinomSum(n, x, n + 1);
      }
    }
  }

  /** The terms of (x + 1)^p strictly between the first and the last are multiples of p. */
  lemma {:induction false} MiddleTerms(p: nat, x: int, j: nat)
    requires Prime(p) && 1 <= j <= p
    ensures Divides(p, BinomSum(p, x, j) - 1)
  {
    if j > 1 {
      MiddleTerms(p, x, j - 1);
      PrimeDividesBinom(p, j - 1);
      DividesCombination(p, BinomSum(p, x, j - 1) - 1, Binom(p, j - 1), 1, Pow(x, j - 1));
    } else {
      ModUnique(0, 0, 0, p);
    }
  }

  /** Fermat's little theorem: p divides x^p - x for every prime p and x >= 0. */
  lemma {:induction false} FermatLittle(p: nat, x: nat)
    requires Prime(p)
    ensures Divides(p, Pow(x, p) - x)
  {
    if x == 0 {
      assert Pow(0, p) == 0 * Pow(0, p - 1);
      ModUnique(0, 0, 0, p);
    } else {
      FermatLittle(p, x - 1);
      BinomialTheorem(p, x - 1);
      MiddleTerms(p, x - 1, p);
      BinomDiagonal(p);
      assert Pow(x, p) == BinomSum(p, x - 1, p) + Pow(x - 1, p);
      assert Pow(x, p) - x == (BinomSum(p, x - 1, p) - 1) * 1 + (Pow(x - 1, p) - (x - 1)) * 1;
      DividesCombination(p, BinomSum(p, x - 1, p) - 1, Pow(x - 1, p) - (x - 1), 1, 1);
    }
  }

  /** For x not divisible by the prime p, x^(p - 1) leaves remainder 1. */
  lemma FermatUnit(p: nat, x: nat)
    requires Prime(p) && !Divides(p, x)
    ensures Pow(x, p - 1) % p == 1
  {
    FermatLittle(p, x);
    assert Pow(x, p) == x * Pow(x, p - 1);
    assert Pow(x, p) - x == x * (Pow(x, p - 1) - 1);
    EuclidLemma(p, x, Pow(x, p - 1) - 1);
    DividesQuotient(p, Pow(x, p - 1) - 1);
    var k := (Pow(x, p - 1) - 1) / p;
    ModShift(1, k, p);
    ModUnique(1, 0, 1, p);
  }

  /** A number congruent to 1 has every power congruent to 1. */
  lemma {:induction false} PowOfOne(a: int, m: nat, n: int)
    requires n > 1 && a % n == 1
    ensures Pow(a, m) % n == 1
  {
    if m == 0 {
      ModUnique(1, 0, 1, n);
    } else {
      PowOfOne(a, m - 1, n);
      ProductMod(a, Pow(a, m - 1), n);
      assert a * 1 == a;
    }
  }

  /** Powers of powers multiply the exponents. */
  lemma {:induction false} PowMul(x: int, a: nat, b: nat)
    ensures Pow(Pow(x, a), b) == Pow(x, a * b)
  {
    if b > 0 {
      PowMul(x, a, b - 1);
      PowAdd(x, a, a * (b - 1));
      assert a + a * (b - 1) == a * b;
    }
  }

  /** Reducing the base modulo n does not change a power modulo n. */
  lemma {:induction false} PowMod(a: int, d: nat, n: int)
    requires n > 0
    ensures Pow(a % n, d) % n == Pow(a, d) % n
  {
    if d > 0 {
      PowMod(a, d - 1, n);
      var b, c := Pow(a % n, d - 1), Pow(a, d - 1);
      calc {
        Pow(a % n, d) % n;
        ((a % n) * b) % n;
        { ProductMod(a % n, b, n); }
        ((a % n) * (b % n)) % n;
        ((a % n) * (c % n)) % n;
        { ProductMod(a % n, c, n); }
        ((a % n) * c) % n;
        (c * (a % n)) % n;
        { ProductMod(c, a, n); }
        (c * a) % n;
        Pow(a, d) % n;
      }
    }
  }

  /** x^(1 + h * (p - 1) * (q - 1)) is congruent to x modulo the prime p. */
  lemma EulerModPrime(p: nat, q: nat, h: nat, x: nat)
    requires Prime(p) && q >= 1
    ensures Divides(p, Pow(x, 1 + h * ((p - 1) * (q - 1))) - x)
  {
    var m := h * (q - 1);
    assert 1 + h * ((p - 1) * (q - 1)) == 1 + (p - 1) * m;
    EulerSplit(p, m, x);
  }

  /** x^(1 + (p - 1) * m) is congruent to x modulo the prime p. */
  lemma EulerSplit(p: nat, m: nat, x: nat)
    requires Prime(p)
    ensures Divides(p, Pow(x, 1 + (p - 1) * m) - x)
  {
    var y := Pow(x, (p - 1) * m);
    assert Pow(x, 1 + (p - 1) * m) == x * y;
    if Divides(p, x) {
      DividesCombination(p, x, x, y, -1);
      assert x * y - x == x * y + x * -1;
    } else {
      FermatUnit(p, x);
      PowMul(x, p - 1, m);
      PowOfOne(Pow(x, p - 1), m, p);
      UnitMultiple(x, y, y / p, p);
      DividesWitness(p, x * y - x, x * (y / p));
    }
  }

  /** With y leaving remainder 1 modulo p, x * y - x is the multiple (x * (y / p)) * p. */
  lemma UnitMultiple(x: int, y: int, k: int, p: int)
    requires p > 0 && y % p == 1 && k == y / p
    ensures x * y - x == (x * k) * p
  {
    assert y == k * p + 1;
    calc {
      x * y - x;
      x * (k * p + 1) - x;
      (x * k) * p;
    }
  }

  /**
   * The RSA identity: for distinct primes p, q and e * d congruent to 1 modulo
   * (p - 1) * (q - 1), x^(e * d) mod p * q == x for every x < p * q.
   */
  lemma RsaIdentity(p: nat, q: nat, e: nat, d: nat, x: nat)
    requires Prime(p) && Prime(q) && p != q
    requires (e * d) % ((p - 1) * (q - 1)) == 1
    requires x < p * q
    ensures Pow(x, e * d) % (p * q) == x
  {
    var r := (p - 1) * (q - 1);
    MulMono(1, p - 1, q - 1);
    var h := (e * d) / r;
    assert e * d == h * r + 1;
    EulerModPrime(p, q, h, x);
    EulerModPrime(q, p, h, x);
    assert h * ((q - 1) * (p - 1)) == h * r;
    var z := Pow(x, e * d) - x;
    ProductDivides(p, q, z);
    MulMono(2, p, q);
    DividesQuotient(p * q, z);
    ModShift(x, z / (p * q), p * q);
    ModUnique(x, 0, x, p * q);
  }
}
