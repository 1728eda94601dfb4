/** Primes and least factors, the common vocabulary of the primality test and the sieve. */
module Primes {
  import opened Arithmetic

  /** The bound of a 32-bit unsigned integer. */
  const UintLimit: int := 0x1_0000_0000

  /** n is prime: at least 2 and divisible by no k in [2, n). */
  predicate Prime(n: int) {
    n >= 2 && forall k :: 2 <= k < n ==> n % k != 0
  }

  /** The least factor of n that is at least 2. */
  ghost function MinFactor(n: int): (f: int)
    requires n >= 2
    ensures 2 <= f <= n && n % f == 0
    ensures forall k :: 2 <= k < f ==> n % k != 0
  {
    MinFactorFrom(n, 2)
  }

  /** The least factor of n at or above j, when nothing in [2, j) divides n. */
  ghost function MinFactorFrom(n: int, j: int): (f: int)
    requires 2 <= j <= n
    requires forall k :: 2 <= k < j ==> n % k != 0
    ensures j <= f <= n && n % f == 0
    ensures forall k :: 2 <= k < f ==> n % k != 0
    decreases n - j
  {
    if n % j == 0 then j
    else
      assert n % n == 0;
      MinFactorFrom(n, j + 1)
  }

  /** The least factor is prime: a smaller factor of it would be a smaller factor of n. */
  lemma MinFactorPrime(n: int)
    requires n >= 2
    ensures Prime(MinFactor(n))
  {
    var f := MinFactor(n);
    forall k | 2 <= k < f
      ensures f % k != 0
    {
      if f % k == 0 {
        assert Divides(k, f) && Divides(f, n);
        DividesTrans(k, f, n);
      }
    }
  }

  /**
   * A number that is not prime has its least factor f below it and f * f <= n: the
   * cofactor n / f is itself a factor of n, hence at least f.
   */
  lemma CompositeFactor(n: int)
    requires n >= 2 && !Prime(n)
    ensures MinFactor(n) < n && MinFactor(n) * MinFactor(n) <= n
  {
    var f := MinFactor(n);
    var k :| 2 <= k < n && n % k == 0;
    assert f <= k;
    DividesQuotient(f, n);
    var q := n / f;
    assert n == q * f;
    if q < 2 {
      MulMono(q, 1, f);
      assert false;
    }
    DividesWitness(q, n, f);
    assert q >= f;
    MulMono(f, q, f);
  }

  /** Multiplication by a non-negative number is monotonic. */
  lemma MulMono(a: int, b: int, c: int)
    requires 0 <= a <= b && c >= 0
    ensures a * c <= b * c && c * a <= c * b
  {
    assert b * c - a * c == (b - a) * c;
  }

  /** Every multiple of a smaller m >= 2 is not prime. */
  lemma MultipleNotPrime(n: int, m: int)
    requires 2 <= m < n && n % m == 0
    ensures !Prime(n)
  {
  }

  /** An odd number is divisible by no even number. */
  lemma OddNoEvenFactor(n: int, k: int)
    requires n % 2 == 1 && k >= 2 && k % 2 == 0
    ensures n % k != 0
  {
    if n % k == 0 {
      assert Divides(2, k) && Divides(k, n);
      DividesTrans(2, k, n);
    }
  }

  /** If no k in [2, d) divides n and d * d > n, then n is prime. */
  lemma NoSmallFactor(n: int, d: int)
    requires n >= 2 && d >= 2 && d * d > n
    requires forall k :: 2 <= k < d ==> n % k != 0
    ensures Prime(n)
  {
    if !Prime(n) {
      CompositeFactor(n);
      var f := MinFactor(n);
      if f >= d {
        MulMono(d, f, f);
        MulMono(d, d, f);
      }
    }
  }
}
