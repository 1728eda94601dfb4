/**
 * The textbook RSA scheme over 32-bit numbers: from primes p and q, n = p * q and
 * r = (p - 1) * (q - 1); e is the smallest odd number from 5 coprime to r and d its
 * inverse modulo r; FS(x) = x^e mod n and FP(x) = x^d mod n.
 */
module Rsa {
  import opened Wrappers
  import opened Arithmetic
  import opened Primes
  import Euclid
  import ModularExponentiation
  import NaivePrimalityTest
  import Fermat

  /**
   * The ArgumentException of the (p, q) constructor: which of the two failed the
   * primality test; SamePrimes is only raised by CreateCorrected.
   */
  datatype Error = PNotPrime | QNotPrime | SamePrimes

  /** a and b have no common divisor above 1. */
  ghost predicate Coprime(a: int, b: int) {
    forall k :: k >= 2 ==> !(Divides(k, a) && Divides(k, b))
  }

  /** A candidate public exponent for r: odd, in [5, r), and coprime to r. */
  ghost predicate Candidate(r: int, i: int) {
    5 <= i < r && i % 2 == 1 && Coprime(r, i)
  }

  /** Euclid's procedure detects coprimality: its divisor is 1 exactly when a and b > 0 are coprime. */
  lemma CoprimeIff(a: int, b: int)
    requires 0 <= a < DoubleExact && 0 < b < DoubleExact
    ensures Euclid.Compute(a, b).0 == 1 <==> Coprime(a, b)
  {
    var g := Euclid.Compute(a, b).0;
    Euclid.NonNegativeGcd(a, b);
    if g == 1 {
      forall k | k >= 2
        ensures !(Divides(k, a) && Divides(k, b))
      {
        if Divides(k, a) && Divides(k, b) {
          Euclid.Greatest(a, b, k);
          ModUnique(1, 0, 1, k);
        }
      }
    } else {
      assert g >= 2;
    }
  }

  class RSA {
    var p: int
    var q: int
    var n: int
    var r: int
    var e: int
    var d: int

    /** The fields after the (p, q) constructor: the two primes, everything else still 0. */
    constructor(p: int, q: int)
      requires Prime(p) && Prime(q)
      ensures this.p == p && this.q == q && n == 0 && r == 0 && e == 0 && d == 0
    {
      this.p := p;
      this.q := q;
      n := 0;
      r := 0;
      e := 0;
      d := 0;
    }

    /** The public key (e, n). */
    function PublicKey(): (int, int)
      reads this
    {
      (e, n)
    }

    /** The private key (d, n). */
    function PrivateKey(): (int, int)
      reads this
    {
      (d, n)
    }

    /**
     * Compute with p and q already set (so no primes are generated): n and r from p and
     * q, then e and d. When r admits a candidate, e is the least one and d in [0, r) is
     * its inverse modulo r; otherwise e and d keep their values.
     */
    method Compute()
      requires Prime(p) && Prime(q) && p * q < UintLimit
      modifies this
      ensures p == old(p) && q == old(q)
      ensures n == p * q && r == (p - 1) * (q - 1)
      ensures (exists i :: Candidate(r, i)) ==> KeysChosen()
      ensures (forall i :: !Candidate(r, i)) ==> e == old(e) && d == old(d)
    {
      n := p * q;
      r := (p - 1) * (q - 1);
      MulMono(p - 1, p, q - 1);
      MulMono(q - 1, q, p);
      ComputeEAndD();
    }

    /** e is the least candidate for r and d in [0, r) is its inverse modulo r. */
    ghost predicate KeysChosen()
      reads this
    {
      && Candidate(r, e)
      && (forall i :: Candidate(r, i) ==> e <= i)
      && 0 <= d < r && (e * d) % r == 1
    }

    /**
     * The search over odd i from 5 below r: the first i that Euclid finds coprime to r
     * becomes e, and d is the Bezout coefficient of i reduced into [0, r).
     */
    method ComputeEAndD()
      requires 0 <= r < UintLimit
      modifies this
      ensures p == old(p) && q == old(q) && n == old(n) && r == old(r)
      ensures (exists i :: Candidate(r, i)) ==> KeysChosen()
      ensures (forall i :: !Candidate(r, i)) ==> e == old(e) && d == old(d)
    {
      var i := 5;
      while i < r
        invariant 5 <= i && i % 2 == 1
        invariant forall k :: k < i ==> !Candidate(r, k)
        invariant p == old(p) && q == old(q) && n == old(n) && r == old(r)
        invariant e == old(e) && d == old(d)
        decreases r - i
      {
        var found := TryCandidate(i);
        if found {
          return;
        }
        ModShift(i, 1, 2);
        i := i + 2;
      }
    }

    /**
     * One iteration for the odd i: when Euclid finds i coprime to r, e becomes i and d the
     * Bezout coefficient of i reduced into [0, r); otherwise nothing changes.
     */
    method TryCandidate(i: int) returns (found: bool)
      requires 0 <= r < UintLimit && 5 <= i < r && i % 2 == 1
      requires forall k :: k < i ==> !Candidate(r, k)
      modifies this
      ensures p == old(p) && q == old(q) && n == old(n) && r == old(r)
      ensures found ==> KeysChosen()
      ensures !found ==> !Candidate(r, i) && e == old(e) && d == old(d)
    {
      var candidate := Euclid.Compute(r, i);
      CoprimeIff(r, i);
      found := candidate.0 == 1;
      if found {
        e := i;
        d := Normalize(candidate.2, r);
        InverseFound(r, i, candidate.1, candidate.2, d);
      }
    }

    /** FS(x) = x^e mod n, the function the source documents as the private one. */
    function FS(x: nat): (r: nat)
      reads this
      requires n > 0 && e >= 0 && ModularExponentiation.ExactRange(x, n)
      ensures e > 0 ==> r == Pow(x, e) % n && r < n
    {
      ModularExponentiation.Compute(x, e, n)
    }

    /** FP(x) = x^d mod n, documented as the public function although it uses the private exponent. */
    function FP(x: nat): (r: nat)
      reads this
      requires n > 0 && d >= 0 && ModularExponentiation.ExactRange(x, n)
      ensures d > 0 ==> r == Pow(x, d) % n && r < n
    {
      ModularExponentiation.Compute(x, d, n)
    }
  }

  /**
   * The (p, q) constructor with its primality checks by trial division: a failure names
   * the first of p and q that is not prime; otherwise a fresh object holding p and q.
   */
  method Create(p: int, q: int) returns (res: Result<RSA, Error>)
    requires 0 <= p < UintLimit && 0 <= q < UintLimit
    ensures res.Failure? <==> !Prime(p) || !Prime(q)
    ensures res.Failure? ==> res.error == (if !Prime(p) then PNotPrime else QNotPrime)
    ensures res.Success? ==> fresh(res.value)
    ensures res.Success? ==> res.value.p == p && res.value.q == q
    ensures res.Success? ==> res.value.n == 0 && res.value.r == 0 && res.value.e == 0 && res.value.d == 0
  {
    var pPrime := NaivePrimalityTest.IsPrime(p);
    if !pPrime {
      return Failure(PNotPrime);
    }
    var qPrime := NaivePrimalityTest.IsPrime(q);
    if !qPrime {
      return Failure(QNotPrime);
    }
    var rsa := new RSA(p, q);
    return Success(rsa);
  }

  /** d = j % r with C#'s remainder, then d = (d + r) % r while d is negative: the value of j modulo r. */
  method Normalize(j: int, r: int) returns (d: int)
    requires r > 0
    ensures 0 <= d < r && d % r == j % r
  {
    d := TruncRem(j, r);
    TruncRemMod(j, r);
    while d < 0
      invariant Abs(d) < r && d % r == j % r
      decreases if d < 0 then 1 else 0
    {
      ModShift(d, 1, r);
      TruncRemMod(d + r, r);
      d := TruncRem(d + r, r);
    }
  }

  /** From Bezout's 1 == r * i' + e * j, every d congruent to j modulo r is an inverse of e modulo r. */
  lemma InverseFound(r: int, e: int, i': int, j: int, d: int)
    requires 0 <= r < DoubleExact && 5 <= e < r && Euclid.Compute(r, e) == (1, i', j)
    requires 0 <= d < r && d % r == j % r
    ensures (e * d) % r == 1
  {
    Euclid.Bezout(r, e);
    assert 1 == r * i' + e * j;
    ProductMod(e, d, r);
    ProductMod(e, j, r);
    assert e * j == 1 + (-i') * r;
    ModShift(1, -i', r);
    ModUnique(1, 0, 1, r);
  }

  /**
   * The (p, q) constructor with the condition the automatic prime generation enforces
   * (q differs from p): equal primes are refused with SamePrimes, after the two
   * primality checks.
   */
  method CreateCorrected(p: int, q: int) returns (res: Result<RSA, Error>)
    requires 0 <= p < UintLimit && 0 <= q < UintLimit
    ensures res.Failure? <==> !Prime(p) || !Prime(q) || p == q
    ensures res.Failure? ==> res.error == (if !Prime(p) then PNotPrime else if !Prime(q) then QNotPrime else SamePrimes)
    ensures res.Success? ==> fresh(res.value)
    ensures res.Success? ==> res.value.p == p && res.value.q == q
    ensures res.Success? ==> res.value.n == 0 && res.value.r == 0 && res.value.e == 0 && res.value.d == 0
  {
    res := Create(p, q);
    if res.Success? && p == q {
      res := Failure(SamePrimes);
    }
  }

  /** Below an exact bound, every smaller base is exact too. */
  lemma ExactBelow(y: nat, x: nat, n: nat)
    requires y <= x && ModularExponentiation.ExactRange(x, n)
    ensures ModularExponentiation.ExactRange(y, n)
  {
    MulMono(y, x, (n - 1) * (n - 1));
  }

  /**
   * The arithmetic of the round trip: with e * d congruent to 1 modulo (p - 1) * (q - 1),
   * raising x^e mod p * q to the power d gives x back.
   */
  lemma PowRoundTrip(p: nat, q: nat, e: nat, d: nat, x: nat)
    requires Prime(p) && Prime(q) && p != q
    requires (e * d) % ((p - 1) * (q - 1)) == 1 && x < p * q
    ensures Pow(Pow(x, e) % (p * q), d) % (p * q) == x
  {
    MulMono(2, p, q);
    Fermat.PowMod(Pow(x, e), d, p * q);
    Fermat.PowMul(x, e, d);
    Fermat.RsaIdentity(p, q, e, d, x);
  }

  /**
   * The RSA round trip: once Compute has run on two distinct primes and found keys,
   * FP undoes FS and FS undoes FP on every x below n (while n * (n - 1)^2 stays below
   * 2^53, so the squaring in double is exact).
   */
  lemma RoundTrip(rsa: RSA, x: nat)
    requires Prime(rsa.p) && Prime(rsa.q) && rsa.p != rsa.q
    requires rsa.n == rsa.p * rsa.q && rsa.r == (rsa.p - 1) * (rsa.q - 1) && rsa.KeysChosen()
    requires ModularExponentiation.ExactRange(rsa.n, rsa.n) && x < rsa.n
    ensures ModularExponentiation.ExactRange(x, rsa.n)
    ensures rsa.FS(x) < rsa.n && ModularExponentiation.ExactRange(rsa.FS(x), rsa.n)
    ensures rsa.FP(x) < rsa.n && ModularExponentiation.ExactRange(rsa.FP(x), rsa.n)
    ensures rsa.FP(rsa.FS(x)) == x
    ensures rsa.FS(rsa.FP(x)) == x
  {
    assert rsa.d * rsa.e == rsa.e * rsa.d;
    ComputeRoundTrip(rsa.p, rsa.q, rsa.e, rsa.d, x);
    ComputeRoundTrip(rsa.p, rsa.q, rsa.d, rsa.e, x);
  }

  /** One direction of the round trip, on ModularExponentiation.Compute itself. */
  lemma ComputeRoundTrip(p: nat, q: nat, e: nat, d: nat, x: nat)
    requires Prime(p) && Prime(q) && p != q
    requires (e * d) % ((p - 1) * (q - 1)) == 1
    requires ModularExponentiation.ExactRange(p * q, p * q) && x < p * q
    ensures ModularExponentiation.ExactRange(x, p * q)
    ensures ModularExponentiation.Compute(x, e, p * q) < p * q
    ensures ModularExponentiation.ExactRange(ModularExponentiation.Compute(x, e, p * q), p * q)
    ensures ModularExponentiation.Compute(ModularExponentiation.Compute(x, e, p * q), d, p * q) == x
  {
    var n := p * q;
    MulMono(2, p, q);
    PositiveFactors(e, d, (p - 1) * (q - 1));
    ExactBelow(x, n, n);
    var y := ModularExponentiation.Compute(x, e, n);
    ExactBelow(y, n, n);
    PowRoundTrip(p, q, e, d, x);
  }

  /** An inverse pair modulo r has no zero factor. */
  lemma PositiveFactors(e: nat, d: nat, r: int)
    requires r != 0 && (e * d) % r == 1
    ensures e > 0 && d > 0
  {
  }

  /**
   * The worked example's keys: p = 17 and q = 29 give r = 448; the first candidate 5 is
   * coprime to 448, Euclid gives (1, 2, -179), so d = -179 + 448 = 269.
   */
  lemma BookKeys()
    ensures Candidate(448, 5) && Euclid.Compute(448, 5) == (1, 2, -179)
    ensures -179 % 448 == 269 && (5 * 269) % 448 == 1
  {
    assert Euclid.Compute(1, 0) == (1, 1, 0);
    assert Euclid.Compute(2, 1) == (1, 0, 1);
    assert Euclid.Compute(3, 2) == (1, 1, -1);
    assert Euclid.Compute(5, 3) == (1, -1, 2);
    CoprimeIff(448, 5);
  }

  /** The worked example's encryption: 327^5 mod 493 == 259. */
  lemma BookEncrypt()
    ensures ModularExponentiation.Compute(327, 5, 493) == 259
  {
    assert ModularExponentiation.Compute(327, 1, 493) == 327;
    assert ModularExponentiation.Compute(327, 2, 493) == 441;
  }

  /**
   * Create accepts p == q. With p = q = 5 Compute sets n = 25 and r = 16, finds keys
   * (5 is a candidate), and then whatever keys it chose FS(5) = 5^e mod 25 == 0, which
   * FP maps to 0 rather than back to 5.
   */
  lemma SamePrimesBreakRoundTrip(rsa: RSA)
    requires rsa.p == 5 && rsa.q == 5 && rsa.n == 25 && rsa.r == 16 && rsa.KeysChosen()
    ensures Prime(5) && Candidate(16, 5)
    ensures ModularExponentiation.ExactRange(5, 25) && ModularExponentiation.ExactRange(0, 25)
    ensures rsa.FS(5) == 0 && rsa.FP(rsa.FS(5)) == 0
  {
    SamePrimesKeys();
    assert rsa.e == 5;
    assert ModularExponentiation.Compute(5, 1, 25) == 5;
    assert ModularExponentiation.Compute(5, 2, 25) == 0;
    ZeroBase(rsa.d, 25);
  }

  /** For r = 16 the first candidate is 5. */
  lemma SamePrimesKeys()
    ensures Candidate(16, 5)
  {
    assert Euclid.Compute(1, 0) == (1, 1, 0);
    assert Euclid.Compute(5, 1) == (1, 0, 1);
    assert Euclid.Compute(16, 5) == (1, 1, -3);
    CoprimeIff(16, 5);
  }

  /** 0 raised to any positive power is 0, modulo any n. */
  lemma ZeroBase(d: nat, n: nat)
    requires d > 0 && n > 0
    ensures ModularExponentiation.Compute(0, d, n) == 0
  {
    assert Pow(0, d) == 0 * Pow(0, d - 1);
  }
}
