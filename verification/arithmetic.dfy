/**
 * Facts about integer division, remainders, divisibility and powers shared by the
 * number-theoretic parts of the model. Dafny's `/` and `%` are Euclidean: for m > 0,
 * x % m lies in [0, m).
 */
module Arithmetic {

  /**
   * 2^53: integers below this magnitude convert to double exactly, and a double
   * product or floored quotient of such integers that stays below it is exact.
   */
  const DoubleExact: int := 0x20_0000_0000_0000

  /** x % m is the only remainder in [0, m) of a decomposition x = q * m + r. */
  lemma ModUnique(x: int, q: int, r: int, m: int)
    requires m > 0 && 0 <= r < m && x == q * m + r
    ensures x % m == r && x / m == q
  {
    var d := q - x / m;
    assert d * m == x % m - r;
  }

  /** Reducing a factor modulo m before the multiplication does not change the product modulo m. */
  lemma ProductMod(a: int, b: int, m: int)
    requires m > 0
    ensures (a * (b % m)) % m == (a * b) % m
  {
    var qb, rb := b / m, b % m;
    var q2, r2 := (a * rb) / m, (a * rb) % m;
    assert a * b == a * (qb * m + rb);
    assert a * b == (a * qb + q2) * m + r2;
    ModUnique(a * b, a * qb + q2, r2, m);
  }

  /** Adding a multiple of m does not change the remainder modulo m. */
  lemma ModShift(x: int, q: int, m: int)
    requires m > 0
    ensures (x + q * m) % m == x % m
  {
    assert x + q * m == (x / m + q) * m + x % m;
    ModUnique(x + q * m, x / m + q, x % m, m);
  }

  function Abs(x: int): nat {
    if x < 0 then -x else x
  }

  /** C#'s `/` on integers: the quotient truncated toward zero. */
  function TruncQuot(a: int, b: int): int
    requires b != 0
  {
    if (a >= 0) == (b > 0) then Abs(a) / Abs(b) else -(Abs(a) / Abs(b))
  }

  /** C#'s `%` on integers, x - (x / y) * y: smaller than the divisor in magnitude, with the dividend's sign. */
  function TruncRem(a: int, b: int): (r: int)
    requires b != 0
    ensures Abs(r) < Abs(b)
    ensures a >= 0 ==> r >= 0
    ensures a <= 0 ==> r <= 0
    ensures a == b * TruncQuot(a, b) + r
  {
    var q, m := Abs(a) / Abs(b), Abs(a) % Abs(b);
    assert Abs(a) == q * Abs(b) + m;
    a - b * TruncQuot(a, b)
  }

  /** For a positive divisor the truncated remainder is congruent to the dividend. */
  lemma TruncRemMod(a: int, b: int)
    requires b > 0
    ensures TruncRem(a, b) % b == a % b
  {
    ModShift(TruncRem(a, b), TruncQuot(a, b), b);
  }

  /** d divides a: a is an integer multiple of d (only 0 is a multiple of 0). */
  predicate Divides(d: int, a: int) {
    if d == 0 then a == 0 else a % d == 0
  }

  /** Divisibility by a multiple witness. */
  lemma DividesWitness(d: int, a: int, k: int)
    requires a == k * d
    ensures Divides(d, a)
  {
    if d > 0 {
      ModUnique(a, k, 0, d);
    } else if d < 0 {
      ModUnique(a, -k, 0, -d);
      assert a % d == a % -d;
    }
  }

  /** A divisor of a has a multiple witness. */
  lemma DividesQuotient(d: int, a: int)
    requires d != 0 && Divides(d, a)
    ensures a == (a / d) * d
  {
  }

  /** A common divisor of a and b divides every combination a * i + b * j. */
  lemma DividesCombination(d: int, a: int, b: int, i: int, j: int)
    requires Divides(d, a) && Divides(d, b)
    ensures Divides(d, a * i + b * j)
  {
    if d != 0 {
      var ka, kb := a / d, b / d;
      DividesQuotient(d, a);
      DividesQuotient(d, b);
      assert a * i + b * j == (ka * i + kb * j) * d;
      DividesWitness(d, a * i + b * j, ka * i + kb * j);
    }
  }

  /** Divisibility is transitive. */
  lemma DividesTrans(a: int, b: int, c: int)
    requires Divides(a, b) && Divides(b, c)
    ensures Divides(a, c)
  {
    if a != 0 && b != 0 {
      DividesQuotient(a, b);
      DividesQuotient(b, c);
      assert c == (c / b) * ((b / a) * a);
      assert c == ((c / b) * (b / a)) * a;
      DividesWitness(a, c, (c / b) * (b / a));
    }
  }

  /** x raised to the natural power d. */
  function Pow(x: int, d: nat): int {
    if d == 0 then 1 else x * Pow(x, d - 1)
  }

  /** Powers add in the exponent. */
  lemma {:induction false} PowAdd(x: int, d: nat, e: nat)
    ensures Pow(x, d + e) == Pow(x, d) * Pow(x, e)
    decreases d
  {
    if d > 0 {
      PowAdd(x, d - 1, e);
      assert Pow(x, d + e) == x * Pow(x, d - 1 + e);
    }
  }

  /** Squaring commutes with reduction modulo m. */
  lemma SquareMod(a: int, m: int)
    requires m > 0
    ensures ((a % m) * (a % m)) % m == (a * a) % m
  {
    ProductMod(a % m, a, m);
    ProductMod(a, a, m);
  }
}
