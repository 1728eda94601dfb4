/**
 * The extended Euclid algorithm: Compute(a, b) returns (g, i, j) with g a greatest
 * common divisor of a and b and, as documented, g == a * i + b * j. The remainder is
 * C#'s `%` on long (truncated toward zero) while the coefficient update uses
 * Math.Floor of the double quotient; the two disagree when a / b is negative and
 * inexact, and the Bezout identity then fails.
 */
module Euclid {
  import opened Arithmetic

  /** Math.Floor(a / b) on the exact quotient: the greatest q with q * b on a's side of a. */
  function FloorQuot(a: int, b: int): (q: int)
    requires b != 0
    ensures b > 0 ==> q * b <= a < (q + 1) * b
    ensures b < 0 ==> (q + 1) * b < a <= q * b
  {
    if b > 0 then a / b else (-a) / (-b)
  }

  /**
   * The procedure as written: recurse on (b, a % b) with the truncated remainder, then
   * i = j', j = i' - floor(a / b) * j'. The recursion ends because the remainder is
   * smaller than b in magnitude. The first component is a common divisor of a and b.
   */
  function Compute(a: int, b: int): (r: (int, int, int))
    requires Abs(a) < DoubleExact && Abs(b) < DoubleExact
    ensures Divides(r.0, a) && Divides(r.0, b)
    decreases Abs(b)
  {
    if b == 0 then (a, 1, b)
    else
      var t := TruncRem(a, b);
      var (g, i', j') := Compute(b, t);
      DividesCombination(g, t, b, 1, TruncQuot(a, b));
      (g, j', i' - FloorQuot(a, b) * j')
  }

  /**
   * The procedure with the quotient that matches C#'s remainder (truncated toward zero):
   * the first component is a common divisor of a and b and equals a * i + b * j for all
   * integers a, b.
   */
  function ComputeCorrected(a: int, b: int): (r: (int, int, int))
    ensures Divides(r.0, a) && Divides(r.0, b)
    ensures r.0 == a * r.1 + b * r.2
    decreases Abs(b)
  {
    if b == 0 then (a, 1, b)
    else
      var t := TruncRem(a, b);
      var q := TruncQuot(a, b);
      var (g, i', j') := ComputeCorrected(b, t);
      DividesCombination(g, t, b, 1, q);
      BezoutStep(a, b, q, t, g, i', j');
      (g, j', i' - q * j')
  }

  /** One step of the coefficient update: from g = b * i' + t * j' with a = b * q + t. */
  lemma BezoutStep(a: int, b: int, q: int, t: int, g: int, i': int, j': int)
    requires a == b * q + t && g == b * i' + t * j'
    ensures g == a * j' + b * (i' - q * j')
  {
    calc {
      a * j' + b * (i' - q * j');
      (b * q + t) * j' + b * i' - b * (q * j');
      b * q * j' + t * j' + b * i' - b * q * j';
    }
  }

  /** Every common divisor of a and b divides the g both procedures return: g is a greatest common divisor. */
  lemma {:induction false} Greatest(a: int, b: int, d: int)
    requires Divides(d, a) && Divides(d, b)
    ensures Divides(d, ComputeCorrected(a, b).0)
    ensures Abs(a) < DoubleExact && Abs(b) < DoubleExact ==> Divides(d, Compute(a, b).0)
    decreases Abs(b)
  {
    if b != 0 {
      var t := TruncRem(a, b);
      DividesCombination(d, a, b, 1, -TruncQuot(a, b));
      assert t == a * 1 + b * -TruncQuot(a, b);
      Greatest(b, t, d);
    }
  }

  /** For a, b >= 0 the floored and the truncated quotients coincide, so both procedures agree. */
  lemma {:induction false} AgreeOnNonNegative(a: int, b: int)
    requires 0 <= a < DoubleExact && 0 <= b < DoubleExact
    ensures Compute(a, b) == ComputeCorrected(a, b)
    decreases b
  {
    if b != 0 {
      AgreeOnNonNegative(b, TruncRem(a, b));
    }
  }

  /**
   * On non-negative inputs the procedure as written returns the greatest common divisor:
   * g >= 0, g == a * i + b * j, and g divides both; Compute(a, 0) == (a, 1, 0).
   */
  lemma Bezout(a: int, b: int)
    requires 0 <= a < DoubleExact && 0 <= b < DoubleExact
    ensures var (g, i, j) := Compute(a, b); g == a * i + b * j && g >= 0
    ensures b == 0 ==> Compute(a, b) == (a, 1, 0)
  {
    AgreeOnNonNegative(a, b);
    NonNegativeGcd(a, b);
  }

  /** The divisor found for non-negative inputs is non-negative. */
  lemma {:induction false} NonNegativeGcd(a: int, b: int)
    requires 0 <= a < DoubleExact && 0 <= b < DoubleExact
    ensures Compute(a, b).0 >= 0
    decreases b
  {
    if b != 0 {
      NonNegativeGcd(b, TruncRem(a, b));
    }
  }

  /** The worked example: gcd(30, 18) = 6 = 30 * -1 + 18 * 2. */
  lemma Example()
    ensures Compute(30, 18) == (6, -1, 2)
  {
    assert Compute(6, 0) == (6, 1, 0);
    assert Compute(12, 6) == (6, 0, 1);
    assert Compute(18, 12) == (6, 1, -1);
  }

  /**
   * The Bezout identity fails as written for a = -3, b = 2: C# gives -3 % 2 == -1, but
   * floor(-3 / 2) == -2 is not the matching quotient -1. The result (-1, 1, 2) has
   * -3 * 1 + 2 * 2 == 1, not -1.
   */
  lemma BezoutFailsForNegative()
    ensures Compute(-3, 2) == (-1, 1, 2)
    ensures -3 * 1 + 2 * 2 != -1
    ensures ComputeCorrected(-3, 2) == (-1, 1, 1)
  {
    assert TruncRem(-3, 2) == -1;
    assert Compute(-1, 0) == (-1, 1, 0);
    assert Compute(2, -1) == (-1, 0, 1);
    assert ComputeCorrected(2, -1) == (-1, 0, 1);
  }
}
