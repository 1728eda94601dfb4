/** The naive primality test by trial division with 2, 3 and the odd numbers from 5. */
module NaivePrimalityTest {
  import opened Arithmetic
  import opened Primes

  /**
   * Trial division of a 32-bit number: false below 2, true for 2 and 3, false for other
   * multiples of 2 or 3, otherwise false exactly when an odd d >= 5 with d * d <= number
   * divides it (the source bounds d by the floored square root, which for 32-bit numbers
   * is the same test). The answer is true exactly when number is prime.
   */
  method IsPrime(number: int) returns (b: bool)
    requires 0 <= number < UintLimit
    ensures b <==> Prime(number)
  {
    if number <= 1 {
      return false;
    } else if number <= 3 {
      return true;
    } else if number % 2 == 0 || number % 3 == 0 {
      assert number % 2 == 0 ==> !Prime(number);
      return false;
    } else {
      b := TrialDivision(number);
    }
  }

  /** The loop over odd d from 5 while d * d <= number, for a number > 3 divisible by neither 2 nor 3. */
  method TrialDivision(number: int) returns (b: bool)
    requires 3 < number && number % 2 == 1 && number % 3 != 0
    ensures b <==> Prime(number)
  {
    OddNoEvenFactor(number, 4);
    var d := 5;
    while d * d <= number
      invariant d >= 5 && d % 2 == 1
      invariant forall k :: 2 <= k < d ==> number % k != 0
      decreases number - d
    {
      SquareBelow(d, number);
      if number % d == 0 {
        MultipleNotPrime(number, d);
        return false;
      }
      NextOddCandidate(number, d);
      d := d + 2;
    }
    NoSmallFactor(number, d);
    return true;
  }

  /** A candidate d >= 5 whose square is at most number lies below number. */
  lemma SquareBelow(d: int, number: int)
    requires d >= 5 && d * d <= number
    ensures d < number
  {
    MulMono(2, d, d);
  }

  /**
   * When no k in [2, d) divides the odd number and d does not either, no k in [2, d + 2)
   * does, d + 1 being even; and d + 2 is odd again.
   */
  lemma NextOddCandidate(number: int, d: int)
    requires number % 2 == 1 && d >= 5 && d % 2 == 1 && number % d != 0
    requires forall k :: 2 <= k < d ==> number % k != 0
    ensures (d + 2) % 2 == 1
    ensures forall k :: 2 <= k < d + 2 ==> number % k != 0
  {
    OddNoEvenFactor(number, d + 1);
    ModShift(d, 1, 2);
  }
}
