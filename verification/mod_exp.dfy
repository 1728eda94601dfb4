/**
 * Modular exponentiation by repeated squaring: x^d mod n in O(log d) multiplications.
 * The source squares in double (Math.Pow) and truncates back to ulong; that agrees with
 * exact arithmetic while every z * z * x stays below 2^53, which the precondition states
 * for every z < n.
 */
module ModularExponentiation {
  import opened Arithmetic

  /** Every intermediate z * z * x of Compute(x, _, n) is below 2^53, so the doubles are exact. */
  predicate ExactRange(x: nat, n: nat) {
    x < DoubleExact && x * ((n - 1) * (n - 1)) < DoubleExact
  }

  /**
   * The recursive procedure: 1 for d == 0 (also when n == 1), otherwise x^d mod n, which
   * is below n. Each call halves the exponent, so the recursion ends.
   */
  function Compute(x: nat, d: nat, n: nat): (r: nat)
    requires n > 0 && ExactRange(x, n)
    ensures d == 0 ==> r == 1
    ensures d > 0 ==> r == Pow(x, d) % n && r < n
    decreases d
  {
    if d == 0 then 1
    else if d % 2 == 0 then
      var z := Compute(x, d / 2, n);
      EvenStep(x, d, n);
      (z * z) % n
    else
      var z := Compute(x, (d - 1) / 2, n);
      OddStep(x, d, n, z);
      (z * z * x) % n
  }

  /** Squaring x^(d/2) mod n gives x^d mod n for even d. */
  lemma EvenStep(x: nat, d: nat, n: nat)
    requires n > 0 && d > 0 && d % 2 == 0
    ensures var a := Pow(x, d / 2); ((a % n) * (a % n)) % n == Pow(x, d) % n
  {
    var a := Pow(x, d / 2);
    PowAdd(x, d / 2, d / 2);
    SquareMod(a, n);
  }

  /** Squaring z, the result for (d - 1) / 2, and multiplying by x gives x^d mod n for odd d. */
  lemma OddStep(x: nat, d: nat, n: nat, z: nat)
    requires n > 0 && d % 2 == 1
    requires (d - 1) / 2 == 0 ==> z == 1
    requires (d - 1) / 2 > 0 ==> z == Pow(x, (d - 1) / 2) % n
    ensures (z * z * x) % n == Pow(x, d) % n
  {
    var k := (d - 1) / 2;
    var a := Pow(x, k);
    PowAdd(x, k, k);
    assert Pow(x, d) == x * Pow(x, k + k);
    if k > 0 {
      SquareMod(a, n);
      ProductMod(x, z * z, n);
      ProductMod(x, a * a, n);
      assert z * z * x == x * (z * z);
    }
  }
}
