/**
 * The sieve of Eratosthenes: mark the multiples i*i, i*i + i, ... of every unmarked i
 * with i*i <= limit as composite, then list the unmarked numbers from 2 to limit.
 */
module SieveOfEratosthenes {
  import opened Arithmetic
  import opened Primes

  /** Every marked number in [0, limit] is at least 2 and not prime. */
  ghost predicate Sound(c: seq<bool>)
  {
    forall k :: 0 <= k < |c| && c[k] ==> k >= 2 && !Prime(k)
  }

  /** Every number in [2, limit] that is not prime and whose least factor is below i is marked. */
  ghost predicate MarkedBelow(c: seq<bool>, i: int)
  {
    forall k :: 2 <= k < |c| && !Prime(k) && MinFactor(k) < i ==> c[k]
  }

  /**
   * The primes in [2, limit], in ascending order. limit must leave room for the array
   * of limit + 1 flags and for k += i to stay within 32 bits.
   */
  method ComputePrimes(limit: int) returns (primes: seq<int>)
    requires 0 <= limit && limit + 0x1_0000 < UintLimit
    ensures forall p :: p in primes <==> 2 <= p <= limit && Prime(p)
    ensures forall a, b :: 0 <= a < b < |primes| ==> primes[a] < primes[b]
  {
    var isComposite := new bool[limit + 1](_ => false);
    MarkComposites(isComposite);
    primes := Unmarked(isComposite);
  }

  /** The outer loop over i with i*i <= limit: afterwards exactly the non-primes in [2, limit] are marked. */
  method MarkComposites(isComposite: array<bool>)
    requires forall k :: 0 <= k < isComposite.Length ==> !isComposite[k]
    modifies isComposite
    ensures forall k :: 2 <= k < isComposite.Length ==> (isComposite[k] <==> !Prime(k))
  {
    var i := 2;
    while i * i < isComposite.Length
      invariant 2 <= i
      invariant Sound(isComposite[..]) && MarkedBelow(isComposite[..], i)
      decreases isComposite.Length - i
    {
      if !isComposite[i] {
        MarkMultiples(isComposite, i);
      }
      MarkedStep(isComposite[..], i);
      i := i + 1;
    }
    forall k | 2 <= k < isComposite.Length
      ensures isComposite[k] <==> !Prime(k)
    {
      if !isComposite[k] {
        AllMarked(isComposite[..], i, k);
      } else {
        assert isComposite[..][k];
      }
    }
  }

  /** The final loop: the unmarked numbers from 2 to limit, in ascending order. */
  method Unmarked(isComposite: array<bool>) returns (primes: seq<int>)
    requires forall k :: 2 <= k < isComposite.Length ==> (isComposite[k] <==> !Prime(k))
    ensures forall p :: p in primes <==> 2 <= p < isComposite.Length && Prime(p)
    ensures forall a, b :: 0 <= a < b < |primes| ==> primes[a] < primes[b]
  {
    primes := [];
    var j := 2;
    while j < isComposite.Length
      invariant 2 <= j && (j <= isComposite.Length || j == 2)
      invariant forall p :: p in primes <==> 2 <= p < j && Prime(p)
      invariant forall a, b :: 0 <= a < b < |primes| ==> primes[a] < primes[b]
      invariant forall a :: 0 <= a < |primes| ==> primes[a] < j
    {
      if !isComposite[j] {
        primes := primes + [j];
      }
      j := j + 1;
    }
  }

  /**
   * The inner loop for an unmarked i: every k = i*i + t*i <= limit becomes marked and no
   * other flag changes.
   */
  method MarkMultiples(c: array<bool>, i: int)
    requires 2 <= i && i * i < c.Length
    requires Sound(c[..])
    modifies c
    ensures Sound(c[..])
    ensures forall k :: 0 <= k < c.Length ==> c[k] == (old(c[k]) || (k >= i * i && k % i == 0))
  {
    var s := i * i;
    MulMono(2, i, i);
    ModShift(0, i, i);
    var k := s;
    while k < c.Length
      invariant s <= k && k % i == 0
      invariant Sound(c[..])
      invariant forall m :: 0 <= m < c.Length ==> c[m] == (old(c[m]) || (s <= m < k && m % i == 0))
      decreases c.Length - k
    {
      MultipleNotPrime(k, i);
      c[k] := true;
      NextMultiple(i, k);
      k := k + i;
    }
  }

  /** The next multiple of i after the multiple k is k + i. */
  lemma NextMultiple(i: int, k: int)
    requires i >= 2 && k >= 0 && k % i == 0
    ensures (k + i) % i == 0
    ensures forall m :: k < m < k + i ==> m % i != 0
  {
    ModShift(k, 1, i);
    forall m | k < m < k + i
      ensures m % i != 0
    {
      ModUnique(m, k / i, m - k, i);
    }
  }

  /**
   * After the step for i the numbers whose least factor is i are marked too: an unmarked
   * i is prime, and a non-prime k with least factor i is a multiple of i with k >= i*i.
   */
  lemma MarkedStep(c: seq<bool>, i: int)
    requires 2 <= i < |c| && Sound(c) && MarkedBelow(c, i)
    requires !c[i] ==> forall k :: 0 <= k < |c| && k >= i * i && k % i == 0 ==> c[k]
    ensures MarkedBelow(c, i + 1)
  {
    forall k | 2 <= k < |c| && !Prime(k) && MinFactor(k) == i
      ensures c[k]
    {
      CompositeFactor(k);
      if c[i] {
        MinFactorPrime(k);
        assert false;
      }
    }
  }

  /** Once i * i > limit, an unmarked number in [2, limit] is prime. */
  lemma AllMarked(c: seq<bool>, i: int, k: int)
    requires 2 <= i && i * i >= |c| && MarkedBelow(c, i)
    requires 2 <= k < |c| && !c[k]
    ensures Prime(k)
  {
    if !Prime(k) {
      CompositeFactor(k);
      var f := MinFactor(k);
      if f >= i {
        MulMono(i, f, f);
        MulMono(i, i, f);
      }
    }
  }
}
