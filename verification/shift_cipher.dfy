/**
 * The shift cipher: a letter at alphabet position x is encrypted as the letter at
 * (x + key) mod |alphabet| and decrypted by shifting back. The source computes the
 * remainder with C#'s `%` (truncated, possibly negative) and folds a negative result
 * into the alphabet in Map.
 */
module ShiftCipher {
  import opened Arithmetic
  import opened Ciphers

  /** Alphabet.FindIndex: the position of the first occurrence of letter, or -1 if it does not occur. */
  function Convert(alphabet: seq<char>, letter: char): (r: int)
    ensures -1 <= r < |alphabet|
    ensures r == -1 <==> letter !in alphabet
    ensures r >= 0 ==> alphabet[r] == letter && letter !in alphabet[..r]
  {
    IndexFrom(alphabet, letter, 0)
  }

  /** The first position at or after k that holds letter, or -1. */
  function IndexFrom(alphabet: seq<char>, letter: char, k: int): (r: int)
    requires 0 <= k <= |alphabet|
    ensures r == -1 ==> forall i :: k <= i < |alphabet| ==> alphabet[i] != letter
    ensures r >= 0 ==> k <= r < |alphabet| && alphabet[r] == letter
    ensures r >= 0 ==> forall i :: k <= i < r ==> alphabet[i] != letter
    ensures r >= -1
    decreases |alphabet| - k
  {
    if k == |alphabet| then -1
    else if alphabet[k] == letter then k
    else IndexFrom(alphabet, letter, k + 1)
  }

  /**
   * Map: a position in (-|alphabet|, 0) is first folded to |alphabet| + position; the
   * letter returned is the one at position mod |alphabet|.
   */
  function Map(alphabet: seq<char>, position: int): (r: char)
    requires |alphabet| > 0 && Abs(position) < |alphabet|
    ensures r == alphabet[position % |alphabet|]
  {
    var p := if position < 0 then |alphabet| - Abs(position) else position;
    assert position % |alphabet| == p by {
      if position < 0 {
        ModUnique(position, -1, p, |alphabet|);
      } else {
        ModUnique(position, 0, p, |alphabet|);
      }
    }
    alphabet[p]
  }

  /**
   * Every character of s replaced by the alphabet letter key places after it, modulo the
   * alphabet's length; a character outside the alphabet counts as position -1.
   */
  function Shifted(alphabet: seq<char>, key: int, s: string): (r: string)
    requires |alphabet| > 0
    ensures |r| == |s| && forall k :: 0 <= k < |r| ==> r[k] in alphabet
  {
    seq(|s|, k requires 0 <= k < |s| => alphabet[(Convert(alphabet, s[k]) + key) % |alphabet|])
  }

  /** One character through Convert, the truncated remainder and Map. */
  function ShiftOne(alphabet: seq<char>, key: int, letter: char): (r: char)
    requires |alphabet| > 0
    ensures r == alphabet[(Convert(alphabet, letter) + key) % |alphabet|]
  {
    var x := Convert(alphabet, letter);
    TruncRemMod(x + key, |alphabet|);
    Map(alphabet, TruncRem(x + key, |alphabet|))
  }

  /** Encrypt: the upper-cased text shifted forward by key, one letter per character. */
  method Encrypt(alphabet: seq<char>, key: int, plainText: string) returns (cipher: string)
    requires |alphabet| > 0
    ensures cipher == Shifted(alphabet, key, UpperText(plainText))
  {
    var upper := UpperText(plainText);
    cipher := [];
    for i := 0 to |upper|
      invariant |cipher| == i
      invariant forall k :: 0 <= k < i ==> cipher[k] == alphabet[(Convert(alphabet, upper[k]) + key) % |alphabet|]
    {
      cipher := cipher + [ShiftOne(alphabet, key, upper[i])];
    }
  }

  /** Decrypt: the text shifted back by key, then lower-cased. */
  method Decrypt(alphabet: seq<char>, key: int, cipherText: string) returns (message: string)
    requires |alphabet| > 0
    ensures message == LowerText(Shifted(alphabet, -key, cipherText))
  {
    message := [];
    for i := 0 to |cipherText|
      invariant |message| == i
      invariant forall k :: 0 <= k < i ==> message[k] == alphabet[(Convert(alphabet, cipherText[k]) + -key) % |alphabet|]
    {
      message := message + [ShiftOne(alphabet, -key, cipherText[i])];
    }
    message := LowerText(message);
  }

  /** In an alphabet without repeats the first occurrence of the letter at i is i. */
  lemma ConvertDistinct(alphabet: seq<char>, i: int)
    requires Distinct(alphabet) && 0 <= i < |alphabet|
    ensures Convert(alphabet, alphabet[i]) == i
  {
  }

  /** Shifting a position forward and back by the same key returns it. */
  lemma ShiftBack(x: int, key: int, n: int)
    requires 0 <= x < n
    ensures ((x + key) % n + -key) % n == x
  {
    var q := (x + key) / n;
    assert (x + key) % n + -key == x + (-q) * n;
    ModShift(x, -q, n);
  }

  /**
   * Decrypting an encryption with the same key gives the plain text lower-cased, when the
   * alphabet has no repeats and every upper-cased character is in it.
   */
  lemma RoundTrip(alphabet: seq<char>, key: int, plainText: string)
    requires |alphabet| > 0 && Distinct(alphabet)
    requires forall k :: 0 <= k < |plainText| ==> Upper(plainText[k]) in alphabet
    ensures LowerText(Shifted(alphabet, -key, Shifted(alphabet, key, UpperText(plainText)))) == LowerText(plainText)
  {
    var n := |alphabet|;
    var upper := UpperText(plainText);
    var cipher := Shifted(alphabet, key, upper);
    var back := Shifted(alphabet, -key, cipher);
    forall k | 0 <= k < |plainText|
      ensures back[k] == upper[k]
    {
      var x := Convert(alphabet, upper[k]);
      var y := (x + key) % n;
      assert cipher[k] == alphabet[y];
      ConvertDistinct(alphabet, y);
      ShiftBack(x, key, n);
    }
    forall k | 0 <= k < |plainText|
      ensures LowerText(back)[k] == LowerText(plainText)[k]
    {
      LowerUpper(plainText[k]);
    }
  }

  /**
   * A character outside the alphabet does not survive: with the 26 letters and key 3,
   * "1" is at position -1, encrypts to "C" and decrypts to "z".
   */
  lemma OutsideAlphabet()
    ensures Convert(StandardAlphabet(false), '1') == -1
    ensures Shifted(StandardAlphabet(false), 3, UpperText("1")) == "C"
    ensures LowerText(Shifted(StandardAlphabet(false), -3, "C")) == "z"
  {
    var a := StandardAlphabet(false);
    AlphabetShape(false);
    assert a[2] == 'C' && a[25] == 'Z';
    ConvertDistinct(a, 2);
  }
}
