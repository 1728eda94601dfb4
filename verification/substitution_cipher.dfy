/**
 * The substitution cipher: the key is a substitution book, a Dictionary<char, char>.
 * Encryption replaces each upper-cased character by its entry in the book; decryption
 * replaces each character by the first key (in the dictionary's enumeration order) whose
 * value it is, then lower-cases the text. Characters the book does not cover stay as they are.
 */
module SubstitutionCipher {
  import opened Wrappers
  import opened Ciphers

  /** A dictionary as its entries in enumeration order. */
  type Book = seq<(char, char)>

  /** A dictionary holds each key once. */
  predicate UniqueKeys(book: Book) {
    forall i, j :: 0 <= i < j < |book| ==> book[i].0 != book[j].0
  }

  /** No two keys share a value. */
  predicate UniqueValues(book: Book) {
    forall i, j :: 0 <= i < j < |book| ==> book[i].1 != book[j].1
  }

  function Keys(book: Book): set<char> {
    set k | 0 <= k < |book| :: book[k].0
  }

  function Values(book: Book): set<char> {
    set k | 0 <= k < |book| :: book[k].1
  }

  /** The book as the finite map it stands for. */
  function AsMap(book: Book): (m: map<char, char>)
    requires UniqueKeys(book)
    ensures m.Keys == Keys(book)
    ensures forall k :: 0 <= k < |book| ==> m[book[k].0] == book[k].1
  {
    map k | 0 <= k < |book| :: book[k].0 := book[k].1
  }

  /** ContainsKey and the indexer: the value the book holds for key, if any. */
  function Lookup(book: Book, key: char): (r: Option<char>)
    ensures r.None? <==> key !in Keys(book)
    ensures r.Some? ==> exists k :: 0 <= k < |book| && book[k] == (key, r.value)
  {
    if book == [] then None
    else if book[0].0 == key then Some(book[0].1)
    else
      var r := Lookup(book[1..], key);
      assert r.Some? ==> exists k :: 1 <= k < |book| && book[k] == (key, r.value) by {
        if r.Some? {
          var k :| 0 <= k < |book[1..]| && book[1..][k] == (key, r.value);
          assert book[k + 1] == (key, r.value);
        }
      }
      assert Keys(book) == {book[0].0} + Keys(book[1..]) by {
        forall c | c in Keys(book) ensures c in {book[0].0} + Keys(book[1..]) {
          var k :| 0 <= k < |book| && book[k].0 == c;
          if k > 0 {
            assert book[1..][k - 1].0 == c;
          }
        }
      }
      r
  }

  /**
   * Values.Where(v == letter) and First(x.Value == letter).Key: the key of the first
   * entry whose value is letter, if any.
   */
  function FirstKeyOf(book: Book, letter: char): (r: Option<char>)
    ensures r.None? <==> letter !in Values(book)
    ensures r.Some? ==> exists k :: FirstWithValue(book, k, r.value, letter)
  {
    if book == [] then None
    else if book[0].1 == letter then
      assert FirstWithValue(book, 0, book[0].0, letter);
      Some(book[0].0)
    else
      var r := FirstKeyOf(book[1..], letter);
      assert r.Some? ==> FirstWithValue(book, 1 + FirstIndex(book[1..], r.value, letter), r.value, letter) by {
        if r.Some? {
          var k := FirstIndex(book[1..], r.value, letter);
          assert book[k + 1] == (r.value, letter);
          forall j | 0 <= j < k + 1 ensures book[j].1 != letter {
            if j > 0 {
              assert book[1..][j - 1].1 != letter;
            }
          }
        }
      }
      assert Values(book) == {book[0].1} + Values(book[1..]) by {
        forall c | c in Values(book) ensures c in {book[0].1} + Values(book[1..]) {
          var k :| 0 <= k < |book| && book[k].1 == c;
          if k > 0 {
            assert book[1..][k - 1].1 == c;
          }
        }
      }
      r
  }

  /** Entry k is (key, letter) and no earlier entry has the value letter. */
  predicate FirstWithValue(book: Book, k: int, key: char, letter: char) {
    0 <= k < |book| && book[k] == (key, letter) && forall j :: 0 <= j < k ==> book[j].1 != letter
  }

  /** The index of the entry FirstKeyOf reports. */
  function FirstIndex(book: Book, key: char, letter: char): (k: int)
    requires exists k :: FirstWithValue(book, k, key, letter)
    ensures FirstWithValue(book, k, key, letter)
  {
    var k :| FirstWithValue(book, k, key, letter); k
  }

  /** Every character of s replaced by its image under the book, or kept when it is not a key. */
  function Substituted(book: Book, s: string): (r: string)
    requires UniqueKeys(book)
    ensures |r| == |s|
  {
    seq(|s|, k requires 0 <= k < |s| => if s[k] in AsMap(book) then AsMap(book)[s[k]] else s[k])
  }

  /** Every character of s replaced by the first key mapped to it, or kept when it is no value. */
  function Restored(book: Book, s: string): (r: string)
    ensures |r| == |s|
  {
    seq(|s|, k requires 0 <= k < |s| => var r := FirstKeyOf(book, s[k]); if r.Some? then r.value else s[k])
  }

  /** Encrypt: the upper-cased text through the book, one character at a time. */
  method Encrypt(book: Book, plainText: string) returns (cipher: string)
    requires UniqueKeys(book)
    ensures cipher == Substituted(book, UpperText(plainText))
  {
    var upper := UpperText(plainText);
    cipher := [];
    for i := 0 to |upper|
      invariant |cipher| == i
      invariant forall k :: 0 <= k < i ==> cipher[k] == Substituted(book, upper)[k]
    {
      var letter := upper[i];
      match Lookup(book, letter) {
        case Some(v) =>
          cipher := cipher + [v];
        case None =>
          cipher := cipher + [letter];
      }
    }
  }

  /** Decrypt: each character back through the book, then the whole text lower-cased. */
  method Decrypt(book: Book, cipherText: string) returns (message: string)
    ensures message == LowerText(Restored(book, cipherText))
  {
    message := [];
    for i := 0 to |cipherText|
      invariant |message| == i
      invariant forall k :: 0 <= k < i ==> message[k] == Restored(book, cipherText)[k]
    {
      var letter := cipherText[i];
      var found := FirstKeyOf(book, letter);
      if found.Some? {
        message := message + [found.value];
      } else {
        message := message + [letter];
      }
    }
    message := LowerText(message);
  }

  /**
   * Decrypting an encryption with a book that permutes its own keys (each value is a key
   * and no two keys share a value) gives the plain text lower-cased.
   */
  lemma RoundTrip(book: Book, plainText: string)
    requires UniqueKeys(book) && UniqueValues(book) && Values(book) == Keys(book)
    ensures LowerText(Restored(book, Substituted(book, UpperText(plainText)))) == LowerText(plainText)
  {
    var upper := UpperText(plainText);
    var cipher := Substituted(book, upper);
    var back := Restored(book, cipher);
    forall k | 0 <= k < |plainText|
      ensures back[k] == upper[k]
    {
      CharRoundTrip(book, upper[k]);
    }
    forall k | 0 <= k < |plainText|
      ensures LowerText(back)[k] == LowerText(plainText)[k]
    {
      LowerUpper(plainText[k]);
    }
  }

  /** One character: the first key mapped to the image of c is c itself. */
  lemma CharRoundTrip(book: Book, c: char)
    requires UniqueKeys(book) && UniqueValues(book) && Values(book) == Keys(book)
    ensures var e := if c in AsMap(book) then AsMap(book)[c] else c;
      (var r := FirstKeyOf(book, e); if r.Some? then r.value else e) == c
  {
    if c in Keys(book) {
      var i :| 0 <= i < |book| && book[i].0 == c;
      var r := FirstKeyOf(book, book[i].1);
      var j :| 0 <= j < |book| && book[j] == (r.value, book[i].1);
      assert i == j;
    }
  }

  /** A book whose value is no key does not round-trip: with A -> B, "b" encrypts to "B" and decrypts to "a". */
  lemma ValueOutsideKeys()
    ensures Substituted([('A', 'B')], UpperText("b")) == "B"
    ensures LowerText(Restored([('A', 'B')], "B")) == "a"
  {
    var book := [('A', 'B')];
    assert Keys(book) == {'A'} && Values(book) == {'B'} by {
      assert book[0] == ('A', 'B');
    }
    assert AsMap(book)['A'] == 'B';
  }

  /** The book A -> Z, E -> M, M -> E, Z -> Y, Y -> A permutes its keys, so it round-trips. */
  lemma DemoBookRoundTrips(plainText: string)
    ensures var book := [('A', 'Z'), ('E', 'M'), ('M', 'E'), ('Z', 'Y'), ('Y', 'A')];
      UniqueKeys(book) && LowerText(Restored(book, Substituted(book, UpperText(plainText)))) == LowerText(plainText)
  {
    var book := [('A', 'Z'), ('E', 'M'), ('M', 'E'), ('Z', 'Y'), ('Y', 'A')];
    assert Keys(book) == {'A', 'E', 'M', 'Z', 'Y'} by {
      assert book[0].0 == 'A' && book[1].0 == 'E' && book[2].0 == 'M' && book[3].0 == 'Z' && book[4].0 == 'Y';
    }
    assert Values(book) == {'A', 'E', 'M', 'Z', 'Y'} by {
      assert book[0].1 == 'Z' && book[1].1 == 'M' && book[2].1 == 'E' && book[3].1 == 'Y' && book[4].1 == 'A';
    }
    RoundTrip(book, plainText);
  }
}
