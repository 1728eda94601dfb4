/**
 * What every cipher shares: the alphabet 'A'..'Z', optionally followed by ' ', and the
 * case mappings the ciphers apply to their texts.
 */
module Ciphers {

  /** The 26 capital English letters in order. */
  function Letters(): (s: seq<char>)
    ensures |s| == 26
  {
    seq(26, (k: int) requires 0 <= k < 26 => ('A' as int + k) as char)
  }

  /** The alphabet a cipher is constructed with. */
  function StandardAlphabet(useWhiteSpace: bool): seq<char> {
    Letters() + (if useWhiteSpace then [' '] else [])
  }

  /** The abstract cipher: it owns the alphabet list, built by the constructor. */
  class Cipher {
    var alphabet: seq<char>

    /** Start from 'A'..'Z' and append ' ' when asked to. */
    constructor(useWhiteSpace: bool)
      ensures alphabet == StandardAlphabet(useWhiteSpace)
    {
      alphabet := Letters();
      if useWhiteSpace {
        alphabet := alphabet + [' '];
      }
    }
  }

  /** No character occurs twice in s. */
  predicate Distinct(s: seq<char>) {
    forall i, j :: 0 <= i < j < |s| ==> s[i] != s[j]
  }

  /**
   * The alphabet holds 'A' + k at index k for k < 26, then ' ' at index 26 when white
   * space is used (27 entries), and otherwise exactly 26 entries with no space and no
   * lower-case letter. All entries are distinct.
   */
  lemma AlphabetShape(useWhiteSpace: bool)
    ensures var a := StandardAlphabet(useWhiteSpace);
      && |a| == (if useWhiteSpace then 27 else 26)
      && (forall k :: 0 <= k < 26 ==> a[k] as int == 'A' as int + k)
      && (useWhiteSpace ==> a[26] == ' ')
      && (!useWhiteSpace ==> ' ' !in a && forall c :: 'a' <= c <= 'z' ==> c !in a)
      && Distinct(a)
  {
    var a := StandardAlphabet(useWhiteSpace);
    assert forall k :: 0 <= k < 26 ==> a[k] == Letters()[k];
    assert forall k :: 0 <= k < 26 ==> 'A' <= a[k] <= 'Z';
  }

  /** Upper-casing, restricted to the ASCII letters. */
  function Upper(c: char): char {
    if 'a' <= c <= 'z' then (c as int - 32) as char else c
  }

  /** Lower-casing, restricted to the ASCII letters. */
  function Lower(c: char): char {
    if 'A' <= c <= 'Z' then (c as int + 32) as char else c
  }

  function UpperText(s: string): (r: string)
    ensures |r| == |s| && forall k :: 0 <= k < |s| ==> r[k] == Upper(s[k])
  {
    seq(|s|, k requires 0 <= k < |s| => Upper(s[k]))
  }

  function LowerText(s: string): (r: string)
    ensures |r| == |s| && forall k :: 0 <= k < |s| ==> r[k] == Lower(s[k])
  {
    seq(|s|, k requires 0 <= k < |s| => Lower(s[k]))
  }

  /** Lower-casing forgets an upper-casing: the case of a letter is lost, nothing else. */
  lemma LowerUpper(c: char)
    ensures Lower(Upper(c)) == Lower(c)
    ensures 'A' <= Upper(c) <= 'Z' <==> ('A' <= c <= 'Z' || 'a' <= c <= 'z')
  {
  }
}
