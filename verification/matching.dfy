/**
 * String matching: the naive matcher that tries every shift, and the finite-automaton
 * matcher that runs the next-state table BUILD-NEXT-STATE-TABLE computes for a pattern.
 * Shifts are returned as integers, in the order they are found.
 */
module Matchings {

  /** The shifts s of the occurrences of pattern in text that end at or before e, ascending. */
  function MatchesBefore(text: string, pattern: string, e: int): seq<int>
    requires 0 <= e <= |text|
  {
    if e == 0 then []
    else MatchesBefore(text, pattern, e - 1) + (if EndsAt(text, pattern, e) then [e - |pattern|] else [])
  }

  /** An occurrence of pattern in text ends at e. */
  predicate EndsAt(text: string, pattern: string, e: int)
    requires 0 <= e <= |text|
  {
    |pattern| <= e && Agree(text, pattern, e - |pattern|, |pattern|)
  }

  /** pattern occurs in text with shift s. */
  predicate Occurs(text: string, pattern: string, s: int) {
    0 <= s && s + |pattern| <= |text| && text[s..s + |pattern|] == pattern
  }

  /**
   * For a non-empty pattern, MatchesBefore(e) holds exactly the shifts of the occurrences
   * that end by e, strictly ascending.
   */
  lemma {:induction false} MatchesBeforeMembers(text: string, pattern: string, e: int)
    requires 0 <= e <= |text| && |pattern| >= 1
    ensures forall s :: s in MatchesBefore(text, pattern, e) <==> Occurs(text, pattern, s) && s + |pattern| <= e
    ensures forall a, b :: 0 <= a < b < |MatchesBefore(text, pattern, e)| ==>
      MatchesBefore(text, pattern, e)[a] < MatchesBefore(text, pattern, e)[b]
    ensures forall a :: 0 <= a < |MatchesBefore(text, pattern, e)| ==> MatchesBefore(text, pattern, e)[a] + |pattern| <= e
  {
    if e > 0 {
      MatchesBeforeMembers(text, pattern, e - 1);
    }
  }

  /**
   * The naive matcher overruns the text: for some shift i past |text| - |pattern| the
   * rest of the text is a prefix of the pattern, so the comparison reaches index |text|.
   */
  predicate Overruns(text: string, pattern: string) {
    exists i :: 0 <= i < |text| && OverrunsAt(text, pattern, i)
  }

  /** Shift i of the naive matcher reads past the end of the text. */
  predicate OverrunsAt(text: string, pattern: string, i: int) {
    0 <= i && |text| - |pattern| < i < |text| && Agree(text, pattern, i, |text| - i)
  }

  /**
   * SIMPLE-MATCHER as written: every shift i < |text| is tried, so the comparison
   * reads text[|text|] and fails when the text overruns; the shifts found before that
   * are all the occurrences, since the overrunning shifts come after them.
   */
  method SimpleMatcher(text: string, pattern: string) returns (shifts: seq<int>, failed: bool)
    ensures |text| == 0 || |pattern| == 0 || |pattern| > |text| ==> shifts == [] && !failed
    ensures |pattern| >= 1 ==> shifts == MatchesBefore(text, pattern, |text|)
    ensures |pattern| >= 1 && |pattern| <= |text| ==> (failed <==> Overruns(text, pattern))
  {
    var n, m := |text|, |pattern|;
    shifts, failed := [], false;
    if n == 0 || m == 0 || m > n {
      if m >= 1 {
        MatchesNone(text, pattern, n);
      }
      return;
    }
    MatchesNone(text, pattern, m - 1);
    for i := 0 to n
      invariant shifts == MatchesBefore(text, pattern, Min(i + m - 1, n))
      invariant forall i' :: 0 <= i' < i ==> !OverrunsAt(text, pattern, i')
    {
      var overrun;
      shifts, overrun := TryShift(text, pattern, i, shifts);
      if overrun {
        // text[n] is out of range: the source throws here.
        failed := true;
        return;
      }
    }
    assert Min(n + m - 1, n) == n;
  }

  /**
   * One shift of SIMPLE-MATCHER: compare, and add shift i to the found shifts on a full
   * match; an overrun leaves them as they are and means every occurrence is found.
   */
  method TryShift(text: string, pattern: string, i: int, shifts: seq<int>) returns (shifts': seq<int>, overrun: bool)
    requires 1 <= |pattern| <= |text| && 0 <= i < |text|
    requires shifts == MatchesBefore(text, pattern, Min(i + |pattern| - 1, |text|))
    ensures overrun ==> OverrunsAt(text, pattern, i) && shifts' == MatchesBefore(text, pattern, |text|)
    ensures !overrun ==> !OverrunsAt(text, pattern, i) && shifts' == MatchesBefore(text, pattern, Min(i + |pattern|, |text|))
  {
    var j;
    j, overrun := Compare(text, pattern, i);
    shifts' := shifts;
    if overrun {
      OverrunAt(text, pattern, i, shifts);
      return;
    }
    if j == |pattern| {
      shifts' := shifts + [i];
    }
    ShiftStep(text, pattern, i, j, shifts');
    NoOverrun(text, pattern, i, j);
  }

  /**
   * The inner loop of SIMPLE-MATCHER: compare pattern with text from shift i until a
   * mismatch, the end of the pattern, or an attempt to read text[|text|] (overrun).
   */
  method Compare(text: string, pattern: string, i: int) returns (j: int, overrun: bool)
    requires 0 <= i < |text|
    ensures 0 <= j <= |pattern| && i + j <= |text| && Agree(text, pattern, i, j)
    ensures overrun ==> j < |pattern| && i + j == |text|
    ensures !overrun && j < |pattern| ==> i + j < |text| && pattern[j] != text[i + j]
  {
    var m, n := |pattern|, |text|;
    var k := i;
    j, overrun := 0, false;
    while j < m
      invariant 0 <= j <= m && k == i + j && k <= n
      invariant Agree(text, pattern, i, j)
    {
      if k == n {
        overrun := true;
        return;
      }
      if pattern[j] != text[k] {
        break;
      }
      j, k := j + 1, k + 1;
    }
  }

  /** The first j characters of pattern agree with text from shift i. */
  predicate Agree(text: string, pattern: string, i: int, j: int)
    requires 0 <= i && 0 <= j <= |pattern| && i + j <= |text|
  {
    forall k :: 0 <= k < j ==> text[i + k] == pattern[k]
  }

  function Min(a: int, b: int): int {
    if a <= b then a else b
  }

  /** Without room for the pattern there are no occurrences. */
  lemma {:induction false} MatchesNone(text: string, pattern: string, e: int)
    requires 0 <= e <= |text| && e < |pattern|
    ensures MatchesBefore(text, pattern, e) == []
  {
    if e > 0 {
      MatchesNone(text, pattern, e - 1);
    }
  }

  /**
   * Trying shift i of the naive matcher, whose comparison stopped after j matching
   * characters without reading past the end, moves the found shifts on by one end position.
   */
  lemma ShiftStep(text: string, pattern: string, i: int, j: int, shifts: seq<int>)
    requires 1 <= |pattern| <= |text| && 0 <= i < |text| && 0 <= j <= |pattern|
    requires i + j <= |text| && Agree(text, pattern, i, j)
    requires j < |pattern| ==> i + j < |text| && pattern[j] != text[i + j]
    requires var before := MatchesBefore(text, pattern, Min(i + |pattern| - 1, |text|));
      shifts == before + (if j == |pattern| then [i] else [])
    ensures shifts == MatchesBefore(text, pattern, Min(i + |pattern|, |text|))
  {
    if i + |pattern| <= |text| {
      ShiftInside(text, pattern, i, j);
    } else {
      ShiftPast(text, pattern, i, j);
    }
  }

  /** Past the last shift with room for the pattern, the comparison cannot match fully. */
  lemma ShiftPast(text: string, pattern: string, i: int, j: int)
    requires 0 <= i && |text| < i + |pattern| && 0 <= j <= |pattern| && i + j <= |text|
    ensures Min(i + |pattern| - 1, |text|) == Min(i + |pattern|, |text|) == |text| && j < |pattern|
  {
  }

  /** With room for the pattern, the comparison at shift i matched fully exactly when an occurrence ends at i + m. */
  lemma ShiftInside(text: string, pattern: string, i: int, j: int)
    requires 1 <= |pattern| && 0 <= i && i + |pattern| <= |text| && 0 <= j <= |pattern|
    requires Agree(text, pattern, i, j)
    requires j < |pattern| ==> pattern[j] != text[i + j]
    ensures Min(i + |pattern| - 1, |text|) == i + |pattern| - 1 && Min(i + |pattern|, |text|) == i + |pattern|
    ensures MatchesBefore(text, pattern, i + |pattern|) ==
      MatchesBefore(text, pattern, i + |pattern| - 1) + (if j == |pattern| then [i] else [])
  {
    var m, e := |pattern|, i + |pattern|;
    if j < m {
      assert !EndsAt(text, pattern, e);
    }
  }

  /** A shift whose comparison stopped without reading past the end does not overrun. */
  lemma NoOverrun(text: string, pattern: string, i: int, j: int)
    requires 1 <= |pattern| <= |text| && 0 <= i < |text| && 0 <= j <= |pattern|
    requires i + j <= |text| && Agree(text, pattern, i, j)
    requires j < |pattern| ==> i + j < |text| && pattern[j] != text[i + j]
    ensures !OverrunsAt(text, pattern, i)
  {
    var m, n := |pattern|, |text|;
    if n - m < i {
      assert text[i + j] != pattern[j];
    }
  }

  /** The naive matcher fails at shift i: this shift overruns, and all occurrences are found. */
  lemma OverrunAt(text: string, pattern: string, i: int, shifts: seq<int>)
    requires 1 <= |pattern| <= |text| && 0 <= i < |text| && |text| - i < |pattern|
    requires Agree(text, pattern, i, |text| - i)
    requires shifts == MatchesBefore(text, pattern, Min(i + |pattern| - 1, |text|))
    ensures Overruns(text, pattern) && shifts == MatchesBefore(text, pattern, |text|)
  {
    assert OverrunsAt(text, pattern, i);
  }

  /** The overrun of the naive matcher: "AB" in "ABA" reaches past the end at shift 2. */
  lemma OverrunExample()
    ensures Overruns("ABA", "AB")
  {
    assert OverrunsAt("ABA", "AB", 2);
  }

  /**
   * The naive matcher with the shifts bounded by |text| - |pattern|: it finds the same
   * shifts and never reads past the end of the text.
   */
  method SimpleMatcherCorrected(text: string, pattern: string) returns (shifts: seq<int>)
    ensures |pattern| == 0 ==> shifts == []
    ensures |pattern| >= 1 ==> shifts == MatchesBefore(text, pattern, |text|)
  {
    var n, m := |text|, |pattern|;
    shifts := [];
    if n == 0 || m == 0 || m > n {
      if m >= 1 {
        MatchesNone(text, pattern, n);
      }
      return;
    }
    MatchesNone(text, pattern, m - 1);
    for i := 0 to n - m + 1
      invariant shifts == MatchesBefore(text, pattern, Min(i + m - 1, n))
    {
      var overrun;
      shifts, overrun := TryShift(text, pattern, i, shifts);
      assert !overrun;
    }
    assert Min(n - m + 1 + m - 1, n) == n;
  }


  /** u is a suffix of v. */
  predicate IsSuffix(u: string, v: string) {
    |u| <= |v| && forall k :: 0 <= k < |u| ==> u[k] == v[|v| - |u| + k]
  }

  /**
   * The suffix test of the next-state table, compared ordinally (character code by
   * character code). The C# overload `EndsWith(string)` compares under the current
   * culture instead; the two differ on characters the culture ignores.
   */
  predicate EndsWith(s: string, u: string) {
    IsSuffix(u, s)
  }

  /** The largest i <= k such that pattern[..i] is a suffix of s. */
  function LongestFrom(pattern: string, s: string, k: nat): (r: nat)
    requires k <= |pattern|
    ensures r <= k && IsSuffix(pattern[..r], s)
    ensures forall i :: r < i <= k ==> !IsSuffix(pattern[..i], s)
  {
    if k == 0 || IsSuffix(pattern[..k], s) then k else LongestFrom(pattern, s, k - 1)
  }

  /** The suffix function: the longest prefix of pattern that is a suffix of s. */
  function Sigma(pattern: string, s: string): nat {
    LongestFrom(pattern, s, Min(|pattern|, |s|))
  }

  /** Sigma is a prefix of the pattern that is a suffix of s, and no longer one is. */
  lemma SigmaMaximal(pattern: string, s: string, k: int)
    requires 0 <= k <= |pattern| && IsSuffix(pattern[..k], s)
    ensures k <= Sigma(pattern, s) <= |pattern| && Sigma(pattern, s) <= |s|
    ensures IsSuffix(pattern[..Sigma(pattern, s)], s)
  {
  }

  /**
   * The entry of the next-state table for state k and character c: the largest
   * i <= min(k + 1, |pattern|) such that pattern[..i] is a suffix of pattern[..k] + c.
   */
  function Delta(pattern: string, k: int, c: char): nat
    requires 0 <= k <= |pattern|
  {
    LongestFrom(pattern, pattern[..k] + [c], Min(k + 1, |pattern|))
  }

  lemma SuffixTrans(u: string, v: string, w: string)
    requires IsSuffix(u, v) && IsSuffix(v, w)
    ensures IsSuffix(u, w)
  {
  }

  lemma SuffixOfSuffix(u: string, v: string, w: string)
    requires IsSuffix(u, w) && IsSuffix(v, w) && |u| <= |v|
    ensures IsSuffix(u, v)
  {
  }

  lemma SuffixSnoc(u: string, v: string, c: char, d: char)
    ensures IsSuffix(u + [c], v + [d]) <==> IsSuffix(u, v) && c == d
  {
    if IsSuffix(u + [c], v + [d]) {
      assert (u + [c])[|u|] == (v + [d])[|v| + 1 - |u| - 1 + |u|];
      forall k | 0 <= k < |u|
        ensures u[k] == v[|v| - |u| + k]
      {
        assert (u + [c])[k] == (v + [d])[|v| + 1 - (|u| + 1) + k];
      }
    }
  }

  lemma PrefixSnoc(pattern: string, r: int)
    requires 1 <= r <= |pattern|
    ensures pattern[..r] == pattern[..r - 1] + [pattern[r - 1]]
  {
  }

  /** If pattern[..q] is a suffix of s, every suffix of pattern[..q] + c is one of s + c. */
  lemma SigmaStepLower(pattern: string, s: string, q: int, c: char)
    requires 0 <= q <= |pattern| && IsSuffix(pattern[..q], s)
    ensures Sigma(pattern, pattern[..q] + [c]) <= Sigma(pattern, s + [c])
  {
    var r' := Sigma(pattern, pattern[..q] + [c]);
    SigmaMaximal(pattern, pattern[..q] + [c], 0);
    SuffixSnoc(pattern[..q], s, c, c);
    SuffixTrans(pattern[..r'], pattern[..q] + [c], s + [c]);
    SigmaMaximal(pattern, s + [c], r');
  }

  /** If q is Sigma of s, no prefix of the pattern longer than Sigma of pattern[..q] + c ends s + c. */
  lemma SigmaStepUpper(pattern: string, s: string, q: int, c: char)
    requires q == Sigma(pattern, s)
    ensures q <= |pattern| && Sigma(pattern, s + [c]) <= Sigma(pattern, pattern[..q] + [c])
  {
    SigmaMaximal(pattern, s, 0);
    var r := Sigma(pattern, s + [c]);
    SigmaMaximal(pattern, s + [c], 0);
    if r > 0 {
      PrefixSnoc(pattern, r);
      SuffixSnoc(pattern[..r - 1], s, pattern[r - 1], c);
      SigmaMaximal(pattern, s, r - 1);
      SuffixOfSuffix(pattern[..r - 1], pattern[..q], s);
      assert pattern[..q][..r - 1] == pattern[..r - 1];
      SuffixSnoc(pattern[..r - 1], pattern[..q], c, c);
      SigmaMaximal(pattern, pattern[..q] + [c], r);
    }
  }

  /**
   * The suffix-function recursion: if q is Sigma of s, then Sigma of s + c is Sigma of
   * pattern[..q] + c, so the automaton need only remember q.
   */
  lemma SigmaStep(pattern: string, s: string, c: char)
    ensures Sigma(pattern, s) <= |pattern|
    ensures Sigma(pattern, s + [c]) == Sigma(pattern, pattern[..Sigma(pattern, s)] + [c])
  {
    var q := Sigma(pattern, s);
    SigmaMaximal(pattern, s, 0);
    SigmaStepLower(pattern, s, q, c);
    SigmaStepUpper(pattern, s, q, c);
  }

  /** A table entry is Sigma of pattern[..k] + c. */
  lemma DeltaIsSigma(pattern: string, k: int, c: char)
    requires 0 <= k <= |pattern|
    ensures Delta(pattern, k, c) == Sigma(pattern, pattern[..k] + [c]) <= |pattern|
  {
  }

  /** The table BUILD-NEXT-STATE-TABLE returns for pattern: column 127 is never filled. */
  ghost predicate NextStateTable(t: array2<int>, pattern: string)
    reads t
  {
    && t.Length0 == |pattern| + 1 && t.Length1 == 128
    && (forall k, c :: 0 <= k <= |pattern| && 0 <= c < 127 ==> t[k, c] == Delta(pattern, k, c as char))
    && (forall k :: 0 <= k <= |pattern| ==> t[k, 127] == 0)
  }

  /** The inner step of BUILD-NEXT-STATE-TABLE: search down from min(k + 1, m) for a suffix. */
  method NextState(pattern: string, k: int, ch: char) returns (i: int)
    requires 0 <= k <= |pattern|
    ensures i == Delta(pattern, k, ch)
  {
    var concat := pattern[..k] + [ch];
    var top := Min(k + 1, |pattern|);
    i := top;
    while !EndsWith(concat, pattern[..i])
      invariant 0 <= i <= top && LongestFrom(pattern, concat, top) == LongestFrom(pattern, concat, i)
      decreases i
    {
      i := i - 1;
    }
  }

  /**
   * BUILD-NEXT-STATE-TABLE: an (m + 1) x 128 table whose entry for state k and ASCII
   * character c < 127 is Delta(pattern, k, c); column 127 stays 0.
   */
  method BuildNextStateTable(pattern: string) returns (t: array2<int>)
    ensures fresh(t) && NextStateTable(t, pattern)
  {
    var n, m := 127, |pattern|;
    t := new int[m + 1, n + 1]((_, _) => 0);
    for ch := 0 to n
      invariant forall k, c :: 0 <= k <= m && 0 <= c < 128 ==>
        t[k, c] == if c < ch then Delta(pattern, k, c as char) else 0
    {
      for k := 0 to m + 1
        invariant forall k', c :: 0 <= k' <= m && 0 <= c < 128 ==>
          t[k', c] == if c < ch || (c == ch && k' < k) then Delta(pattern, k', c as char) else 0
      {
        var i := NextState(pattern, k, ch as char);
        t[k, ch] := i;
      }
    }
  }

  /** Every entry of a built table is a state in [0, m]. */
  lemma TableEntriesInRange(t: array2<int>, pattern: string)
    requires NextStateTable(t, pattern)
    ensures forall k, c :: 0 <= k < t.Length0 && 0 <= c < t.Length1 ==> 0 <= t[k, c] <= |pattern|
  {
    forall k, c | 0 <= k < t.Length0 && 0 <= c < t.Length1
      ensures 0 <= t[k, c] <= |pattern|
    {
      if c < 127 {
        DeltaIsSigma(pattern, k, c as char);
      }
    }
  }

  /** Every entry of t is a row index of t. */
  ghost predicate Closed(t: array2<int>)
    reads t
  {
    forall q, c :: 0 <= q < t.Length0 && 0 <= c < t.Length1 ==> 0 <= t[q, c] < t.Length0
  }

  /** The state of the automaton t after reading text[..i]. */
  ghost function State(t: array2<int>, text: string, i: int): (q: int)
    reads t
    requires Closed(t) && t.Length0 >= 1 && 0 <= i <= |text|
    requires forall j :: 0 <= j < i ==> text[j] as int < t.Length1
    ensures 0 <= q < t.Length0
  {
    if i == 0 then 0 else t[State(t, text, i - 1), text[i - 1] as int]
  }

  /** The shifts e - m for each e <= i at which the automaton is in state m, ascending. */
  ghost function Accepted(t: array2<int>, text: string, i: int, m: int): seq<int>
    reads t
    requires Closed(t) && t.Length0 >= 1 && 0 <= i <= |text|
    requires forall j :: 0 <= j < i ==> text[j] as int < t.Length1
  {
    if i == 0 then [] else Accepted(t, text, i - 1, m) + (if State(t, text, i) == m then [i - m] else [])
  }

  /**
   * FINITE-AUTOMATON-MATCHER over text[..n]: after each character it reports shift
   * i - m + 1 if the state has become m. It needs every character read to be a column
   * of the table and every entry to be a state.
   */
  method FAStringMatcher(text: string, n: int, m: int, nextState: array2<int>) returns (shifts: seq<int>)
    requires n <= |text| && Closed(nextState) && nextState.Length0 >= 1
    requires forall j :: 0 <= j < n ==> text[j] as int < nextState.Length1
    ensures shifts == Accepted(nextState, text, if n < 0 then 0 else n, m)
  {
    var state := 0;
    shifts := [];
    var i := 0;
    while i < n
      invariant 0 <= i <= (if n < 0 then 0 else n)
      invariant state == State(nextState, text, i)
      invariant shifts == Accepted(nextState, text, i, m)
    {
      state := nextState[state, text[i] as int];
      if state == m {
        shifts := shifts + [i - m + 1];
      }
      i := i + 1;
    }
  }

  /** The entry of a built table for state q and character c < 127 is Sigma of pattern[..q] + c. */
  lemma TableAt(t: array2<int>, pattern: string, q: int, c: char)
    requires NextStateTable(t, pattern) && 0 <= q <= |pattern| && c as int < 127
    ensures t[q, c as int] == Sigma(pattern, pattern[..q] + [c])
  {
    assert (c as int) as char == c;
    DeltaIsSigma(pattern, q, c);
  }

  /** On the table built for pattern, the automaton's state after text[..i] is Sigma of text[..i]. */
  lemma {:induction false} StateIsSigma(t: array2<int>, pattern: string, text: string, i: int)
    requires NextStateTable(t, pattern) && 0 <= i <= |text|
    requires forall j :: 0 <= j < |text| ==> text[j] as int < 127
    ensures Closed(t) && State(t, text, i) == Sigma(pattern, text[..i])
  {
    TableEntriesInRange(t, pattern);
    if i > 0 {
      StateIsSigma(t, pattern, text, i - 1);
      var q := State(t, text, i - 1);
      var c := text[i - 1];
      assert State(t, text, i) == t[q, c as int];
      TableAt(t, pattern, q, c);
      SigmaStep(pattern, text[..i - 1], c);
      PrefixSnoc(text, i);
    }
  }

  /**
   * With the table BUILD-NEXT-STATE-TABLE returns for a non-empty pattern and a text of
   * characters below 127, FINITE-AUTOMATON-MATCHER over text[..n] reports exactly the
   * shifts of the occurrences of the pattern in text[..n], ascending.
   */
  lemma {:induction false} AutomatonMatches(t: array2<int>, pattern: string, text: string, n: int)
    requires NextStateTable(t, pattern) && |pattern| >= 1 && 0 <= n <= |text|
    requires forall j :: 0 <= j < |text| ==> text[j] as int < 127
    ensures Closed(t) && Accepted(t, text, n, |pattern|) == MatchesBefore(text, pattern, n)
  {
    TableEntriesInRange(t, pattern);
    if n > 0 {
      AutomatonMatches(t, pattern, text, n - 1);
      AcceptsAt(t, pattern, text, n);
    }
  }

  /** The automaton is in state m after text[..e] exactly when an occurrence ends at e. */
  lemma AcceptsAt(t: array2<int>, pattern: string, text: string, e: int)
    requires NextStateTable(t, pattern) && |pattern| >= 1 && 0 <= e <= |text|
    requires forall j :: 0 <= j < |text| ==> text[j] as int < 127
    ensures Closed(t) && (State(t, text, e) == |pattern| <==> EndsAt(text, pattern, e))
  {
    StateIsSigma(t, pattern, text, e);
    var m := |pattern|;
    var s := text[..e];
    SigmaMaximal(pattern, s, 0);
    assert pattern[..m] == pattern;
    if Sigma(pattern, s) == m {
      assert text[e - m..e] == s[e - m..];
    }
    if EndsAt(text, pattern, e) {
      assert s[e - m..] == text[e - m..e];
      SigmaMaximal(pattern, s, m);
    }
  }

  /** The occurrences of "AAC" in "GTAACAGTAAACG" have shifts 2 and 9. */
  lemma DemoShifts()
    ensures MatchesBefore("GTAACAGTAAACG", "AAC", 13) == [2, 9]
  {
    var text, pattern := "GTAACAGTAAACG", "AAC";
    assert MatchesBefore(text, pattern, 1) == [];
    assert MatchesBefore(text, pattern, 2) == [];
    assert text[0] != pattern[0];
    assert MatchesBefore(text, pattern, 3) == [];
    assert text[1] != pattern[0];
    assert MatchesBefore(text, pattern, 4) == [];
    assert EndsAt(text, pattern, 5);
    assert MatchesBefore(text, pattern, 5) == [2];
    assert text[4] != pattern[1];
    assert MatchesBefore(text, pattern, 6) == [2];
    assert text[4] != pattern[0];
    assert MatchesBefore(text, pattern, 7) == [2];
    assert text[6] != pattern[1];
    assert MatchesBefore(text, pattern, 8) == [2];
    assert text[6] != pattern[0];
    assert MatchesBefore(text, pattern, 9) == [2];
    assert text[7] != pattern[0];
    assert MatchesBefore(text, pattern, 10) == [2];
    assert text[10] != pattern[2];
    assert MatchesBefore(text, pattern, 11) == [2];
    assert EndsAt(text, pattern, 12);
    assert MatchesBefore(text, pattern, 12) == [2, 9];
    assert text[11] != pattern[1];
    assert MatchesBefore(text, pattern, 13) == [2, 9];
  }
}
