/**
 * Longest common subsequences: the table COMPUTE-LCS-TABLE fills with its clamped
 * indices (an m x n table indexed from 0), the recursive ASSEMBLE-LCS over it, and the
 * textbook (m + 1) x (n + 1) table that the clamping was meant to stand in for.
 */
module Lcs {
  import opened Wrappers
  import opened Collections

  function Max(a: int, b: int): int {
    if a >= b then a else b
  }

  /** s is obtained from t by deleting characters. */
  predicate Subsequence(s: string, t: string)
    decreases |t|
  {
    if s == [] then true
    else if t == [] then false
    else Subsequence(s, t[..|t| - 1]) || (s[|s| - 1] == t[|t| - 1] && Subsequence(s[..|s| - 1], t[..|t| - 1]))
  }

  lemma SubsequenceExtend(s: string, t: string, c: char)
    requires Subsequence(s, t)
    ensures Subsequence(s, t + [c])
  {
    assert (t + [c])[..|t|] == t;
  }

  lemma SubsequenceAppend(s: string, t: string, c: char)
    requires Subsequence(s, t)
    ensures Subsequence(s + [c], t + [c])
  {
    assert (s + [c])[..|s|] == s;
    assert (t + [c])[..|t|] == t;
  }

  lemma {:induction false} SubsequenceLength(s: string, t: string)
    requires Subsequence(s, t)
    ensures |s| <= |t|
    decreases |t|
  {
    if s != [] {
      if Subsequence(s, t[..|t| - 1]) {
        SubsequenceLength(s, t[..|t| - 1]);
      } else {
        SubsequenceLength(s[..|s| - 1], t[..|t| - 1]);
      }
    }
  }

  /** The characters s[0 .. i]; empty when i is negative. */
  function Upto(s: string, i: int): string
    requires i < |s|
  {
    if i < 0 then [] else s[..i + 1]
  }

  // ---------------------------------------------------------------------------
  // COMPUTE-LCS-TABLE and ASSEMBLE-LCS as written
  // ---------------------------------------------------------------------------

  /** The index clamp `ind`: -1 becomes 0. */
  function Ind(d: int): int {
    if d == -1 then 0 else d
  }

  /**
   * The value the source stores in l[i, j]: on a match one more than the clamped
   * diagonal cell, otherwise the larger of the clamped left and upper cells.
   */
  function Cell(x: string, y: string, i: int, j: int): nat
    requires 0 <= i < |x| && 0 <= j < |y|
    decreases i + j, 1
  {
    if x[i] == y[j] then Read(x, y, i, j, Ind(i - 1), Ind(j - 1)) + 1
    else Max(Read(x, y, i, j, i, Ind(j - 1)), Read(x, y, i, j, Ind(i - 1), j))
  }

  /** What l[ci, cj] holds while cell (i, j) is being filled: that cell itself is still 0. */
  function Read(x: string, y: string, i: int, j: int, ci: int, cj: int): nat
    requires 0 <= ci <= i < |x| && 0 <= cj <= j < |y|
    decreases i + j, 0
  {
    if ci == i && cj == j then 0 else Cell(x, y, ci, cj)
  }

  /**
   * COMPUTE-LCS-TABLE: a max(m, 1) x max(n, 1) table whose cell (i, j) is Cell(x, y, i, j);
   * when either string is empty the table is all zeros.
   */
  method ComputeLCSTable(x: string, y: string) returns (l: array2<int>)
    ensures fresh(l)
    ensures l.Length0 == (if |x| == 0 then 1 else |x|) && l.Length1 == (if |y| == 0 then 1 else |y|)
    ensures forall i, j :: 0 <= i < |x| && 0 <= j < |y| ==> l[i, j] == Cell(x, y, i, j)
    ensures |x| == 0 || |y| == 0 ==> forall i, j :: 0 <= i < l.Length0 && 0 <= j < l.Length1 ==> l[i, j] == 0
  {
    var m, n := |x|, |y|;
    l := new int[if m == 0 then 1 else m, if n == 0 then 1 else n]((_, _) => 0);
    for i := 0 to m
      invariant forall a, b :: 0 <= a < l.Length0 && 0 <= b < l.Length1 ==> l[a, b] == 0
    {
      l[i, 0] := 0;
    }
    for j := 0 to n
      invariant forall a, b :: 0 <= a < l.Length0 && 0 <= b < l.Length1 ==> l[a, b] == 0
    {
      l[0, j] := 0;
    }
    for i := 0 to m
      invariant forall a, b :: 0 <= a < l.Length0 && 0 <= b < l.Length1 ==>
        l[a, b] == if a < i && b < n then Cell(x, y, a, b) else 0
    {
      for j := 0 to n
        invariant forall a, b :: 0 <= a < l.Length0 && 0 <= b < l.Length1 ==>
          l[a, b] == if (a < i || (a == i && b < j)) && b < n then Cell(x, y, a, b) else 0
      {
        if x[i] == y[j] {
          l[i, j] := l[Ind(i - 1), Ind(j - 1)] + 1;
        } else {
          l[i, j] := Max(l[i, Ind(j - 1)], l[Ind(i - 1), j]);
        }
      }
    }
  }

  /**
   * ASSEMBLE-LCS over a table: "" once i or j is negative or the cell is 0; the source
   * throws (None here) when it must read column -1 or row -1. Whatever it returns is a
   * common subsequence of x[0 .. i] and y[0 .. j].
   */
  function AssembleLCS(x: string, y: string, l: array2<int>, i: int, j: int): (r: Option<string>)
    reads l
    requires i < |x| && j < |y| && i < l.Length0 && j < l.Length1
    ensures (i < 0 || j < 0 || l[i, j] == 0) ==> r == Some([])
    ensures r.Some? ==> Subsequence(r.value, Upto(x, i)) && Subsequence(r.value, Upto(y, j))
    decreases i + j
  {
    if i < 0 || j < 0 || l[i, j] == 0 then Some([])
    else if x[i] == y[j] then
      match AssembleLCS(x, y, l, i - 1, j - 1)
      case None => None
      case Some(s) =>
        assert Upto(x, i) == Upto(x, i - 1) + [x[i]] && Upto(y, j) == Upto(y, j - 1) + [y[j]];
        SubsequenceAppend(s, Upto(x, i - 1), x[i]);
        SubsequenceAppend(s, Upto(y, j - 1), y[j]);
        Some(s + [x[i]])
    else if j == 0 || i == 0 then None
    else if l[i, j - 1] > l[i - 1, j] then
      var r := AssembleLCS(x, y, l, i, j - 1);
      assert Upto(y, j) == Upto(y, j - 1) + [y[j]];
      if r.Some? then SubsequenceExtend(r.value, Upto(y, j - 1), y[j]); r else r
    else
      var r := AssembleLCS(x, y, l, i - 1, j);
      assert Upto(x, i) == Upto(x, i - 1) + [x[i]];
      if r.Some? then SubsequenceExtend(r.value, Upto(x, i - 1), x[i]); r else r
  }

  /** With the clamp, the first row counts the occurrences of x[0] in y[0 .. j]. */
  lemma {:induction false} FirstRowCounts(x: string, y: string, j: int)
    requires |x| > 0 && 0 <= j < |y|
    ensures Cell(x, y, 0, j) == Occurrences(y[..j + 1], x[0])
  {
    OccurrencesStep(y, j, x[0]);
    assert y[..0] == [];
    if j > 0 {
      FirstRowCounts(x, y, j - 1);
    }
  }

  /** Likewise the first column counts the occurrences of y[0] in x[0 .. i]. */
  lemma {:induction false} FirstColumnCounts(x: string, y: string, i: int)
    requires 0 <= i < |x| && |y| > 0
    ensures Cell(x, y, i, 0) == Occurrences(x[..i + 1], y[0])
  {
    OccurrencesStep(x, i, y[0]);
    assert x[..0] == [];
    if i > 0 {
      FirstColumnCounts(x, y, i - 1);
    }
  }

  /** x = "A", y = "AA": the last cell says 2, but no common subsequence is longer than 1. */
  lemma ClampCounterexample()
    ensures Cell("A", "AA", 0, 1) == 2
    ensures forall s :: Subsequence(s, "A") ==> |s| <= 1
  {
    FirstRowCounts("A", "AA", 1);
    assert "AA"[..2] == "AA";
    assert Occurrences("AA", 'A') == Occurrences("A", 'A') + 1 by {
      assert "AA"[..1] == "A";
    }
    assert Occurrences("A", 'A') == 1 by {
      assert "A"[..0] == [];
    }
    forall s | Subsequence(s, "A")
      ensures |s| <= 1
    {
      SubsequenceLength(s, "A");
    }
  }

  /** x = "AB", y = "A": ASSEMBLE-LCS(1, 0) on the computed table reads l[1, -1] and throws. */
  lemma AssembleThrows(l: array2<int>)
    requires l.Length0 == 2 && l.Length1 == 1
    requires l[0, 0] == Cell("AB", "A", 0, 0) && l[1, 0] == Cell("AB", "A", 1, 0)
    ensures AssembleLCS("AB", "A", l, 1, 0) == None
  {
    assert Cell("AB", "A", 0, 0) == 1;
    assert Cell("AB", "A", 1, 0) == 1;
  }

  // ---------------------------------------------------------------------------
  // The textbook table over prefixes, indexed 0 .. m and 0 .. n
  // ---------------------------------------------------------------------------

  /** The recurrence of COMPUTE-LCS-TABLE as intended, over the prefixes x[..i] and y[..j]. */
  function LcsLength(x: string, y: string, i: int, j: int): nat
    requires 0 <= i <= |x| && 0 <= j <= |y|
    decreases i + j
  {
    if i == 0 || j == 0 then 0
    else if x[i - 1] == y[j - 1] then LcsLength(x, y, i - 1, j - 1) + 1
    else Max(LcsLength(x, y, i - 1, j), LcsLength(x, y, i, j - 1))
  }

  /** Adjacent cells of the textbook table never decrease and grow by at most one. */
  lemma {:induction false} LcsAdjacent(x: string, y: string, i: int, j: int)
    requires 0 <= i <= |x| && 0 <= j <= |y|
    ensures i >= 1 ==> LcsLength(x, y, i - 1, j) <= LcsLength(x, y, i, j) <= LcsLength(x, y, i - 1, j) + 1
    ensures j >= 1 ==> LcsLength(x, y, i, j - 1) <= LcsLength(x, y, i, j) <= LcsLength(x, y, i, j - 1) + 1
    decreases i + j
  {
    if i >= 1 && j >= 1 {
      LcsAdjacent(x, y, i - 1, j);
      LcsAdjacent(x, y, i, j - 1);
    }
  }

  /** No common subsequence of x[..i] and y[..j] is longer than LcsLength(x, y, i, j). */
  lemma {:induction false} LcsUpperBound(x: string, y: string, i: int, j: int, s: string)
    requires 0 <= i <= |x| && 0 <= j <= |y|
    requires Subsequence(s, x[..i]) && Subsequence(s, y[..j])
    ensures |s| <= LcsLength(x, y, i, j)
    decreases i + j
  {
    if s != [] {
      assert i > 0 && j > 0;
      assert x[..i][..i - 1] == x[..i - 1] && y[..j][..j - 1] == y[..j - 1];
      LcsAdjacent(x, y, i, j);
      var c, t := s[|s| - 1], s[..|s| - 1];
      if Subsequence(s, x[..i - 1]) {
        LcsUpperBound(x, y, i - 1, j, s);
      } else if Subsequence(s, y[..j - 1]) {
        LcsUpperBound(x, y, i, j - 1, s);
      } else {
        assert c == x[i - 1] && c == y[j - 1];
        LcsUpperBound(x, y, i - 1, j - 1, t);
      }
    }
  }

  /** l is the textbook table of x and y. */
  ghost predicate LcsTable(x: string, y: string, l: array2<int>)
    reads l
  {
    && l.Length0 == |x| + 1 && l.Length1 == |y| + 1
    && forall i, j :: 0 <= i <= |x| && 0 <= j <= |y| ==> l[i, j] == LcsLength(x, y, i, j)
  }

  /** The corrected COMPUTE-LCS-TABLE: the (m + 1) x (n + 1) textbook table. */
  method ComputeLCSTableCorrected(x: string, y: string) returns (l: array2<int>)
    ensures fresh(l) && LcsTable(x, y, l)
  {
    var m, n := |x|, |y|;
    l := new int[m + 1, n + 1]((_, _) => 0);
    for i := 1 to m + 1
      invariant forall a, b :: 0 <= a <= m && 0 <= b <= n ==>
        l[a, b] == if a < i then LcsLength(x, y, a, b) else 0
    {
      for j := 1 to n + 1
        invariant forall a, b :: 0 <= a <= m && 0 <= b <= n ==>
          l[a, b] == if a < i || (a == i && b < j) then LcsLength(x, y, a, b) else 0
      {
        var v;
        if x[i - 1] == y[j - 1] {
          v := l[i - 1, j - 1] + 1;
        } else {
          v := Max(l[i - 1, j], l[i, j - 1]);
        }
        assert v == LcsLength(x, y, i, j);
        l[i, j] := v;
      }
    }
  }

  /**
   * The corrected ASSEMBLE-LCS over the textbook table: a common subsequence of x[..i]
   * and y[..j] of length l[i, j], which by LcsUpperBound is a longest one.
   */
  function AssembleLCSCorrected(x: string, y: string, l: array2<int>, i: int, j: int): (r: string)
    reads l
    requires 0 <= i <= |x| && 0 <= j <= |y| && LcsTable(x, y, l)
    ensures Subsequence(r, x[..i]) && Subsequence(r, y[..j]) && |r| == LcsLength(x, y, i, j)
    decreases i + j
  {
    if i == 0 || j == 0 || l[i, j] == 0 then []
    else
      assert x[..i] == x[..i - 1] + [x[i - 1]] && y[..j] == y[..j - 1] + [y[j - 1]];
      if x[i - 1] == y[j - 1] then
        var s := AssembleLCSCorrected(x, y, l, i - 1, j - 1);
        SubsequenceAppend(s, x[..i - 1], x[i - 1]);
        SubsequenceAppend(s, y[..j - 1], y[j - 1]);
        s + [x[i - 1]]
      else if l[i, j - 1] > l[i - 1, j] then
        var s := AssembleLCSCorrected(x, y, l, i, j - 1);
        SubsequenceExtend(s, y[..j - 1], y[j - 1]);
        s
      else
        var s := AssembleLCSCorrected(x, y, l, i - 1, j);
        SubsequenceExtend(s, x[..i - 1], x[i - 1]);
        s
  }
}
