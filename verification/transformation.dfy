/**
 * Transforming one string into another by copy, replace, delete and insert operations:
 * COMPUTE-TRANSFORM-TABLE fills the cost and operation tables of a Transformation
 * object, and ASSEMBLE-TRANSFORMATION reads the cheapest script back out of them.
 */
module Transformations {
  import opened Wrappers

  /** An operation of a script; NoOp stands for the entry op[0, 0] that is never set. */
  datatype Op = Copy(c: char) | Replace(c: char, with: char) | Delete(c: char) | Insert(c: char) | NoOp

  /** The fixed costs; a Costs argument given to the source is never read. */
  const CopyCost := -1
  const ReplaceCost := 1
  const InsertCost := 2
  const DeleteCost := 2

  /** A table cell: its cost and the last operation of a cheapest script. */
  datatype Entry = Entry(cost: int, op: Op)

  /**
   * Cell (i, j) of the tables for turning x[..i] into y[..j]: the boundaries are all
   * deletes or all inserts, and an interior cell is chosen from its three neighbours.
   */
  function Table(x: string, y: string, i: int, j: int): Entry
    requires 0 <= i <= |x| && 0 <= j <= |y|
    decreases i + j
  {
    if i == 0 && j == 0 then Entry(0, NoOp)
    else if j == 0 then Entry(i * DeleteCost, Delete(x[i - 1]))
    else if i == 0 then Entry(j * InsertCost, Insert(y[j - 1]))
    else Choose(x[i - 1], y[j - 1], Table(x, y, i - 1, j - 1).cost, Table(x, y, i - 1, j).cost, Table(x, y, i, j - 1).cost)
  }

  /**
   * The interior cell for source character a and target character b, given the costs
   * diagonal, above and left of it: copy or replace is the first candidate, and delete
   * and then insert replace it only when strictly cheaper.
   */
  function Choose(a: char, b: char, diagonal: int, above: int, left: int): Entry {
    var first := if a == b then Entry(diagonal + CopyCost, Copy(a)) else Entry(diagonal + ReplaceCost, Replace(a, b));
    var second := if above + DeleteCost < first.cost then Entry(above + DeleteCost, Delete(a)) else first;
    if left + InsertCost < second.cost then Entry(left + InsertCost, Insert(b)) else second
  }

  function Min(a: int, b: int): int {
    if a <= b then a else b
  }

  /** The cost of an operation. */
  function OpCost(o: Op): int {
    match o
    case Copy(_) => CopyCost
    case Replace(_, _) => ReplaceCost
    case Delete(_) => DeleteCost
    case Insert(_) => InsertCost
    case NoOp => 0
  }

  /**
   * An interior cell costs the least of its three candidates, its operation is copy
   * exactly when the characters agree and that candidate wins, and ties go to copy or
   * replace first and to delete before insert.
   */
  lemma ChooseMinimum(a: char, b: char, diagonal: int, above: int, left: int)
    ensures var e := Choose(a, b, diagonal, above, left);
      var first := diagonal + (if a == b then CopyCost else ReplaceCost);
      var delete := above + DeleteCost;
      var insert := left + InsertCost;
      && e.cost == Min(first, Min(delete, insert))
      && ((e.op.Copy? || e.op.Replace?) <==> first <= delete && first <= insert)
      && (e.op.Delete? <==> delete < first && delete <= insert)
      && (e.op.Insert? <==> insert < first && insert < delete)
      && (e.op.Copy? ==> e.op == Copy(a) && a == b)
      && (e.op.Replace? ==> e.op == Replace(a, b) && a != b)
      && (e.op.Delete? ==> e.op == Delete(a))
      && (e.op.Insert? ==> e.op == Insert(b))
      && e.cost == OpCost(e.op) + (if e.op.Delete? then above else if e.op.Insert? then left else diagonal)
  {
  }

  /**
   * Every cell but (0, 0) holds an operation that steps back inside the table, that
   * reads x[i - 1] if it consumes and writes y[j - 1] if it produces, and whose cost
   * added to that of the cell it steps back to is the cell's cost.
   */
  lemma TableStep(x: string, y: string, i: int, j: int)
    requires 0 <= i <= |x| && 0 <= j <= |y| && (i, j) != (0, 0)
    ensures var o := Table(x, y, i, j).op; var p := Prev(o, i, j);
      && o != NoOp
      && 0 <= p.0 <= i && 0 <= p.1 <= j && p.0 + p.1 < i + j
      && (o.Copy? ==> o == Copy(x[i - 1]) && x[i - 1] == y[j - 1])
      && (o.Replace? ==> o == Replace(x[i - 1], y[j - 1]))
      && (o.Delete? ==> o == Delete(x[i - 1]))
      && (o.Insert? ==> o == Insert(y[j - 1]))
      && (o.Copy? || o.Replace? ==> Table(x, y, i, j).cost == Table(x, y, i - 1, j - 1).cost + OpCost(o))
      && (o.Delete? ==> Table(x, y, i, j).cost == Table(x, y, i - 1, j).cost + OpCost(o))
      && (o.Insert? ==> Table(x, y, i, j).cost == Table(x, y, i, j - 1).cost + OpCost(o))
  {
    if i >= 1 && j >= 1 {
      var diagonal, above, left := Table(x, y, i - 1, j - 1).cost, Table(x, y, i - 1, j).cost, Table(x, y, i, j - 1).cost;
      assert Table(x, y, i, j) == Choose(x[i - 1], y[j - 1], diagonal, above, left);
      ChooseMinimum(x[i - 1], y[j - 1], diagonal, above, left);
    } else if j == 0 {
      assert Table(x, y, i, j) == Entry(i * DeleteCost, Delete(x[i - 1]));
      assert Table(x, y, i - 1, j).cost == (i - 1) * DeleteCost;
    } else {
      assert Table(x, y, i, j) == Entry(j * InsertCost, Insert(y[j - 1]));
      assert Table(x, y, i, j - 1).cost == (j - 1) * InsertCost;
    }
  }

  /** The cell an operation steps back to: copy and replace drop a character of both strings. */
  function Prev(o: Op, i: int, j: int): (int, int) {
    if o.Copy? || o.Replace? then (i - 1, j - 1)
    else if o.Delete? then (i - 1, j)
    else (i, j - 1)
  }

  /** The script ASSEMBLE-TRANSFORMATION reads out of the tables for cell (i, j). */
  function Script(x: string, y: string, i: int, j: int): seq<Op>
    requires 0 <= i <= |x| && 0 <= j <= |y|
    decreases i + j
  {
    if i == 0 && j == 0 then []
    else
      TableStep(x, y, i, j);
      var o := Table(x, y, i, j).op;
      Script(x, y, Prev(o, i, j).0, Prev(o, i, j).1) + [o]
  }

  /** The number of source characters a script consumes: copy, replace and delete read one. */
  function Consumed(ops: seq<Op>): nat {
    if ops == [] then 0
    else Consumed(ops[..|ops| - 1]) + (if ops[|ops| - 1].Insert? || ops[|ops| - 1].NoOp? then 0 else 1)
  }

  /** The number of result characters a script produces: copy, replace and insert write one. */
  function Produced(ops: seq<Op>): nat {
    if ops == [] then 0
    else Produced(ops[..|ops| - 1]) + (if ops[|ops| - 1].Delete? || ops[|ops| - 1].NoOp? then 0 else 1)
  }

  /** The summed cost of a script. */
  function ScriptCost(ops: seq<Op>): int {
    if ops == [] then 0 else ScriptCost(ops[..|ops| - 1]) + OpCost(ops[|ops| - 1])
  }

  /**
   * The result of running a script over src, or None when it does not fit: each
   * operation of ops, read left to right, accounts for the next characters of src
   * and of the result; here the last operation is matched against the ends.
   */
  function Apply(src: string, ops: seq<Op>): Option<string>
    decreases |ops|, 1
  {
    if ops == [] then (if src == [] then Some([]) else None)
    else ApplyLast(src, ops[..|ops| - 1], ops[|ops| - 1])
  }

  /** Running rest followed by o over src: o is matched against the end of src. */
  function ApplyLast(src: string, rest: seq<Op>, o: Op): Option<string>
    decreases |rest| + 1, 0
  {
    match o
    case Copy(c) =>
      if src != [] && src[|src| - 1] == c then Then(Apply(src[..|src| - 1], rest), [c]) else None
    case Replace(c, d) =>
      if src != [] && src[|src| - 1] == c then Then(Apply(src[..|src| - 1], rest), [d]) else None
    case Delete(c) =>
      if src != [] && src[|src| - 1] == c then Apply(src[..|src| - 1], rest) else None
    case Insert(d) => Then(Apply(src, rest), [d])
    case NoOp => None
  }

  function Then(r: Option<string>, tail: string): Option<string> {
    if r.Some? then Some(r.value + tail) else None
  }

  lemma SnocCounts(ops: seq<Op>, o: Op)
    ensures Consumed(ops + [o]) == Consumed(ops) + (if o.Insert? || o.NoOp? then 0 else 1)
    ensures Produced(ops + [o]) == Produced(ops) + (if o.Delete? || o.NoOp? then 0 else 1)
    ensures ScriptCost(ops + [o]) == ScriptCost(ops) + OpCost(o)
  {
    assert (ops + [o])[..|ops|] == ops;
  }

  lemma SnocApply(src: string, ops: seq<Op>, o: Op)
    ensures Apply(src, ops + [o]) == ApplyLast(src, ops, o)
  {
    assert (ops + [o])[..|ops|] == ops;
  }

  lemma PrefixStep(s: string, k: int)
    requires 0 <= k <= |s|
    ensures k > 0 ==> s[..k][..k - 1] == s[..k - 1] && s[..k][k - 1] == s[k - 1] && s[..k] == s[..k - 1] + [s[k - 1]]
  {
  }

  /** The script for (i, j) consumes exactly i characters and produces exactly j. */
  lemma {:induction false} ScriptCounts(x: string, y: string, i: int, j: int)
    requires 0 <= i <= |x| && 0 <= j <= |y|
    ensures Consumed(Script(x, y, i, j)) == i && Produced(Script(x, y, i, j)) == j
    decreases i + j
  {
    if (i, j) != (0, 0) {
      TableStep(x, y, i, j);
      var o := Table(x, y, i, j).op;
      var p := Prev(o, i, j);
      ScriptCounts(x, y, p.0, p.1);
      SnocCounts(Script(x, y, p.0, p.1), o);
    }
  }

  /** Running the script for (i, j) over x[..i] yields y[..j]. */
  lemma {:induction false} ScriptApplies(x: string, y: string, i: int, j: int)
    requires 0 <= i <= |x| && 0 <= j <= |y|
    ensures Apply(x[..i], Script(x, y, i, j)) == Some(y[..j])
    decreases i + j
  {
    if (i, j) != (0, 0) {
      TableStep(x, y, i, j);
      var o := Table(x, y, i, j).op;
      var p := Prev(o, i, j);
      ScriptApplies(x, y, p.0, p.1);
      SnocApply(x[..i], Script(x, y, p.0, p.1), o);
      PrefixStep(x, i);
      PrefixStep(y, j);
    }
  }

  /** The summed cost of the script for (i, j) is the table's cost for (i, j). */
  lemma {:induction false} ScriptCostIsTableCost(x: string, y: string, i: int, j: int)
    requires 0 <= i <= |x| && 0 <= j <= |y|
    ensures ScriptCost(Script(x, y, i, j)) == Table(x, y, i, j).cost
    decreases i + j
  {
    if (i, j) != (0, 0) {
      TableStep(x, y, i, j);
      var o := Table(x, y, i, j).op;
      var p := Prev(o, i, j);
      ScriptCostIsTableCost(x, y, p.0, p.1);
      SnocCounts(Script(x, y, p.0, p.1), o);
    }
  }

  /**
   * The tables c and o hold the entries of x and y for every cell of the rows before
   * i, of column 0 and of row i before column j.
   */
  ghost predicate Filled(c: array2<int>, o: array2<Op>, x: string, y: string, i: int, j: int)
    reads c, o
  {
    && c.Length0 == |x| + 1 && c.Length1 == |y| + 1 && o.Length0 == |x| + 1 && o.Length1 == |y| + 1
    && 1 <= i <= |x| + 1 && 1 <= j <= |y| + 1
    && forall a, b :: 0 <= a <= |x| && 0 <= b <= |y| && (a < i || b == 0 || (a == i && b < j)) ==>
      Entry(c[a, b], o[a, b]) == Table(x, y, a, b)
  }

  /** The inner step of COMPUTE-TRANSFORM-TABLE: cell (i, j) from its three neighbours. */
  method FillCell(c: array2<int>, o: array2<Op>, x: string, y: string, i: int, j: int)
    requires i <= |x| && j <= |y| && Filled(c, o, x, y, i, j)
    modifies c, o
    ensures Filled(c, o, x, y, i, j + 1)
    ensures j == |y| ==> Filled(c, o, x, y, i + 1, 1)
  {
    var v, w;
    if x[i - 1] == y[j - 1] {
      v, w := c[i - 1, j - 1] + CopyCost, Copy(x[i - 1]);
    } else {
      v, w := c[i - 1, j - 1] + ReplaceCost, Replace(x[i - 1], y[j - 1]);
    }
    if c[i - 1, j] + DeleteCost < v {
      v, w := c[i - 1, j] + DeleteCost, Delete(x[i - 1]);
    }
    if c[i, j - 1] + InsertCost < v {
      v, w := c[i, j - 1] + InsertCost, Insert(y[j - 1]);
    }
    TableInterior(x, y, i, j);
    assert Entry(v, w) == Table(x, y, i, j);
    c[i, j] := v;
    o[i, j] := w;
  }

  lemma TableInterior(x: string, y: string, i: int, j: int)
    requires 1 <= i <= |x| && 1 <= j <= |y|
    ensures Table(x, y, i, j) == Choose(x[i - 1], y[j - 1], Table(x, y, i - 1, j - 1).cost, Table(x, y, i - 1, j).cost, Table(x, y, i, j - 1).cost)
  {
  }

  /** The object holding the cost and operation tables; both are null until they are computed. */
  class Transformation {
    var cost: array2?<int>
    var op: array2?<Op>
    /** The strings the tables were last computed for. */
    ghost var x: string
    ghost var y: string

    /** The tables are those of x and y. */
    ghost predicate Valid()
      reads this, cost, op
    {
      && cost != null && op != null
      && cost.Length0 == |x| + 1 && cost.Length1 == |y| + 1
      && op.Length0 == |x| + 1 && op.Length1 == |y| + 1
      && forall i, j :: 0 <= i <= |x| && 0 <= j <= |y| ==> Entry(cost[i, j], op[i, j]) == Table(x, y, i, j)
    }

    constructor ()
      ensures cost == null && op == null
    {
      cost, op := null, null;
    }

    /** COMPUTE-TRANSFORM-TABLE: afterwards the tables are those of x0 and y0. */
    method ComputeTransformTable(x0: string, y0: string)
      modifies this
      ensures Valid() && x == x0 && y == y0 && fresh(cost) && fresh(op)
    {
      var m, n := |x0| + 1, |y0| + 1;
      var c := new int[m, n]((_, _) => 0);
      var o := new Op[m, n]((_, _) => NoOp);
      c[0, 0] := 0;
      for i := 1 to m
        invariant forall a, b :: 0 <= a < m && 0 <= b < n && (b == 0 && a < i) ==>
          Entry(c[a, b], o[a, b]) == Table(x0, y0, a, b)
      {
        c[i, 0] := i * DeleteCost;
        o[i, 0] := Delete(x0[i - 1]);
      }
      for j := 1 to n
        invariant forall a, b :: 0 <= a < m && 0 <= b < n && (b == 0 || (a == 0 && b < j)) ==>
          Entry(c[a, b], o[a, b]) == Table(x0, y0, a, b)
      {
        c[0, j] := j * InsertCost;
        o[0, j] := Insert(y0[j - 1]);
      }
      for i := 1 to m
        invariant Filled(c, o, x0, y0, i, 1)
      {
        for j := 1 to n
          invariant Filled(c, o, x0, y0, i, j)
        {
          FillCell(c, o, x0, y0, i, j);
        }
      }
      cost, op, x, y := c, o, x0, y0;
    }

    /**
     * ASSEMBLE-TRANSFORMATION(i, j): the operations from op[i, j] back to (0, 0), in
     * script order; it is the script the tables of x and y determine.
     */
    function AssembleTransformation(i: int, j: int): (ops: seq<Op>)
      reads this, cost, op
      requires Valid() && 0 <= i <= |x| && 0 <= j <= |y|
      ensures ops == Script(x, y, i, j)
      decreases i + j
    {
      if i == 0 && j == 0 then []
      else
        TableStep(x, y, i, j);
        assert op[i, j] == Table(x, y, i, j).op;
        var last := op[i, j];
        if last.Copy? || last.Replace? then AssembleTransformation(i - 1, j - 1) + [last]
        else if last.Delete? then AssembleTransformation(i - 1, j) + [last]
        else AssembleTransformation(i, j - 1) + [last]
    }
  }

  /** ASSEMBLE-TRANSFORMATION(0, 0) is the empty script. */
  lemma AssembleEmpty(t: Transformation)
    requires t.Valid()
    ensures t.AssembleTransformation(0, 0) == []
  {
  }

  /**
   * Called with the lengths, the assembled script turns x into y, consumes |x| and
   * produces |y| characters, and costs cost[|x|, |y|].
   */
  lemma AssembleWhole(t: Transformation)
    requires t.Valid()
    ensures var ops := t.AssembleTransformation(|t.x|, |t.y|);
      && Apply(t.x, ops) == Some(t.y)
      && Consumed(ops) == |t.x| && Produced(ops) == |t.y|
      && ScriptCost(ops) == t.cost[|t.x|, |t.y|]
  {
    ScriptApplies(t.x, t.y, |t.x|, |t.y|);
    ScriptCounts(t.x, t.y, |t.x|, |t.y|);
    ScriptCostIsTableCost(t.x, t.y, |t.x|, |t.y|);
    assert t.x[..|t.x|] == t.x && t.y[..|t.y|] == t.y;
  }
}
