/** The adjacency-list representation: one list of targets and one weight dictionary per vertex. */
module Lists {
  import opened Wrappers
  import opened Graphs

  class AdjacencyList {
    const N: nat
    /** The edge counter, changed by every in-range Add and Remove. */
    var M: int
    /** List[u] holds the targets of u in insertion order, duplicates included. */
    var List: seq<seq<int>>
    var Weights: WeightTable

    /** The state as seen by the graph algorithms. */
    function AsGraph(): (g: Graph)
      reads this
      ensures g.ListGraph? && g.n == N && g.m == M
    {
      ListGraph(N, M, List, Weights)
    }

    ghost predicate Valid()
      reads this
    {
      AsGraph().Valid()
    }

    constructor (size: nat)
      ensures Valid() && AsGraph() == EmptyList(size)
    {
      N := size;
      M := 0;
      List := seq(size, _ => []);
      Weights := seq(size, _ => map[]);
    }

    /** Appends v to u's list, counts the edge and records its weight; out-of-range pairs are ignored. */
    method Add(u: int, v: int, weight: Option<int> := None)
      requires Valid()
      modifies this
      ensures Valid() && AsGraph() == old(AsGraph()).Added(u, v, weight)
    {
      if !AsGraph().InRange(u, v) {
        return;
      }
      List := List[u := List[u] + [v]];
      M := M + 1;
      Weights := Weights[u := Weights[u][v := weight]];
    }

    /**
     * Drops the first v from u's list, uncounts the edge (whether or not v was
     * there) and sets a null weight; out-of-range pairs are ignored.
     */
    method Remove(u: int, v: int)
      requires Valid()
      modifies this
      ensures Valid() && AsGraph() == old(AsGraph()).Removed(u, v)
    {
      if !AsGraph().InRange(u, v) {
        return;
      }
      ghost var after := AsGraph().Removed(u, v);
      List := List[u := RemoveFirst(List[u], v)];
      M := M - 1;
      Weights := Weights[u := Weights[u][v := None]];
      assert AsGraph() == after;
    }
  }
}
