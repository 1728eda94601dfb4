/** The adjacency-matrix representation: an N x N table of 0/1 cells plus a weight dictionary per row. */
module Matrices {
  import opened Wrappers
  import opened Graphs

  class AdjacencyMatrix {
    const N: nat
    /** The edge counter, changed by every in-range Add and Remove. */
    var M: int
    /** Matrix[u][v] holds when the cell is 1. */
    var Matrix: seq<seq<bool>>
    var Weights: WeightTable

    /** The state as seen by the graph algorithms. */
    function AsGraph(): (g: Graph)
      reads this
      ensures g.MatrixGraph? && g.n == N && g.m == M
    {
      MatrixGraph(N, M, Matrix, Weights)
    }

    ghost predicate Valid()
      reads this
    {
      AsGraph().Valid()
    }

    constructor (size: nat)
      ensures Valid() && AsGraph() == EmptyMatrix(size)
    {
      N := size;
      M := 0;
      Matrix := seq(size, _ => seq(size, _ => false));
      Weights := seq(size, _ => map[]);
    }

    /** Sets the cell, counts the edge and records its weight; out-of-range pairs are ignored. */
    method Add(u: int, v: int, weight: Option<int> := None)
      requires Valid()
      modifies this
      ensures Valid() && AsGraph() == old(AsGraph()).Added(u, v, weight)
    {
      if !AsGraph().InRange(u, v) {
        return;
      }
      Matrix := Matrix[u := Matrix[u][v := true]];
      M := M + 1;
      Weights := Weights[u := Weights[u][v := weight]];
    }

    /** Clears the cell, uncounts the edge and sets a null weight; out-of-range pairs are ignored. */
    method Remove(u: int, v: int)
      requires Valid()
      modifies this
      ensures Valid() && AsGraph() == old(AsGraph()).Removed(u, v)
    {
      if !AsGraph().InRange(u, v) {
        return;
      }
      Matrix := Matrix[u := Matrix[u][v := false]];
      M := M - 1;
      Weights := Weights[u := Weights[u][v := None]];
    }
  }
}
