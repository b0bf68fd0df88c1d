/**
 * The input of the room-assignment solver (a graph whose edges carry a
 * happiness and a stress weight) and the dense weight matrices that
 * `solve` derives from its edge list.
 */
module Matrices {

  /** An undirected edge between students `u` and `v` with its two weights. */
  datatype Edge = Edge(u: nat, v: nat, happiness: real, stress: real)

  /** A graph on the students 0..n-1; `edges` are in the order the graph lists them. */
  datatype Graph = Graph(n: nat, edges: seq<Edge>) {
    /** Every edge joins two of the n students. */
    predicate Valid() {
      forall k :: 0 <= k < |edges| ==> edges[k].u < n && edges[k].v < n
    }
  }

  /** Which of the two weight matrices is meant. */
  datatype Weight = Happiness | Stress

  function WeightOf(e: Edge, w: Weight): (r: real) {
    match w
    case Happiness => e.happiness
    case Stress => e.stress
  }

  /** Whether writing edge `e` into a matrix touches cell [a][b]. */
  predicate Joins(e: Edge, a: nat, b: nat) {
    (e.u == a && e.v == b) || (e.u == b && e.v == a)
  }

  /**
   * Cell [a][b] of a zero-initialised matrix with independent rows after each
   * edge (u, v) has written its weight into [u][v] and then [v][u], in order.
   */
  function Entry(edges: seq<Edge>, w: Weight, a: nat, b: nat): (r: real)
  {
    if edges == [] then 0.0
    else
      var last := edges[|edges| - 1];
      if Joins(last, a, b) then WeightOf(last, w) else Entry(edges[..|edges| - 1], w, a, b)
  }

  /** A cell holds the weight of the last edge that joins its two students. */
  lemma {:induction false} EntryIsLastJoiningEdge(edges: seq<Edge>, w: Weight, a: nat, b: nat, k: nat)
    requires k < |edges| && Joins(edges[k], a, b)
    requires forall j :: k < j < |edges| ==> !Joins(edges[j], a, b)
    ensures Entry(edges, w, a, b) == WeightOf(edges[k], w)
  {
    if k < |edges| - 1 {
      var prefix := edges[..|edges| - 1];
      assert prefix[k] == edges[k];
      EntryIsLastJoiningEdge(prefix, w, a, b, k);
    }
  }

  /** A pair of students that no edge joins keeps the initial 0. */
  lemma {:induction false} EntryWithoutEdge(edges: seq<Edge>, w: Weight, a: nat, b: nat)
    requires forall j :: 0 <= j < |edges| ==> !Joins(edges[j], a, b)
    ensures Entry(edges, w, a, b) == 0.0
  {
    if edges != [] {
      EntryWithoutEdge(edges[..|edges| - 1], w, a, b);
    }
  }

  /** Both matrices are symmetric. */
  lemma {:induction false} EntrySymmetric(edges: seq<Edge>, w: Weight, a: nat, b: nat)
    ensures Entry(edges, w, a, b) == Entry(edges, w, b, a)
  {
    if edges != [] {
      EntrySymmetric(edges[..|edges| - 1], w, a, b);
    }
  }

  /**
   * Building the matrix by repeating one row list n times makes all n rows
   * one and the same list, so every edge writes its weight into columns u and
   * v of that single row. This is the value such a row holds at column `c`.
   */
  function SharedRowCell(edges: seq<Edge>, w: Weight, c: nat): (r: real)
    ensures (forall j :: 0 <= j < |edges| ==> edges[j].u != c && edges[j].v != c) ==> r == 0.0
  {
    if edges == [] then 0.0
    else
      var last := edges[|edges| - 1];
      if last.u == c || last.v == c then WeightOf(last, w) else SharedRowCell(edges[..|edges| - 1], w, c)
  }

  /** What reading `[a][b]` yields when all rows are the shared row. */
  function AliasedEntry(edges: seq<Edge>, w: Weight, a: nat, b: nat): (r: real) {
    SharedRowCell(edges, w, b)
  }

  /**
   * With the edges (0,1) of stress 2 and (2,3) of stress 1, the shared row
   * gives the unconnected students 2 and 0 a non-zero and asymmetric stress,
   * where independent rows give 0 in both directions.
   */
  lemma AliasedMatrixIsWrong()
    ensures var es := [Edge(0, 1, 8.0, 2.0), Edge(2, 3, 1.0, 1.0)];
      && AliasedEntry(es, Stress, 2, 0) == 2.0
      && AliasedEntry(es, Stress, 0, 2) == 1.0
      && Entry(es, Stress, 2, 0) == 0.0
      && Entry(es, Stress, 0, 2) == 0.0
  {
    var es := [Edge(0, 1, 8.0, 2.0), Edge(2, 3, 1.0, 1.0)];
    assert es[..1] == [Edge(0, 1, 8.0, 2.0)];
  }
}
