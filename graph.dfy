/**
 * The column-intersection graph of find_coloring in color.py: one node per
 * matrix column, an edge (i, j) with i < j whenever columns i and j meet.
 */
module Graphs {
  import opened Matrices

  /** An edge between two node (column) indices. */
  type Edge = (nat, nat)

  /** A graph with nodes 0 .. nodes-1 and a list of edges. */
  datatype Graph = Graph(nodes: nat, edges: seq<Edge>)

  /** Every edge joins two distinct nodes of the graph, smaller index first. */
  ghost predicate ValidGraph(g: Graph) {
    forall p :: 0 <= p < |g.edges| ==> g.edges[p].0 < g.edges[p].1 < g.nodes
  }

  /** Lexicographic order on edges: the order the nested loops emit them. */
  predicate LexLess(e: Edge, f: Edge) {
    e.0 < f.0 || (e.0 == f.0 && e.1 < f.1)
  }

  /** (i, j) is an edge of the matrix's graph: i < j and columns i and j meet. */
  ghost predicate IsEdge(m: Matrix, e: Edge)
    requires m.Valid()
  {
    e.0 < e.1 < m.cols && ColumnsMeet(m, e.0, e.1)
  }

  /**
   * `edges` is the edge list of the matrix: only edges, every edge, and in
   * strictly increasing order (so no pair twice).
   */
  ghost predicate EdgesOf(m: Matrix, edges: seq<Edge>)
    requires m.Valid()
  {
    && (forall p :: 0 <= p < |edges| ==> IsEdge(m, edges[p]))
    && (forall a: nat, b: nat :: a < b < m.cols && ColumnsMeet(m, a, b) ==> (a, b) in edges)
    && StrictlySorted(edges)
  }

  /** The edge loops of find_coloring: every pair colidx1 < colidx2 is tested once. */
  method BuildEdges(m: Matrix) returns (edges: seq<Edge>)
    requires m.Valid()
    ensures EdgesOf(m, edges)
  {
    edges := [];
    for i := 0 to m.cols
      invariant forall p :: 0 <= p < |edges| ==> IsEdge(m, edges[p]) && edges[p].0 < i
      invariant forall a: nat, b: nat :: a < i && a < b < m.cols && ColumnsMeet(m, a, b) ==> (a, b) in edges
      invariant StrictlySorted(edges)
    {
      for j := i + 1 to m.cols
        invariant forall p :: 0 <= p < |edges| ==>
                    IsEdge(m, edges[p]) && (edges[p].0 < i || (edges[p].0 == i && edges[p].1 < j))
        invariant forall a: nat, b: nat ::
                    ((a < i && a < b < m.cols) || (a == i && i < b < j)) && ColumnsMeet(m, a, b) ==> (a, b) in edges
        invariant StrictlySorted(edges)
      {
        if ColIntersecting(m, i, j) {
          edges := edges + [(i, j)];
        }
      }
    }
  }

  /** Edges strictly increasing in lexicographic order. */
  ghost predicate StrictlySorted(edges: seq<Edge>) {
    forall p, q :: 0 <= p < q < |edges| ==> LexLess(edges[p], edges[q])
  }

  /** Two strictly sorted lists holding the same edges are equal. */
  lemma {:induction false} SortedSameEdges(e1: seq<Edge>, e2: seq<Edge>)
    requires StrictlySorted(e1) && StrictlySorted(e2)
    requires forall e :: e in e1 <==> e in e2
    ensures e1 == e2
    decreases |e1|
  {
    assert e2 != [] ==> e1 != [] by {
      if e2 != [] { assert e2[0] in e2; }
    }
    assert e1 != [] ==> e2 != [] by {
      if e1 != [] { assert e1[0] in e1; }
    }
    if e1 != [] {
      assert e1[0] in e2 && e2[0] in e1;
      var p :| 0 <= p < |e2| && e2[p] == e1[0];
      var q :| 0 <= q < |e1| && e1[q] == e2[0];
      var first1, first2 := e1[0], e2[0];
      assert p > 0 ==> LexLess(first2, first1);
      assert q > 0 ==> LexLess(first1, first2);
      assert e1[0] == e2[0];
      forall e
        ensures e in e1[1..] <==> e in e2[1..]
      {
        if e in e1[1..] {
          var i :| 1 <= i < |e1| && e1[i] == e;
          assert LexLess(e1[0], e1[i]);
          assert e in e1 && e in e2;
          var j :| 0 <= j < |e2| && e2[j] == e;
          assert j != 0;
          assert e2[1..][j - 1] == e;
        }
        if e in e2[1..] {
          var i :| 1 <= i < |e2| && e2[i] == e;
          assert LexLess(e2[0], e2[i]);
          assert e in e2 && e in e1;
          var j :| 0 <= j < |e1| && e1[j] == e;
          assert j != 0;
          assert e1[1..][j - 1] == e;
        }
      }
      SortedSameEdges(e1[1..], e2[1..]);
      assert e1 == [e1[0]] + e1[1..] && e2 == [e2[0]] + e2[1..];
    }
  }

  /** The edge list of a matrix is unique: its order is fixed, not only its set. */
  lemma EdgesOfUnique(m: Matrix, e1: seq<Edge>, e2: seq<Edge>)
    requires m.Valid() && EdgesOf(m, e1) && EdgesOf(m, e2)
    ensures e1 == e2
  {
    forall e | e in e1
      ensures e in e2
    {
      var p :| 0 <= p < |e1| && e1[p] == e;
      assert IsEdge(m, e1[p]);
    }
    forall e | e in e2
      ensures e in e1
    {
      var p :| 0 <= p < |e2| && e2[p] == e;
      assert IsEdge(m, e2[p]);
    }
    SortedSameEdges(e1, e2);
  }

  /** Reordering the rows of a matrix does not change which columns meet. */
  lemma ColumnsMeetRowOrder(m: Matrix, m2: Matrix, perm: seq<nat>, a: nat, b: nat)
    requires m.Valid() && m2.Valid() && m2.cols == m.cols && a < m.cols && b < m.cols
    requires |perm| == m2.rows
    requires forall r :: 0 <= r < m2.rows ==> perm[r] < m.rows && m2.cells[r] == m.cells[perm[r]]
    requires forall r :: 0 <= r < m.rows ==> r in perm
    ensures ColumnsMeet(m, a, b) <==> ColumnsMeet(m2, a, b)
  {
    if ColumnsMeet(m, a, b) {
      var r :| 0 <= r < m.rows && m.cells[r][a] && m.cells[r][b];
      assert r in perm;
      var r2 :| 0 <= r2 < |perm| && perm[r2] == r;
      assert m2.cells[r2][a] && m2.cells[r2][b];
    }
    if ColumnsMeet(m2, a, b) {
      var r2 :| 0 <= r2 < m2.rows && m2.cells[r2][a] && m2.cells[r2][b];
      assert m.cells[perm[r2]][a] && m.cells[perm[r2]][b];
    }
  }

  /** The edge list does not depend on the order of the matrix's rows. */
  lemma EdgesOfRowOrder(m: Matrix, m2: Matrix, perm: seq<nat>, edges: seq<Edge>)
    requires m.Valid() && m2.Valid() && m2.cols == m.cols
    requires |perm| == m2.rows
    requires forall r :: 0 <= r < m2.rows ==> perm[r] < m.rows && m2.cells[r] == m.cells[perm[r]]
    requires forall r :: 0 <= r < m.rows ==> r in perm
    ensures EdgesOf(m, edges) <==> EdgesOf(m2, edges)
  {
    forall a: nat, b: nat | a < m.cols && b < m.cols
      ensures ColumnsMeet(m, a, b) <==> ColumnsMeet(m2, a, b)
    {
      ColumnsMeetRowOrder(m, m2, perm, a, b);
    }
  }

  /** A colouring of the graph with colours 0 .. k-1 in which every edge joins two colours. */
  ghost predicate ProperColouring(g: Graph, k: nat, col: seq<nat>) {
    && |col| == g.nodes
    && (forall n :: 0 <= n < |col| ==> col[n] < k)
    && (forall p :: 0 <= p < |g.edges| ==>
          g.edges[p].0 < |col| && g.edges[p].1 < |col| && col[g.edges[p].0] != col[g.edges[p].1])
  }

  /** The graph has a proper colouring with k colours. */
  ghost predicate Colourable(g: Graph, k: nat) {
    exists col :: ProperColouring(g, k, col)
  }

  /** A colouring of the matrix's columns with k colours in which meeting columns differ. */
  ghost predicate MatrixProper(m: Matrix, k: nat, col: seq<nat>)
    requires m.Valid()
  {
    && |col| == m.cols
    && (forall n :: 0 <= n < |col| ==> col[n] < k)
    && (forall i, j :: 0 <= i < j < m.cols && ColumnsMeet(m, i, j) ==> col[i] != col[j])
  }

  /** The column-intersection graph of the matrix can be coloured with k colours. */
  ghost predicate MatrixColourable(m: Matrix, k: nat)
    requires m.Valid()
  {
    exists col :: MatrixProper(m, k, col)
  }

  /** The derived graph is a well-formed graph on the matrix's columns. */
  lemma EdgesOfValid(m: Matrix, edges: seq<Edge>)
    requires m.Valid() && EdgesOf(m, edges)
    ensures ValidGraph(Graph(m.cols, edges))
  {
  }

  /** Colouring the derived graph is colouring the columns so that meeting columns differ. */
  lemma ProperIffMatrixProper(m: Matrix, edges: seq<Edge>, k: nat, col: seq<nat>)
    requires m.Valid() && EdgesOf(m, edges)
    ensures ProperColouring(Graph(m.cols, edges), k, col) <==> MatrixProper(m, k, col)
  {
  }

  /** So the derived graph is k-colourable exactly when the matrix is. */
  lemma ColourableIffMatrixColourable(m: Matrix, edges: seq<Edge>, k: nat)
    requires m.Valid() && EdgesOf(m, edges)
    ensures Colourable(Graph(m.cols, edges), k) <==> MatrixColourable(m, k)
  {
    if Colourable(Graph(m.cols, edges), k) {
      var col :| ProperColouring(Graph(m.cols, edges), k, col);
      ProperIffMatrixProper(m, edges, k, col);
    }
    if MatrixColourable(m, k) {
      var col :| MatrixProper(m, k, col);
      ProperIffMatrixProper(m, edges, k, col);
    }
  }

  /** Giving every column its own colour is proper: cols colours always suffice. */
  lemma DistinctColours(m: Matrix, k: nat)
    requires m.Valid() && k >= m.cols
    ensures MatrixColourable(m, k)
  {
    var col: seq<nat> := seq(m.cols, n requires 0 <= n < m.cols => n);
    assert MatrixProper(m, k, col);
  }

  /** A colouring with k colours is also one with more colours. */
  lemma ColourableMonotone(m: Matrix, k: nat, j: nat)
    requires m.Valid() && k <= j && MatrixColourable(m, k)
    ensures MatrixColourable(m, j)
  {
    var col :| MatrixProper(m, k, col);
    assert MatrixProper(m, j, col);
  }
}
