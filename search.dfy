/**
 * find_coloring and the top-level loop of color.py: build the graph and the
 * encoding for k colours, ask the solver, read the colouring out of its model,
 * and try k = 1, 2, ... until the solver says yes.
 */
module Search {
  import opened Wrappers
  import opened Matrices
  import opened Graphs
  import opened Cnf
  import opened Encoding

  /**
   * What is reported for a k-colouring of the matrix: one line per node
   * (column), each naming exactly one colour below k, and columns that meet
   * reported with different colours.
   */
  ghost predicate ReportsProper(m: Matrix, k: nat, reported: seq<seq<nat>>)
    requires m.Valid()
  {
    && |reported| == m.cols
    && (forall n :: 0 <= n < m.cols ==> |reported[n]| == 1 && reported[n][0] < k)
    && (forall i, j :: 0 <= i < j < m.cols && ColumnsMeet(m, i, j) ==> reported[i][0] != reported[j][0])
  }

  /** The model-reading loop: for every node, the colours whose variable is true. */
  method ExtractColours(a: Assignment, nodes: nat, k: nat) returns (reported: seq<seq<nat>>)
    ensures |reported| == nodes
    ensures forall n :: 0 <= n < nodes ==> reported[n] == TrueColours(a, n, k)
  {
    reported := [];
    for n := 0 to nodes
      invariant |reported| == n
      invariant forall n' :: 0 <= n' < n ==> reported[n'] == TrueColours(a, n', k)
    {
      var colours := [];
      for c := 0 to k
        invariant colours == TrueColours(a, n, c)
      {
        if a(Var(n, c)) {
          colours := colours + [c];
        }
      }
      reported := reported + [colours];
    }
  }

  /**
   * find_coloring(matrix, k): true iff the column-intersection graph has a
   * proper k-colouring, and then the colours read from the solver's model
   * form one.
   */
  method FindColoring(m: Matrix, k: nat, oracle: Formula -> Option<Assignment>)
    returns (sat: bool, reported: seq<seq<nat>>)
    requires m.Valid() && SoundOracle(oracle)
    ensures sat <==> MatrixColourable(m, k)
    ensures sat ==> ReportsProper(m, k, reported)
    ensures !sat ==> reported == []
  {
    var edges := BuildEdges(m);
    var g := Graph(m.cols, edges);
    var vs := DeclareVars(m.cols, k);
    var adjacentNotSame := BuildAdjacentNotSame(edges, k);
    var atLeastOne := BuildAtLeastOne(m.cols, k);
    var atMostOne := BuildAtMostOne(m.cols, k);
    var formula := adjacentNotSame + atLeastOne + atMostOne;
    assert formula == Encode(g, k);
    EdgesOfValid(m, edges);
    SatisfiableIffColourable(g, k);
    ColourableIffMatrixColourable(m, edges, k);
    var answer := oracle(formula);
    assert CorrectAnswer(formula, answer);
    if answer.Some? {
      sat := true;
      reported := ExtractColours(answer.value, m.cols, k);
      Soundness(answer.value, g, k);
      var col := Decode(answer.value, m.cols, k);
      ProperIffMatrixProper(m, edges, k, col);
      assert forall n :: 0 <= n < m.cols ==> reported[n] == [col[n]];
    } else {
      sat := false;
      reported := [];
    }
  }

  /** The larger of two numbers. */
  function Max(a: nat, b: nat): nat {
    if a < b then b else a
  }

  /**
   * The top-level loop: k = 1, 2, ... until find_coloring succeeds. It stops
   * at the least k >= 1 for which a proper colouring exists, which is at most
   * the number of columns (or 1 when there are none).
   */
  method ColourSearch(m: Matrix, oracle: Formula -> Option<Assignment>)
    returns (k: nat, reported: seq<seq<nat>>)
    requires m.Valid() && SoundOracle(oracle)
    ensures 1 <= k <= Max(1, m.cols)
    ensures MatrixColourable(m, k) && ReportsProper(m, k, reported)
    ensures forall j :: 1 <= j < k ==> !MatrixColourable(m, j)
  {
    var bound := Max(1, m.cols);
    DistinctColours(m, bound);
    k := 0;
    while true
      invariant k < bound
      invariant forall j :: 1 <= j <= k ==> !MatrixColourable(m, j)
      decreases bound - k
    {
      k := k + 1;
      var sat;
      sat, reported := FindColoring(m, k, oracle);
      if sat {
        break;
      }
    }
  }
}
