/**
 * The boolean sparsity matrix and the two intersection tests of color.py
 * (is_col_intersecting and is_row_intersecting).
 */
module Matrices {

  /** A matrix of shape rows x cols, stored row by row, as numpy holds it. */
  datatype Matrix = Matrix(rows: nat, cols: nat, cells: seq<seq<bool>>)
  {
    /** The shape agrees with the cells: every row has exactly `cols` entries. */
    predicate Valid() {
      |cells| == rows && forall r :: 0 <= r < |cells| ==> |cells[r]| == cols
    }
  }

  /** Columns a and b have a true entry in a common row. */
  ghost predicate ColumnsMeet(m: Matrix, a: nat, b: nat)
    requires m.Valid() && a < m.cols && b < m.cols
  {
    exists r :: 0 <= r < m.rows && m.cells[r][a] && m.cells[r][b]
  }

  /** The column slice `matrix[:, c]`. */
  function Column(m: Matrix, c: nat): seq<bool>
    requires m.Valid() && c < m.cols
  {
    seq(m.rows, r requires 0 <= r < m.rows => m.cells[r][c])
  }

  /** Element-wise conjunction, as np.logical_and. */
  function LogicalAnd(x: seq<bool>, y: seq<bool>): seq<bool>
    requires |x| == |y|
  {
    seq(|x|, i requires 0 <= i < |x| => x[i] && y[i])
  }

  /** Some entry is true, as np.any. */
  function Any(s: seq<bool>): (r: bool)
    ensures r <==> exists i :: 0 <= i < |s| && s[i]
  {
    if s == [] then false
    else
      assert forall i :: 0 < i < |s| ==> s[i] == s[1..][i - 1];
      s[0] || Any(s[1..])
  }

  /** is_col_intersecting: the two columns share a row where both are true. */
  function ColIntersecting(m: Matrix, a: nat, b: nat): (r: bool)
    requires m.Valid() && a < m.cols && b < m.cols
    ensures r <==> ColumnsMeet(m, a, b)
  {
    var both := LogicalAnd(Column(m, a), Column(m, b));
    assert forall r :: 0 <= r < m.rows ==> both[r] == (m.cells[r][a] && m.cells[r][b]);
    Any(both)
  }

  /** matrix.transpose(): entry (r, c) moves to (c, r). */
  function Transpose(m: Matrix): (t: Matrix)
    requires m.Valid()
    ensures t.Valid() && t.rows == m.cols && t.cols == m.rows
    ensures forall r, c :: 0 <= r < m.rows && 0 <= c < m.cols ==> t.cells[c][r] == m.cells[r][c]
  {
    Matrix(m.cols, m.rows, seq(m.cols, c requires 0 <= c < m.cols => Column(m, c)))
  }

  /** is_row_intersecting: the two rows share a column where both are true. */
  function RowIntersecting(m: Matrix, a: nat, b: nat): (r: bool)
    requires m.Valid() && a < m.rows && b < m.rows
    ensures r <==> exists c :: 0 <= c < m.cols && m.cells[a][c] && m.cells[b][c]
  {
    var t := Transpose(m);
    assert forall c :: 0 <= c < m.cols ==> t.cells[c][a] == m.cells[a][c] && t.cells[c][b] == m.cells[b][c];
    ColIntersecting(t, a, b)
  }

  /** The column test does not depend on the order of its two columns. */
  lemma ColIntersectingSymmetric(m: Matrix, a: nat, b: nat)
    requires m.Valid() && a < m.cols && b < m.cols
    ensures ColIntersecting(m, a, b) == ColIntersecting(m, b, a)
  {
  }

  /** Transposing twice gives back the matrix. */
  lemma TransposeInvolutive(m: Matrix)
    requires m.Valid()
    ensures Transpose(Transpose(m)) == m
  {
    var tt := Transpose(Transpose(m));
    assert |tt.cells| == |m.cells|;
    forall r | 0 <= r < m.rows
      ensures tt.cells[r] == m.cells[r]
    {
      assert |tt.cells[r]| == |m.cells[r]|;
    }
  }

  /** Dually, the column test is the row test on the transposed matrix. */
  lemma ColIsRowOfTranspose(m: Matrix, a: nat, b: nat)
    requires m.Valid() && a < m.cols && b < m.cols
    ensures ColIntersecting(m, a, b) == RowIntersecting(Transpose(m), a, b)
  {
  }
}
