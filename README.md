# satcolor: chromatic number of a column-intersection graph, in Dafny

`color.py` reads a 0/1 sparsity pattern. It builds the graph with one node per
column and an edge between two columns that have a non-zero in a common row.
It then finds the least number of colours for a proper colouring of that graph.
For k = 1, 2, … it encodes "the graph has a proper k-colouring" as boolean
clauses over the variables "node n has colour c". It asks the z3 solver about
them and stops at the first k the solver finds satisfiable, printing the colour
of every node.

This project models that program and proves:

- the input reader keeps exactly the digits of each line, in order;
- the two intersection tests mean what their names say;
- the edge loops produce exactly the intersecting pairs i < j, in increasing
  order;
- the three clause families are satisfied exactly by the models of proper
  k-colourings (soundness and completeness), have the documented sizes, and
  are built correctly by the loops;
- the search stops, at the least k ≥ 1 that admits a proper colouring, and no
  later than k = max(1, number of columns).

Modules, one per part of `color.py`:

- `Matrices` (matrix.dfy): the matrix, `np.any`, `np.logical_and`, the
  transpose, `is_col_intersecting` and `is_row_intersecting`.
- `MatrixInput` (matrix_input.dfy): `file_to_adj_matrix` on a sequence of lines.
- `Graphs` (graph.dfy): the edge loops of `find_coloring`, and proper colourings
  of the graph and of the matrix.
- `Cnf` (cnf.dfy): variables, literals, clauses, `Satisfies`, and the contract
  that stands for the solver.
- `Encoding` (encoding.dfy): the three clause families, the loops that build
  them, and their meaning, sizes, soundness and completeness.
- `Search` (search.dfy): reading the model, `find_coloring`, and the
  `while True` loop.
- `Wrappers` (wrappers.dfy): `Option`.

The z3 solver is a parameter `oracle: Formula -> Option<Assignment>`. Callers
must supply one that satisfies `SoundOracle`: `Some(model)` only with a model
that satisfies the formula, and `None` only when no assignment does. Solving
itself is not modelled.

Three points of the code's behaviour, which the model follows:

- With no columns the search returns k = 1, not 0. The loop starts at 1 and
  the empty formula is satisfiable.
- There is no upper bound on k and no "not found" outcome. Instead the model
  proves the loop ends by k = max(1, columns).
- Reading the model prints every true colour variable. It does not raise an
  error on an inconsistent model. `ExtractColours` returns the same lists, and
  soundness shows each list has exactly one entry.

## Model

| member | source | states |
|---|---|---|
| `Matrices.Any` | color.py:31 | `np.any`: true iff some entry of the vector is true |
| `Matrices.ColIntersecting` | color.py:24-31 | true iff some row has a true entry in both columns (computed as in the source, via `Column` for `matrix[:, c]`, `LogicalAnd` for `np.logical_and` and `Any`) |
| `Matrices.Transpose` | color.py:38 | the transpose has the swapped shape, and entry (r, c) of the matrix is entry (c, r) of it |
| `Matrices.RowIntersecting` | color.py:33-38 | the column test on the transpose is true iff some column has a true entry in both rows |
| `Matrices.ColIntersectingSymmetric` | color.py:24-31 | the column test gives the same answer with its two columns swapped |
| `Matrices.TransposeInvolutive` | color.py:38 | transposing twice gives back the same matrix |
| `Matrices.ColIsRowOfTranspose` | color.py:24-38 | dually, the column test equals the row test on the transposed matrix |
| `MatrixInput.ParseLineAppend` | color.py:21 | parsing a concatenation of two texts is the concatenation of their parses |
| `MatrixInput.ParseLineKeepsDigits` | color.py:17-21 | `ParseLine` (the comprehension, with `IsDigit` for `isdigit`) gives one entry per digit character of a line, in order; an entry is false iff its digit is '0'; other characters give nothing |
| `MatrixInput.DigitPositions` | color.py:21 | lists each index of a digit character exactly once, in increasing order, and no other index |
| `MatrixInput.ParseLineNoDigits` | color.py:21 | a line with no digit, such as a blank line, gives an empty row |
| `MatrixInput.ParseMatrix` | color.py:20-22 | one row per line, row i is the parse of line i, the column count is the first row's length (0 for no lines), and the result is a well-formed matrix; None exactly when two lines have different numbers of digits |
| `MatrixInput.DocumentedExample` | color.py:13-16 | the documented example "10", "01" gives [[true, false], [false, true]] |
| `Graphs.BuildEdges` | color.py:48-52 | every listed pair is i < j < cols with intersecting columns; every such pair is listed; pairs come in strictly increasing lexicographic order, so there are no self-loops and no duplicates |
| `Graphs.SortedSameEdges` | color.py:49-50 | two strictly ordered edge lists holding the same pairs are equal |
| `Graphs.EdgesOfUnique` | color.py:48-52 | the loops' output is determined by the matrix, down to its order |
| `Graphs.ColumnsMeetRowOrder` | color.py:24-31 | whether two columns meet is the same after any reordering of the rows |
| `Graphs.EdgesOfRowOrder` | color.py:48-52 | a list is the edge list of a matrix iff it is the edge list of the matrix with its rows reordered |
| `Graphs.EdgesOfValid` | color.py:47-52 | every edge joins two distinct nodes among the column nodes |
| `Graphs.ProperIffMatrixProper` | color.py:47-52 | a colouring is proper for the derived graph iff intersecting columns always get different colours |
| `Graphs.ColourableIffMatrixColourable` | color.py:47-52 | so the derived graph is k-colourable iff the matrix's columns are |
| `Graphs.DistinctColours` | color.py:47-52 | with at least as many colours as columns, a proper colouring exists (each column its own colour) |
| `Graphs.ColourableMonotone` | color.py:95-100 | a proper colouring with k colours is also one with any j ≥ k colours |
| `Cnf.SatisfiesAppend` | color.py:82-84 | the solver's conjunction of the three added lists holds iff each part holds |
| `Encoding.NotBothMeaning` | color.py:65 | the clause Or(Not v1, Not v2) holds iff v1 and v2 are not both true |
| `Encoding.EdgeClausesMeaning` | color.py:62-65 | one edge's clauses hold iff the two ends share no colour below c |
| `Encoding.AdjacentNotSameMeaning` | color.py:60-65 | the adjacent_not_same family holds iff no edge has the same colour at both ends |
| `Encoding.AtLeastOneClauseMeaning` | color.py:69-72 | a node's disjunction holds iff the node has some colour below k |
| `Encoding.AtLeastOneColourMeaning` | color.py:67-72 | the at_least_one_color family holds iff every node has a colour |
| `Encoding.AtMostOneRowMeaning` | color.py:77-79 | the clauses for colour i and every later colour j hold iff the node does not have i together with any such j |
| `Encoding.AtMostOneNodeMeaning` | color.py:76-79 | a node's clauses hold iff it has no two colours c < d below k (for c below i) |
| `Encoding.AtMostOneColourMeaning` | color.py:74-79 | the at_most_one_color family holds iff no node has two colours |
| `Encoding.EncodeMeaning` | color.py:60-84 | an assignment satisfies the formula iff adjacent nodes never share a colour, every node has a colour, and no node has two |
| `Encoding.TrueColoursMeaning` | color.py:86-89 | the colours reported for a node are exactly the colours below k whose variable is true, each once, in increasing order |
| `Encoding.TrueColoursSingle` | color.py:86-89 | when the model gives a node exactly one colour c, the node is reported with [c] |
| `Encoding.TrueColoursNone` | color.py:86-89 | when no colour below k is true for a node, nothing is reported for it |
| `Encoding.FirstColour` | color.py:86-89 | the least true colour below k of a node (k if there is none); no smaller colour is true |
| `Encoding.Decode` | color.py:86-89 | the colouring read from a model has one colour per node |
| `Encoding.Soundness` | color.py:60-89 | a model of the formula gives every node exactly one colour below k; the decoded colouring is proper, and it is what gets reported |
| `Encoding.Completeness` | color.py:60-79 | the assignment "var(n, c) iff colour(n) = c" of any proper k-colouring satisfies every clause, and decoding it gives the colouring back |
| `Encoding.SatisfiableIffColourable` | color.py:60-85 | the formula is satisfiable iff the graph has a proper k-colouring |
| `Encoding.EncodeMonotone` | color.py:95-100 | if the formula for k is satisfiable, so is the formula for k + 1 |
| `Encoding.EdgeClausesCount` | color.py:62-65 | one edge contributes one clause per colour |
| `Encoding.AdjacentNotSameCount` | color.py:60-65 | adjacent_not_same has exactly \|edges\| · k clauses |
| `Encoding.AtLeastOneClauseSize` | color.py:69-71 | a node's disjunction has one literal per colour |
| `Encoding.AtLeastOneColourCount` | color.py:67-72 | at_least_one_color has one clause per node, each with k literals |
| `Encoding.AtMostOneRowCount` | color.py:77-79 | for colour i, the inner loop adds one clause per colour j with i < j |
| `Encoding.AtMostOneNodeCount` | color.py:76-79 | the first i rows of a node add i(2k − i − 1)/2 clauses |
| `Encoding.AtMostOneColourCount` | color.py:74-79 | at_most_one_color has exactly \|nodes\| · k(k − 1)/2 clauses |
| `Encoding.DeclareVars` | color.py:55-58 | vs holds every (node, colour) variable with node < \|nodes\| and colour < k, once each, node by node; nodes · k in all |
| `Encoding.BuildAdjacentNotSame` | color.py:60-65 | the loop's list is the adjacent_not_same family, whose meaning and size are proved above |
| `Encoding.BuildAtLeastOne` | color.py:67-72 | the loop's list is the at_least_one_color family |
| `Encoding.BuildAtMostOne` | color.py:74-79 | the loop's list is the at_most_one_color family |
| `Search.ExtractColours` | color.py:85-89 | for every node, the list of colours whose variable the model makes true |
| `Search.FindColoring` | color.py:40-92 | returns true iff the column-intersection graph has a proper k-colouring; on true, every node is reported with exactly one colour below k and intersecting columns get different colours |
| `Search.ColourSearch` | color.py:95-100 | k starts at 1 and goes up by one; the loop stops at a k with 1 ≤ k ≤ max(1, cols) that has a reported proper colouring, and no smaller k ≥ 1 has one (the chromatic number, or 1 when there are no columns) |

## Left out

- File I/O and the command line are not modelled: `open`, `sys.argv` and the usage message (color.py:7-8, 20, 94). The reader works on a sequence of lines held in memory.
- `str.isdigit` accepts every Unicode digit character (Numeric_Type Decimal or Digit), such as '²' or '①'. `MatrixInput.IsDigit` accepts only '0' to '9', so such a character is dropped here but read as a true entry by the source.
- numpy gives an empty file the shape (1, 0); `ParseMatrix` gives it (0, 0). Either way there are no columns, so the search result is the same.
- Rows of different lengths make numpy raise an error. `ParseMatrix` returns None in that case, and the rest of the model takes a well-formed matrix.
- The z3 calls `Solver`, `add`, `check` and `model().eval` (color.py:81-88) are foreign code. They are replaced by the oracle contract `SoundOracle`. A z3 answer of `unknown`, which the source treats like `unsat`, is not modelled: the oracle is assumed to always decide.
- Variables are `Var(node, colour)` pairs instead of the strings `'%s%s' % (node, color)`. Node names are "n" plus a number and colour names are "c" plus a number, so different pairs get different strings and nothing changes.
- `Search.FindColoring`: for k = 0 and at least one column the model answers false, while the source would fail in `z3.Or([])` (color.py:72), which has no context to build in. The only call passes k ≥ 1 (color.py:97-99). With no columns the two agree: no disjunction is built and the answer is true.
- Printing is not modelled (color.py:89, 98). The per-node colour lines are returned by `ExtractColours` and `FindColoring` instead.
- `find_coloring` reads the global `adj_matrix` rather than its `matrix` parameter (color.py:45, 51). The only call passes `adj_matrix` itself, so the model passes the matrix explicitly.
