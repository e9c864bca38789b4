/**
 * Reading the sparsity pattern (file_to_adj_matrix in color.py): every line
 * becomes a row, every decimal digit of the line one entry.
 */
module MatrixInput {
  import opened Wrappers
  import opened Matrices

  /** A decimal digit character. */
  predicate IsDigit(ch: char) {
    '0' <= ch <= '9'
  }

  /** One line: digits are kept in order, '0' reads as false, every other digit as true. */
  function ParseLine(line: string): (row: seq<bool>)
    ensures |row| <= |line|
  {
    if line == [] then []
    else (if IsDigit(line[0]) then [line[0] != '0'] else []) + ParseLine(line[1..])
  }

  /** The indices of the digit characters of a line, in increasing order. */
  function DigitPositions(line: string): (ps: seq<nat>)
    ensures forall t :: 0 <= t < |ps| ==> ps[t] < |line| && IsDigit(line[ps[t]])
    ensures forall t, u :: 0 <= t < u < |ps| ==> ps[t] < ps[u]
    ensures forall i :: 0 <= i < |line| && IsDigit(line[i]) ==> i in ps
  {
    if line == [] then []
    else
      var init := line[..|line| - 1];
      assert forall i :: 0 <= i < |init| ==> init[i] == line[i];
      DigitPositions(init) + (if IsDigit(line[|line| - 1]) then [|line| - 1] else [])
  }

  /** Parsing a line is parsing its two halves one after the other. */
  lemma {:induction false} ParseLineAppend(s: string, t: string)
    ensures ParseLine(s + t) == ParseLine(s) + ParseLine(t)
  {
    if s == [] {
      assert s + t == t;
    } else {
      var head := if IsDigit(s[0]) then [s[0] != '0'] else [];
      assert (s + t)[0] == s[0] && (s + t)[1..] == s[1..] + t;
      calc {
        ParseLine(s + t);
        head + ParseLine(s[1..] + t);
        { ParseLineAppend(s[1..], t); }
        head + (ParseLine(s[1..]) + ParseLine(t));
        head + ParseLine(s[1..]) + ParseLine(t);
        ParseLine(s) + ParseLine(t);
      }
    }
  }

  /**
   * A line yields exactly one entry per digit character, in the order of the
   * characters: the t-th entry is false iff the t-th digit is '0'.
   */
  lemma {:induction false} ParseLineKeepsDigits(line: string)
    ensures |ParseLine(line)| == |DigitPositions(line)|
    ensures forall t :: 0 <= t < |ParseLine(line)| ==>
              ParseLine(line)[t] == (line[DigitPositions(line)[t]] != '0')
  {
    if line != [] {
      var init, last := line[..|line| - 1], line[|line| - 1];
      assert line == init + [last];
      ParseLineAppend(init, [last]);
      ParseLineKeepsDigits(init);
      assert ParseLine([last]) == if IsDigit(last) then [last != '0'] else [] by {
        assert [last][1..] == [];
      }
      assert forall i :: 0 <= i < |init| ==> init[i] == line[i];
    }
  }

  /** A line without digits, such as a blank line, contributes an empty row. */
  lemma {:induction false} ParseLineNoDigits(line: string)
    requires forall i :: 0 <= i < |line| ==> !IsDigit(line[i])
    ensures ParseLine(line) == []
  {
    if line != [] {
      ParseLineNoDigits(line[1..]);
    }
  }

  /** All rows have the same number of entries as the first. */
  predicate Uniform(rows: seq<seq<bool>>) {
    forall r :: 0 <= r < |rows| ==> |rows[r]| == |rows[0]|
  }

  /**
   * The whole input, one line per row, turned into a matrix. Rows of unequal
   * length cannot form a matrix (numpy rejects them): the result is then None.
   */
  function ParseMatrix(lines: seq<string>): (r: Option<Matrix>)
    ensures r.None? <==>
              exists i, j :: 0 <= i < |lines| && 0 <= j < |lines| &&
                |ParseLine(lines[i])| != |ParseLine(lines[j])|
    ensures r.Some? ==>
              && r.value.Valid()
              && r.value.rows == |lines|
              && r.value.cols == (if lines == [] then 0 else |ParseLine(lines[0])|)
              && (forall i :: 0 <= i < |lines| ==> r.value.cells[i] == ParseLine(lines[i]))
  {
    var rows := seq(|lines|, i requires 0 <= i < |lines| => ParseLine(lines[i]));
    assert forall i :: 0 <= i < |lines| ==> rows[i] == ParseLine(lines[i]);
    if Uniform(rows) then
      Some(Matrix(|rows|, if rows == [] then 0 else |rows[0]|, rows))
    else
      None
  }

  /** The example of the reader's documentation: "10" and "01" give the 2 x 2 identity pattern. */
  lemma DocumentedExample()
    ensures ParseMatrix(["10\n", "01\n"]) == Some(Matrix(2, 2, [[true, false], [false, true]]))
  {
    var l0, l1 := "10\n", "01\n";
    assert ParseLine(l0) == [true, false] by {
      assert l0[1..] == "0\n" && l0[1..][1..] == "\n" && l0[1..][1..][1..] == [];
    }
    assert ParseLine(l1) == [false, true] by {
      assert l1[1..] == "1\n" && l1[1..][1..] == "\n" && l1[1..][1..][1..] == [];
    }
    var lines := [l0, l1];
    assert forall i :: 0 <= i < |lines| ==> |ParseLine(lines[i])| == 2;
    var r := ParseMatrix(lines);
    assert r.value.cells[0] == [true, false] && r.value.cells[1] == [false, true];
    assert r.value.cells == [[true, false], [false, true]];
  }
}
