/** The candidate check `is_valid`: a row scan, a column scan and a 3x3 box
    scan over a copy of the board, each with an early `false`. The box scan is
    kept as the program writes it: it skips a box cell when the LOCAL offsets
    i, j (0..2) equal the ABSOLUTE row or column of the target. */
module Validator {
  import opened Grid

  /** The cell at local offset (i, j) inside the 3x3 box that holds (row, col). */
  function BoxCell(b: seq<int>, row: int, col: int, i: int, j: int): int
    requires IsBoard(b) && InRange(row, col) && 0 <= i < 3 && 0 <= j < 3
  {
    Cell(b, row / 3 * 3 + i, col / 3 * 3 + j)
  }

  /** The row scan finds val in no column other than col. */
  predicate RowCheck(b: seq<int>, val: int, row: int, col: int)
    requires IsBoard(b) && InRange(row, col)
  {
    forall i :: 0 <= i < 9 ==> !(Cell(b, row, i) == val && col != i)
  }

  /** The column scan finds val in no row other than row. */
  predicate ColumnCheck(b: seq<int>, val: int, row: int, col: int)
    requires IsBoard(b) && InRange(row, col)
  {
    forall i :: 0 <= i < 9 ==> !(Cell(b, i, col) == val && row != i)
  }

  /** The box scan as written: a box cell holding val rejects unless its local
      row offset equals row or its local column offset equals col. */
  predicate BoxCheck(b: seq<int>, val: int, row: int, col: int)
    requires IsBoard(b) && InRange(row, col)
  {
    forall i, j :: 0 <= i < 3 && 0 <= j < 3 ==> !(BoxCell(b, row, col, i, j) == val && row != i && col != j)
  }

  /** What `is_valid` returns. */
  predicate Accepts(b: seq<int>, val: int, row: int, col: int)
    requires IsBoard(b) && InRange(row, col)
  {
    RowCheck(b, val, row, col) && ColumnCheck(b, val, row, col) && BoxCheck(b, val, row, col)
  }

  /** `is_valid`: the board is passed by value, so nothing is changed. */
  method IsValid(board: seq<int>, val: int, row: int, col: int) returns (ok: bool)
    requires IsBoard(board) && InRange(row, col)
    ensures ok == Accepts(board, val, row, col)
  {
    // Check the row
    for i := 0 to 9
      invariant forall i' :: 0 <= i' < i ==> !(Cell(board, row, i') == val && col != i')
    {
      if board[row * 9 + i] == val && col != i {
        assert Cell(board, row, i) == val;
        return false;
      }
    }
    // Check the column
    for i := 0 to 9
      invariant forall i' :: 0 <= i' < i ==> !(Cell(board, i', col) == val && row != i')
    {
      if board[i * 9 + col] == val && row != i {
        assert Cell(board, i, col) == val;
        return false;
      }
    }
    // Check the 3x3 box
    var squareRow := row / 3;
    var squareCol := col / 3;
    for i := 0 to 3
      invariant forall i', j :: 0 <= i' < i && 0 <= j < 3 ==> !(BoxCell(board, row, col, i', j) == val && row != i' && col != j)
    {
      for j := 0 to 3
        invariant forall i', j' :: 0 <= i' < i && 0 <= j' < 3 ==> !(BoxCell(board, row, col, i', j') == val && row != i' && col != j')
        invariant forall j' :: 0 <= j' < j ==> !(BoxCell(board, row, col, i, j') == val && row != i && col != j')
      {
        if board[(squareRow * 3 + i) * 9 + squareCol * 3 + j] == val && row != i && col != j {
          assert BoxCell(board, row, col, i, j) == val;
          return false;
        }
      }
    }
    return true;
  }

  /** A copy of val elsewhere in the target's row, or elsewhere in its column,
      always makes the check fail. */
  lemma RowOrColumnClashRejects(b: seq<int>, val: int, row: int, col: int, r: int, c: int)
    requires IsBoard(b) && InRange(row, col) && InRange(r, c)
    requires Cell(b, r, c) == val
    requires (r == row && c != col) || (c == col && r != row)
    ensures !Accepts(b, val, row, col)
  {
  }

  /** Except when the target itself already holds val with row >= 3 and
      col >= 3, the check is exactly the Sudoku rule. */
  lemma AcceptsIsSudokuRule(b: seq<int>, val: int, row: int, col: int)
    requires IsBoard(b) && InRange(row, col)
    requires Cell(b, row, col) != val || row < 3 || col < 3
    ensures Accepts(b, val, row, col) <==> SudokuAllows(b, val, row, col)
  {
    var br, bc := row / 3 * 3, col / 3 * 3;
    if Accepts(b, val, row, col) {
      forall r, c | InRange(r, c) && Peers(row, col, r, c)
        ensures Cell(b, r, c) != val
      {
        if r == row {
          assert !(Cell(b, row, c) == val && col != c);
        } else if c == col {
          assert !(Cell(b, r, col) == val && row != r);
        } else {
          assert !(BoxCell(b, row, col, r - br, c - bc) == val && row != r - br && col != c - bc);
        }
      }
    }
    if SudokuAllows(b, val, row, col) {
      forall i, j | 0 <= i < 3 && 0 <= j < 3
        ensures !(BoxCell(b, row, col, i, j) == val && row != i && col != j)
      {
        if br + i != row || bc + j != col {
          assert Peers(row, col, br + i, bc + j);
        }
      }
      forall i | 0 <= i < 9
        ensures !(Cell(b, row, i) == val && col != i)
      {
        assert i != col ==> Peers(row, col, row, i);
      }
      forall i | 0 <= i < 9
        ensures !(Cell(b, i, col) == val && row != i)
      {
        assert i != row ==> Peers(row, col, i, col);
      }
    }
  }

  /** At the solver's call (the target is empty and val is a digit) the check
      decides exactly whether the Sudoku rule allows val there. */
  lemma AcceptsAtEmptyCell(b: seq<int>, val: int, row: int, col: int)
    requires IsBoard(b) && InRange(row, col)
    requires Cell(b, row, col) == 0 && 1 <= val <= 9
    ensures Accepts(b, val, row, col) <==> SudokuAllows(b, val, row, col)
  {
    AcceptsIsSudokuRule(b, val, row, col);
  }

  /** The box scan does not skip the target cell when row >= 3 and col >= 3,
      so a target already holding val is rejected there. */
  lemma BoxCheckSeesTarget(b: seq<int>, val: int, row: int, col: int)
    requires IsBoard(b) && InRange(row, col)
    requires Cell(b, row, col) == val && row >= 3 && col >= 3
    ensures !Accepts(b, val, row, col)
  {
    assert BoxCell(b, row, col, row % 3, col % 3) == val;
  }

  /** A concrete board on which the check and the Sudoku rule disagree: a
      single 5 at the centre cell (4, 4), checked against itself. */
  lemma BoxCheckQuirkExample()
    ensures var b := seq(81, k => if k == 40 then 5 else 0);
            IsBoard(b) && SudokuAllows(b, 5, 4, 4) && !Accepts(b, 5, 4, 4)
  {
    var b := seq(81, k => if k == 40 then 5 else 0);
    forall r, c | InRange(r, c) && Peers(4, 4, r, c)
      ensures Cell(b, r, c) != 5
    {
      assert r * 9 + c != 40;
    }
    BoxCheckSeesTarget(b, 5, 4, 4);
  }

  /** A first row 5 3 _ _ 7 _ _ _ _ over an otherwise empty board: 5 is
      refused at (0, 3) because the row already has one, 4 is accepted. */
  lemma FirstRowExample()
    ensures var b := [5, 3, 0, 0, 7] + seq(76, _ => 0);
            IsBoard(b) && !Accepts(b, 5, 0, 3) && Accepts(b, 4, 0, 3)
  {
    var b := [5, 3, 0, 0, 7] + seq(76, _ => 0);
    assert Cell(b, 0, 0) == 5;
    forall r, c | InRange(r, c)
      ensures Cell(b, r, c) != 4
    {
      assert b[r * 9 + c] in {0, 3, 5, 7};
    }
  }
}
