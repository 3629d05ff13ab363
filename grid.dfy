/** The Sudoku board: 81 integer cells laid out row by row, cell (row, col)
    at index row * 9 + col, 0 meaning empty and 1..9 a digit. */
module Grid {

  datatype Option<T> = None | Some(value: T)

  /** A board value has exactly 81 cells. */
  predicate IsBoard(b: seq<int>) {
    |b| == 81
  }

  /** Zero-based coordinates of a cell. */
  predicate InRange(row: int, col: int) {
    0 <= row < 9 && 0 <= col < 9
  }

  /** The cell at zero-based (row, col) of the row-major board. */
  function Cell(b: seq<int>, row: int, col: int): int
    requires IsBoard(b) && InRange(row, col)
  {
    b[row * 9 + col]
  }

  /** Row-major index of a zero-based cell; the coordinates can be read back from it. */
  function Index(row: int, col: int): (k: int)
    requires InRange(row, col)
    ensures 0 <= k < 81
    ensures k / 9 == row && k % 9 == col
  {
    row * 9 + col
  }

  /** Index written by the Enter and Delete commands for 1-based row and column. */
  function EntryIndex(row: int, col: int): (k: int)
    requires 1 <= row <= 9 && 1 <= col <= 9
    ensures 0 <= k < 81
    ensures k / 9 == row - 1 && k % 9 == col - 1
  {
    (row - 1) * 9 + col - 1
  }

  /** Two distinct cells that share a row, a column or a 3x3 box. */
  predicate Peers(r1: int, c1: int, r2: int, c2: int) {
    (r1 != r2 || c1 != c2) &&
    (r1 == r2 || c1 == c2 || (r1 / 3 == r2 / 3 && c1 / 3 == c2 / 3))
  }

  /** The Sudoku rule for placing v at (row, col): no other cell of its row,
      its column or its box holds v. */
  ghost predicate SudokuAllows(b: seq<int>, v: int, row: int, col: int)
    requires IsBoard(b)
  {
    forall r, c :: InRange(r, c) && Peers(row, col, r, c) ==> Cell(b, r, c) != v
  }

  /** Every digit on the board obeys the Sudoku rule (empty cells are unconstrained). */
  ghost predicate Consistent(b: seq<int>)
    requires IsBoard(b)
  {
    forall r, c :: InRange(r, c) && Cell(b, r, c) != 0 ==> SudokuAllows(b, Cell(b, r, c), r, c)
  }

  /** Every cell holds a digit 1..9. */
  predicate Filled(b: seq<int>)
    requires IsBoard(b)
  {
    forall k :: 0 <= k < 81 ==> 1 <= b[k] <= 9
  }

  /** Every cell is empty or holds a digit: what the board edits can produce. */
  predicate Digits(b: seq<int>)
    requires IsBoard(b)
  {
    forall k :: 0 <= k < 81 ==> 0 <= b[k] <= 9
  }

  /** A completely and correctly solved Sudoku. */
  ghost predicate SolvedGrid(s: seq<int>) {
    IsBoard(s) && Filled(s) && Consistent(s)
  }

  /** s keeps every non-empty cell of b. */
  predicate Extends(s: seq<int>, b: seq<int>)
    requires IsBoard(s) && IsBoard(b)
  {
    forall k :: 0 <= k < 81 && b[k] != 0 ==> s[k] == b[k]
  }

  predicate NoZeros(b: seq<int>) {
    forall k :: 0 <= k < |b| ==> b[k] != 0
  }

  /** Number of empty cells: the measure that the solver's recursion decreases. */
  function ZeroCount(s: seq<int>): nat {
    if s == [] then 0 else (if s[0] == 0 then 1 else 0) + ZeroCount(s[1..])
  }

  /** Filling one empty cell removes exactly one empty cell. */
  lemma {:induction false} ZeroCountPlace(s: seq<int>, k: int, d: int)
    requires 0 <= k < |s| && s[k] == 0 && d != 0
    ensures ZeroCount(s[k := d]) == ZeroCount(s) - 1
  {
    if k == 0 {
      assert s[k := d][1..] == s[1..];
    } else {
      assert s[k := d][1..] == s[1..][k - 1 := d];
      ZeroCountPlace(s[1..], k - 1, d);
    }
  }
}
