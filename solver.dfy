/** The backtracking solver `recursive_solve` and the `unsolve_board` clean-up. */
module Solver {
  import opened Grid
  import opened Validator
  import opened EmptyCell

  /** s is b with every empty cell holding a digit 1..9 and every other cell unchanged. */
  predicate Completes(s: seq<int>, b: seq<int>)
    requires IsBoard(b)
  {
    IsBoard(s) && Extends(s, b) && forall k :: 0 <= k < 81 && b[k] == 0 ==> 1 <= s[k] <= 9
  }

  /** What `recursive_solve` computes: the first board found by filling the
      first empty cell with the digits 1..9 in order, each accepted by
      `is_valid`, and recursing; None when every branch fails. */
  function Solve(b: seq<int>): (r: Option<seq<int>>)
    requires IsBoard(b)
    ensures r.Some? ==> Completes(r.value, b) && NoZeros(r.value)
    decreases ZeroCount(b), 1, 0
  {
    match FirstEmpty(b)
    case None => Some(b)
    case Some((row, col)) => TryDigits(b, row, col, 1)
  }

  /** The `for i in 1..10` loop of `recursive_solve` from digit d on, at the
      empty cell (row, col). */
  function TryDigits(b: seq<int>, row: int, col: int, d: int): (r: Option<seq<int>>)
    requires IsBoard(b) && InRange(row, col) && Cell(b, row, col) == 0 && 1 <= d <= 10
    ensures r.Some? ==> Completes(r.value, b) && NoZeros(r.value)
    decreases ZeroCount(b), 0, 10 - d
  {
    if d == 10 then None
    else if Accepts(b, d, row, col) then
      ZeroCountPlace(b, row * 9 + col, d);
      match Solve(b[row * 9 + col := d])
      case Some(s) => Some(s)
      case None => TryDigits(b, row, col, d + 1)
    else TryDigits(b, row, col, d + 1)
  }

  /** `recursive_solve`. The board is changed in place; on success it holds
      Solve's board, on failure it is restored to its input because every
      placement is undone. Neither the display flag nor the map of givens
      has any influence on the outcome. */
  method RecursiveSolve(board: array<int>, constantMap: seq<bool>, visualize: bool) returns (solved: bool)
    requires board.Length == 81
    modifies board
    ensures solved == Solve(old(board[..])).Some?
    ensures solved ==> board[..] == Solve(old(board[..])).value
    ensures !solved ==> board[..] == old(board[..])
    decreases ZeroCount(board[..])
  {
    var next := FindEmptyBox(board[..]);
    match next {
      case None =>
        return true;
      case Some((row, col)) =>
        ghost var b := board[..];
        var p := row * 9 + col;
        assert b[p] == 0;
        for i := 1 to 10
          invariant board[..] == b
          invariant TryDigits(b, row, col, 1) == TryDigits(b, row, col, i)
        {
          if visualize {
            // The candidate is shown on the display, then taken back.
            board[p] := i;
            board[p] := 0;
            assert board[..] == b[p := 0] == b;
          }
          var ok := IsValid(board[..], i, row, col);
          if ok {
            board[p] := i;
            ZeroCountPlace(b, p, i);
            var found := RecursiveSolve(board, constantMap, visualize);
            if found {
              return true;
            }
            board[p] := 0;
            assert board[..] == b[p := i][p := 0] == b;
          }
        }
    }
    return false;
  }

  /** Writing digit d at an empty cell where the Sudoku rule allows it keeps a
      consistent board consistent. */
  lemma PlaceKeepsConsistent(b: seq<int>, row: int, col: int, d: int)
    requires IsBoard(b) && InRange(row, col) && Cell(b, row, col) == 0 && d != 0
    requires Consistent(b) && SudokuAllows(b, d, row, col)
    ensures Consistent(b[row * 9 + col := d])
  {
    var p := Index(row, col);
    var b' := b[p := d];
    forall r, c | InRange(r, c) && Cell(b', r, c) != 0
      ensures SudokuAllows(b', Cell(b', r, c), r, c)
    {
      var q := Index(r, c);
      forall r2, c2 | InRange(r2, c2) && Peers(r, c, r2, c2)
        ensures Cell(b', r2, c2) != Cell(b', r, c)
      {
        var q2 := Index(r2, c2);
        if q == p {
          assert Peers(row, col, r2, c2);
        } else if q2 == p {
          assert Peers(row, col, r, c);
        } else {
          assert SudokuAllows(b, Cell(b, r, c), r, c);
        }
      }
    }
  }

  /** Soundness: from a consistent board of digits, a board the solver
      returns is a correctly solved Sudoku. */
  lemma {:induction false} SolveSound(b: seq<int>)
    requires IsBoard(b) && Digits(b) && Consistent(b) && Solve(b).Some?
    ensures SolvedGrid(Solve(b).value)
    decreases ZeroCount(b), 1, 0
  {
    match FirstEmpty(b)
    case None =>
    case Some((row, col)) => TryDigitsSound(b, row, col, 1);
  }

  lemma {:induction false} TryDigitsSound(b: seq<int>, row: int, col: int, d: int)
    requires IsBoard(b) && InRange(row, col) && Cell(b, row, col) == 0 && 1 <= d <= 10
    requires Digits(b) && Consistent(b) && TryDigits(b, row, col, d).Some?
    ensures SolvedGrid(TryDigits(b, row, col, d).value)
    decreases ZeroCount(b), 0, 10 - d
  {
    if d < 10 {
      var b' := b[row * 9 + col := d];
      if Accepts(b, d, row, col) && Solve(b').Some? {
        AcceptsAtEmptyCell(b, d, row, col);
        PlaceKeepsConsistent(b, row, col, d);
        ZeroCountPlace(b, row * 9 + col, d);
        SolveSound(b');
      } else {
        TryDigitsSound(b, row, col, d + 1);
      }
    }
  }

  /** In a solved grid that extends b, the digit at an empty cell of b is one
      the Sudoku rule allows on b. */
  lemma CompletionAllows(b: seq<int>, s: seq<int>, row: int, col: int)
    requires IsBoard(b) && SolvedGrid(s) && Extends(s, b)
    requires InRange(row, col) && Cell(b, row, col) == 0
    ensures SudokuAllows(b, Cell(s, row, col), row, col)
  {
    assert SudokuAllows(s, Cell(s, row, col), row, col);
    forall r, c | InRange(r, c) && Peers(row, col, r, c)
      ensures Cell(b, r, c) != Cell(s, row, col)
    {
      assert Cell(s, r, c) != Cell(s, row, col);
    }
  }

  /** Completeness: whenever some correctly solved grid keeps all of b's
      digits, the solver succeeds on b. */
  lemma {:induction false} SolveComplete(b: seq<int>, s: seq<int>)
    requires IsBoard(b) && SolvedGrid(s) && Extends(s, b)
    ensures Solve(b).Some?
    decreases ZeroCount(b), 1, 0
  {
    match FirstEmpty(b)
    case None =>
    case Some((row, col)) =>
      assert 1 <= s[row * 9 + col];
      TryDigitsComplete(b, row, col, 1, s);
  }

  lemma {:induction false} TryDigitsComplete(b: seq<int>, row: int, col: int, d: int, s: seq<int>)
    requires IsBoard(b) && InRange(row, col) && Cell(b, row, col) == 0 && 1 <= d <= 10
    requires SolvedGrid(s) && Extends(s, b) && d <= Cell(s, row, col)
    ensures TryDigits(b, row, col, d).Some?
    decreases ZeroCount(b), 0, 10 - d
  {
    var p := Index(row, col);
    var b' := b[p := d];
    assert Cell(s, row, col) <= 9;
    if Accepts(b, d, row, col) && Solve(b').Some? {
    } else if d < Cell(s, row, col) {
      TryDigitsComplete(b, row, col, d + 1, s);
    } else {
      CompletionAllows(b, s, row, col);
      AcceptsAtEmptyCell(b, d, row, col);
      ZeroCountPlace(b, p, d);
      assert Extends(s, b');
      SolveComplete(b', s);
      assert false;
    }
  }

  /** A board the solver returns from a board of digits holds only digits 1..9. */
  lemma SolveKeepsDigits(b: seq<int>)
    requires IsBoard(b) && Digits(b) && Solve(b).Some?
    ensures Filled(Solve(b).value)
  {
    var s := Solve(b).value;
    assert Completes(s, b) && NoZeros(s);
    forall k | 0 <= k < 81
      ensures 1 <= s[k] <= 9
    {
      if b[k] != 0 {
        assert s[k] == b[k];
      }
    }
  }

  /** The solver reports failure only when no correctly solved grid keeps all of b's digits. */
  lemma FailureMeansNoCompletion(b: seq<int>, s: seq<int>)
    requires IsBoard(b) && Solve(b).None?
    ensures !(SolvedGrid(s) && Extends(s, b))
  {
    if SolvedGrid(s) && Extends(s, b) {
      SolveComplete(b, s);
    }
  }

  /** The digits of a board that a solved grid extends are already consistent. */
  lemma ExtendedBoardConsistent(b: seq<int>, s: seq<int>)
    requires IsBoard(b) && SolvedGrid(s) && Extends(s, b)
    ensures Consistent(b)
  {
    forall r, c | InRange(r, c) && Cell(b, r, c) != 0
      ensures SudokuAllows(b, Cell(b, r, c), r, c)
    {
      assert SudokuAllows(s, Cell(s, r, c), r, c);
    }
  }

  /** A puzzle with exactly one solution is solved to that solution. */
  lemma SolveFindsUniqueCompletion(b: seq<int>, s: seq<int>)
    requires IsBoard(b) && SolvedGrid(s) && Extends(s, b)
    requires forall t :: SolvedGrid(t) && Extends(t, b) ==> t == s
    ensures Solve(b) == Some(s)
  {
    SolveComplete(b, s);
    ExtendedBoardConsistent(b, s);
    SolveSound(b);
    var t := Solve(b).value;
    forall k | 0 <= k < 81
      ensures 1 <= t[k] <= 9
    {
      if b[k] != 0 {
        assert t[k] == b[k] == s[k];
      }
    }
    assert Extends(t, b);
  }

  /** The board after `unsolve_board`: cells not marked as given become empty. */
  function Unsolved(b: seq<int>, constantMap: seq<bool>): (r: seq<int>)
    requires |b| == |constantMap|
    ensures |r| == |b|
  {
    seq(|b|, i requires 0 <= i < |b| => if constantMap[i] then b[i] else 0)
  }

  /** Unsolving empties exactly the cells not marked as given (and those that
      were empty already) and keeps every given. */
  lemma UnsolveClearsOnlyUnmarked(b: seq<int>, constantMap: seq<bool>)
    requires |b| == |constantMap|
    ensures forall i :: 0 <= i < |b| ==> (Unsolved(b, constantMap)[i] == 0 <==> !constantMap[i] || b[i] == 0)
    ensures forall i :: 0 <= i < |b| && constantMap[i] ==> Unsolved(b, constantMap)[i] == b[i]
  {
  }

  /** Unsolving twice is the same as unsolving once. */
  lemma UnsolveIdempotent(b: seq<int>, constantMap: seq<bool>)
    requires |b| == |constantMap|
    ensures Unsolved(Unsolved(b, constantMap), constantMap) == Unsolved(b, constantMap)
  {
  }

  /** When the map marks exactly the non-empty cells of the puzzle, unsolving
      the solver's board gives the puzzle back. */
  lemma UnsolveUndoesSolve(b: seq<int>, constantMap: seq<bool>)
    requires IsBoard(b) && |constantMap| == 81
    requires forall i :: 0 <= i < 81 ==> (constantMap[i] <==> b[i] != 0)
    requires Solve(b).Some?
    ensures Unsolved(Solve(b).value, constantMap) == b
  {
    var s := Solve(b).value;
    assert Completes(s, b);
    forall i | 0 <= i < 81
      ensures Unsolved(s, constantMap)[i] == b[i]
    {
    }
  }

  /** `unsolve_board`: the map arrives by value; cells not marked as given are zeroed in place. */
  method UnsolveBoard(board: array<int>, constantMap: seq<bool>)
    requires board.Length == 81 && |constantMap| == 81
    modifies board
    ensures board[..] == Unsolved(old(board[..]), constantMap)
  {
    for i := 0 to 81
      invariant forall k :: 0 <= k < i ==> board[k] == (if constantMap[k] then old(board[k]) else 0)
      invariant forall k :: i <= k < 81 ==> board[k] == old(board[k])
    {
      if !constantMap[i] {
        board[i] := 0;
      }
    }
  }

  /** A fixed solved grid: cell (r, c) holds (3 (r mod 3) + r / 3 + c) mod 9 + 1. */
  function Pattern(r: int, c: int): int
    requires InRange(r, c)
  {
    (3 * (r % 3) + r / 3 + c) % 9 + 1
  }

  function PatternGrid(): (s: seq<int>)
    ensures IsBoard(s) && Filled(s)
  {
    seq(81, k requires 0 <= k < 81 => Pattern(k / 9, k % 9))
  }

  lemma ModNineDiffer(x: int, y: int)
    requires 0 <= x && 0 <= y && x != y && -9 < x - y < 9
    ensures x % 9 != y % 9
  {
  }

  lemma PatternPeersDiffer(r: int, c: int, r2: int, c2: int)
    requires InRange(r, c) && InRange(r2, c2) && Peers(r, c, r2, c2)
    ensures Pattern(r, c) != Pattern(r2, c2)
  {
    ModNineDiffer(3 * (r % 3) + r / 3 + c, 3 * (r2 % 3) + r2 / 3 + c2);
  }

  lemma PatternGridSolved()
    ensures SolvedGrid(PatternGrid())
  {
    var g := PatternGrid();
    forall r, c, r2, c2 | InRange(r, c) && InRange(r2, c2) && Peers(r, c, r2, c2)
      ensures Cell(g, r2, c2) != Cell(g, r, c)
    {
      var k, k2 := Index(r, c), Index(r2, c2);
      assert Cell(g, r, c) == Pattern(r, c);
      assert Cell(g, r2, c2) == Pattern(r2, c2);
      PatternPeersDiffer(r, c, r2, c2);
    }
  }

  /** The empty board is solved to a correct Sudoku, and unsolving it with an
      empty map of givens empties it again. */
  lemma EmptyBoardRoundTrip()
    ensures var z := seq(81, _ => 0);
            Solve(z).Some? && SolvedGrid(Solve(z).value) &&
            Unsolved(Solve(z).value, seq(81, _ => false)) == z
  {
    var z := seq(81, _ => 0);
    PatternGridSolved();
    SolveComplete(z, PatternGrid());
    SolveSound(z);
    UnsolveUndoesSolve(z, seq(81, _ => false));
  }
}
