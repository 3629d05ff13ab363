/** The session that `main` owns: the board, the map of user-given cells and
    the game state, with the edits that `wait_entry` dispatches to and the
    state changes of `solve_board`, `is_solved` and `no_solution`. */
module Game {
  import opened Grid
  import Solver

  datatype GameState = Solved | NotSolvable | WaitingEntry | Quit

  /** A command as `wait_entry` receives it once its input has been read and
      parsed: 'E', 'D', 'R', 'S', 'V', 'U', 'Q', or anything else. Row,
      column and value are the 1-based numbers the prompts accept. */
  datatype Command =
    | Enter(row: int, col: int, val: int)
    | Delete(row: int, col: int)
    | Reset
    | Solve
    | Visualize
    | Unsolve
    | Quit
    | Unrecognized
  {
    /** The prompts re-ask until each number is in 1..9. */
    predicate WellFormed() {
      match this
      case Enter(row, col, val) => 1 <= row <= 9 && 1 <= col <= 9 && 1 <= val <= 9
      case Delete(row, col) => 1 <= row <= 9 && 1 <= col <= 9
      case _ => true
    }
  }

  /** The whole session as a value. Every cell is empty or a digit, since
      only Enter, the solver and the clearing commands write cells. */
  datatype Snapshot = Snapshot(board: seq<int>, constantMap: seq<bool>, state: GameState) {
    predicate Valid() {
      |board| == 81 && |constantMap| == 81 && Digits(board)
    }
  }

  /** What the solve commands leave behind: the solver's board and Solved, or
      the restored board and NotSolvable. */
  function AfterSolve(s: Snapshot): (r: Snapshot)
    requires s.Valid()
    ensures r.Valid() && r.constantMap == s.constantMap
    ensures r.state == Solved <==> Solver.Solve(s.board).Some?
    ensures r.state == NotSolvable <==> Solver.Solve(s.board).None?
    ensures r.state == NotSolvable ==> r.board == s.board
    ensures r.state == Solved ==> NoZeros(r.board) && Solver.Completes(r.board, s.board)
  {
    match Solver.Solve(s.board)
    case Some(solution) =>
      Solver.SolveKeepsDigits(s.board);
      s.(board := solution, state := Solved)
    case None => s.(state := NotSolvable)
  }

  /** The effect of one command handled by `wait_entry`. */
  function AfterEntry(cmd: Command, s: Snapshot): (r: Snapshot)
    requires s.Valid() && cmd.WellFormed()
    ensures r.Valid()
  {
    match cmd
    case Enter(row, col, val) =>
      s.(board := s.board[EntryIndex(row, col) := val],
         constantMap := s.constantMap[EntryIndex(row, col) := true])
    case Delete(row, col) =>
      s.(board := s.board[EntryIndex(row, col) := 0],
         constantMap := s.constantMap[EntryIndex(row, col) := false])
    case Reset => s.(board := seq(81, _ => 0))
    case Solve => AfterSolve(s)
    case Visualize => AfterSolve(s)
    case Unsolve => s.(board := Solver.Unsolved(s.board, s.constantMap))
    case Quit => s.(state := GameState.Quit)
    case Unrecognized => s
  }

  /** One turn of the `main` loop: `wait_entry` while waiting, otherwise the
      status message returns to waiting; after Quit the loop has stopped. */
  function AfterStep(cmd: Command, s: Snapshot): (r: Snapshot)
    requires s.Valid() && cmd.WellFormed()
    ensures r.Valid()
  {
    match s.state
    case WaitingEntry => AfterEntry(cmd, s)
    case Solved => s.(state := WaitingEntry)
    case NotSolvable => s.(state := WaitingEntry)
    case Quit => s
  }

  /** Enter writes its value and marks the cell as given; Delete empties the
      cell and unmarks it; no other cell and no other entry of the map changes. */
  lemma EditsChangeOnlyTheirCell(cmd: Command, s: Snapshot, k: int)
    requires s.Valid() && cmd.WellFormed() && (cmd.Enter? || cmd.Delete?) && 0 <= k < 81
    ensures var r := AfterEntry(cmd, s);
            var e := EntryIndex(cmd.row, cmd.col);
            r.state == s.state &&
            (k == e ==> r.board[k] == (if cmd.Enter? then cmd.val else 0) && r.constantMap[k] == cmd.Enter?) &&
            (k != e ==> r.board[k] == s.board[k] && r.constantMap[k] == s.constantMap[k])
  {
  }

  /** Reset empties every cell but keeps the map of given cells, so cells can
      stay marked as given while empty. */
  lemma ResetKeepsMarks(s: Snapshot)
    requires s.Valid()
    ensures var r := AfterEntry(Reset, s);
            ZeroCount(r.board) == 81 && r.constantMap == s.constantMap && r.state == s.state
  {
    var z := AfterEntry(Reset, s).board;
    ZeroRun(z, 0);
    assert z[0..] == z;
  }

  /** An all-zero board has 81 - n empty cells from index n on. */
  lemma {:induction false} ZeroRun(z: seq<int>, n: int)
    requires |z| == 81 && 0 <= n <= 81 && forall k :: 0 <= k < 81 ==> z[k] == 0
    ensures ZeroCount(z[n..]) == 81 - n
    decreases 81 - n
  {
    if n < 81 {
      ZeroRun(z, n + 1);
      assert z[n..][1..] == z[n + 1..];
    }
  }

  /** A solve command on a session whose digits break no Sudoku rule ends,
      when it reports Solved, with a correctly solved Sudoku. */
  lemma SolvedSessionIsSudoku(s: Snapshot)
    requires s.Valid() && Consistent(s.board)
    ensures var r := AfterSolve(s);
            r.state == Solved ==> SolvedGrid(r.board)
  {
    if Solver.Solve(s.board).Some? {
      Solver.SolveSound(s.board);
    }
  }

  /** Both solve commands leave the session that `AfterSolve` describes.
      This holds because `AfterEntry` sends both to `AfterSolve`; the proof
      that the display flag changes nothing is the contract of
      `Solver.RecursiveSolve`, which does not mention the flag and is
      verified over the visualized write and restore of each candidate. */
  lemma VisualizeIsSolve(s: Snapshot)
    requires s.Valid()
    ensures AfterEntry(Visualize, s) == AfterEntry(Solve, s)
  {
  }

  /** After a solve command, the next turn shows the outcome and goes back to
      waiting with the board as the solver left it. */
  lemma SolveThenAcknowledge(cmd: Command, next: Command, s: Snapshot)
    requires s.Valid() && s.state == WaitingEntry && (cmd.Solve? || cmd.Visualize?) && next.WellFormed()
    ensures var r := AfterStep(cmd, s);
            r.state != WaitingEntry &&
            AfterStep(next, r) == r.(state := WaitingEntry)
  {
  }

  /** Once Quit is reached no command changes anything. */
  lemma QuitIsFinal(cmd: Command, s: Snapshot)
    requires s.Valid() && s.state == GameState.Quit && cmd.WellFormed()
    ensures AfterStep(cmd, s) == s
  {
  }

  /** The state that `main` owns and hands to the commands by reference. */
  class Session {
    var board: array<int>
    var constantMap: array<bool>
    var state: GameState

    ghost predicate Valid()
      reads this, board
    {
      board.Length == 81 && constantMap.Length == 81 && Digits(board[..])
    }

    /** The session as a value. */
    function View(): (s: Snapshot)
      reads this, board, constantMap
      requires Valid()
      ensures s.Valid()
    {
      Snapshot(board[..], constantMap[..], state)
    }

    /** The start of `main`: an empty board, no given cells, waiting for entry. */
    constructor ()
      ensures Valid() && fresh(board) && fresh(constantMap)
      ensures View() == Snapshot(seq(81, _ => 0), seq(81, _ => false), WaitingEntry)
    {
      board := new int[81](_ => 0);
      constantMap := new bool[81](_ => false);
      state := WaitingEntry;
    }

    /** The writes at the end of `add_number`, for row, col and val as the prompts accept them. */
    method AddNumber(row: int, col: int, val: int)
      requires Valid() && 1 <= row <= 9 && 1 <= col <= 9 && 1 <= val <= 9
      modifies board, constantMap
      ensures Valid()
      ensures board[..] == old(board[..])[EntryIndex(row, col) := val]
      ensures constantMap[..] == old(constantMap[..])[EntryIndex(row, col) := true]
    {
      board[(row - 1) * 9 + col - 1] := val;
      constantMap[(row - 1) * 9 + col - 1] := true;
    }

    /** The writes at the end of `delete_number`. */
    method DeleteNumber(row: int, col: int)
      requires Valid() && 1 <= row <= 9 && 1 <= col <= 9
      modifies board, constantMap
      ensures Valid()
      ensures board[..] == old(board[..])[EntryIndex(row, col) := 0]
      ensures constantMap[..] == old(constantMap[..])[EntryIndex(row, col) := false]
    {
      board[(row - 1) * 9 + col - 1] := 0;
      constantMap[(row - 1) * 9 + col - 1] := false;
    }

    /** The 'R' command: the whole board is zeroed, the map is left as it is. */
    method ResetBoard()
      requires Valid()
      modifies board
      ensures Valid()
      ensures board[..] == seq(81, _ => 0)
      ensures unchanged(constantMap)
    {
      forall i | 0 <= i < 81 {
        board[i] := 0;
      }
    }

    /** `solve_board`: run the solver on the board and record the outcome. */
    method SolveBoard(visualize: bool)
      requires Valid()
      modifies this`state, board
      ensures Valid()
      ensures View() == AfterSolve(old(View()))
    {
      var solved := Solver.RecursiveSolve(board, constantMap[..], visualize);
      if solved {
        state := Solved;
      } else {
        state := NotSolvable;
      }
    }

    /** The 'U' command: `unsolve_board` with a copy of the map. */
    method UnsolveBoard()
      requires Valid()
      modifies board
      ensures Valid()
      ensures board[..] == Solver.Unsolved(old(board[..]), constantMap[..])
      ensures unchanged(constantMap)
    {
      Solver.UnsolveBoard(board, constantMap[..]);
    }

    /** `is_solved`: after the message, back to waiting. */
    method IsSolved()
      requires Valid()
      modifies this`state
      ensures Valid() && state == WaitingEntry
    {
      state := WaitingEntry;
    }

    /** `no_solution`: after the message, back to waiting. */
    method NoSolution()
      requires Valid()
      modifies this`state
      ensures Valid() && state == WaitingEntry
    {
      state := WaitingEntry;
    }

    /** `wait_entry` once the command has been read. */
    method WaitEntry(cmd: Command)
      requires Valid() && cmd.WellFormed()
      modifies this`state, board, constantMap
      ensures Valid()
      ensures View() == AfterEntry(cmd, old(View()))
    {
      match cmd
      case Enter(row, col, val) => AddNumber(row, col, val);
      case Reset => ResetBoard();
      case Delete(row, col) => DeleteNumber(row, col);
      case Solve => SolveBoard(false);
      case Visualize => SolveBoard(true);
      case Unsolve => UnsolveBoard();
      case Quit => state := GameState.Quit;
      case Unrecognized =>
    }

    /** One turn of the `main` loop, with the display left out. */
    method Step(cmd: Command)
      requires Valid() && cmd.WellFormed()
      modifies this`state, board, constantMap
      ensures Valid()
      ensures View() == AfterStep(cmd, old(View()))
    {
      match state
      case WaitingEntry => WaitEntry(cmd);
      case Solved => IsSolved();
      case NotSolvable => NoSolution();
      case Quit =>
    }
  }
}
