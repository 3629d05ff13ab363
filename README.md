# SMORT Sudoku solver — a Dafny model

SMORT ("Sudoku Meets Optimized Recursive Traversal") is a terminal Sudoku
editor and solver. The board is a flat array of 81 integers, cell (row, col)
at index `row * 9 + col`, 0 meaning empty. A parallel array of 81 booleans,
`constant_map`, marks the cells the user typed in. The user enters and deletes
digits, resets the board, asks for a solve (plain or visualized, showing each
candidate), or "unsolves" (empties every cell not marked as given).

This project models, in Dafny:

- `Grid` (grid.dfy): the board as `seq<int>`, cell addressing, the Sudoku rule
  (`Peers`, `SudokuAllows`, `Consistent`, `SolvedGrid`), and the number of
  empty cells, which is the solver's termination measure.
- `Validator` (validator.dfy): `is_valid` as the method `IsValid`, proved equal
  to `Accepts`, which is the row, column and box scans written as predicates.
  The box scan follows the code exactly. A box cell is skipped when its local
  offset `i` or `j` (0..2) equals the target's absolute `row` or `col`.
- `EmptyCell` (empty_cell.dfy): `find_empty_box` as the method `FindEmptyBox`,
  proved equal to `FirstEmpty`. This is the first zero cell in row-major order.
- `Solver` (solver.dfy): `recursive_solve` as the recursive method
  `RecursiveSolve` over an `array<int>`. It is proved against the function
  `Solve`/`TryDigits`, which tries digits 1 to 9 in order at the first empty
  cell. `unsolve_board` is the method `UnsolveBoard`, proved against the
  function `Unsolved`. The soundness and completeness lemmas are also here.
- `Game` (game.dfy): the class `Session`, which holds the board, the map and
  the `GameState`. It has one method per board edit and state change.
  `WaitEntry` is the command dispatch and `Step` is one turn of the main loop.
  The value-level functions `AfterSolve`, `AfterEntry` and `AfterStep` say
  what each turn leaves behind.

Four behaviours of the code that a reader may not expect, each modelled as written:

- The box check is kept as written. It differs from the Sudoku rule only when
  the target cell already holds the candidate value and both `row >= 3` and
  `col >= 3` (`BoxCheckSeesTarget`, `BoxCheckQuirkExample`). The solver calls
  `is_valid` only at an empty cell with a digit 1..9. There the check is
  exactly the Sudoku rule (`AcceptsAtEmptyCell`), so the quirk never changes
  what the program does.
- A board with no empty cell is reported solved at once, whatever it holds.
  "Solved implies a correct Sudoku" is therefore proved only for a consistent
  board of digits 0..9 (`SolveSound`).
- Reset zeroes the board and leaves `constant_map` as it was
  (`ResetKeepsMarks`). Cells can then stay marked as given while empty.
- The solver's result never depends on `constant_map`: `recursive_solve`
  passes it only to the display, which colours the given cells during a
  visualized solve. The solver fills every empty cell, marked or not.

The program's integers are `i32`. Every index stays in 0..80, and every cell
holds 0..9: this is part of the session invariant (`Digits` in
`Session.Valid` and `Snapshot.Valid`), which every command keeps. So no
arithmetic can overflow, and the model uses unbounded `int`.

## Model

| member | source | states |
|---|---|---|
| Grid.Index | src/main.rs:185 | a cell's row-major index lies in 0..80 and gives back its row (`k / 9`) and column (`k % 9`) |
| Grid.EntryIndex | src/main.rs:261-262 | the index written for a 1-based row and column in 1..9 lies in 0..80 and decodes to row-1 and col-1 |
| Grid.ZeroCountPlace | src/main.rs:129-131 | placing a digit in an empty cell leaves exactly one fewer empty cell, so each recursive call has one fewer zero |
| Validator.Accepts | src/main.rs:152-179 | the value `is_valid` returns: the row scan, the column scan and the as-written box scan all pass |
| Validator.IsValid | src/main.rs:152-179 | the three scans with early returns give exactly `Accepts`: the row, column and as-written box checks together; the board is a value and cannot change |
| Validator.RowOrColumnClashRejects | src/main.rs:154-164 | val at another column of the row, or at another row of the column, makes the check fail |
| Validator.AcceptsIsSudokuRule | src/main.rs:152-179 | unless the target already holds val with row >= 3 and col >= 3, the check holds iff no other cell of the row, column or box holds val |
| Validator.AcceptsAtEmptyCell | src/main.rs:129 | at an empty target with val in 1..9, the check holds iff val is absent from the target's row, column and box |
| Validator.BoxCheckSeesTarget | src/main.rs:166-177 | a target already holding val with row >= 3 and col >= 3 is rejected, because local offsets are compared with absolute coordinates |
| Validator.BoxCheckQuirkExample | src/main.rs:166-177 | a concrete board (a lone 5 at the centre cell) on which the Sudoku rule allows 5 at (4, 4) and the check refuses it |
| Validator.FirstRowExample | src/main.rs:154-158 | with first row 5 3 _ _ 7, 5 is refused at (0, 3) and 4 is accepted |
| EmptyCell.FirstZeroFrom | src/main.rs:183-190 | the first index at or after k with a zero cell: zero there, no zero before it; None iff no zero from k on |
| EmptyCell.FirstEmpty | src/main.rs:182-191 | Some((r, c)) only for an empty cell with every earlier row-major cell filled; None exactly when no cell is empty |
| EmptyCell.FindEmptyBox | src/main.rs:182-191 | the nested scan returns `FirstEmpty` of its board |
| Solver.Solve | src/main.rs:112-140 | a returned board has no empty cell, keeps every non-empty input cell and puts only digits 1..9 into empty ones |
| Solver.TryDigits | src/main.rs:117-136 | the same for the digit loop: a board found from digit d on keeps the input's cells and fills every empty one with 1..9 |
| Solver.RecursiveSolve | src/main.rs:112-140 | returns true iff `Solve` succeeds; then the array holds `Solve`'s board; on false the array equals its input (each placement undone); the visualize writes and the map do not affect either |
| Solver.PlaceKeepsConsistent | src/main.rs:129-130 | writing a digit the Sudoku rule allows into an empty cell keeps a consistent board consistent |
| Solver.SolveSound | src/main.rs:112-140 | from a consistent board of digits 0..9, a board the solver returns is a correctly solved Sudoku |
| Solver.TryDigitsSound | src/main.rs:117-136 | the digit loop returns only correctly solved grids from a consistent board of digits |
| Solver.CompletionAllows | src/main.rs:129 | the digit a solved grid extending b puts at an empty cell of b is one the Sudoku rule allows on b |
| Solver.SolveComplete | src/main.rs:112-140 | whenever some solved grid keeps all of the board's digits, the solver succeeds |
| Solver.TryDigitsComplete | src/main.rs:117-136 | the digit loop succeeds from any digit not above the digit that a solved extension has at the cell |
| Solver.FailureMeansNoCompletion | src/main.rs:139 | the solver returns false only when no solved grid keeps all of the board's digits |
| Solver.SolveFindsUniqueCompletion | src/main.rs:112-140 | a puzzle with exactly one solution is solved to that solution |
| Solver.SolveKeepsDigits | src/main.rs:112-140 | from a board of digits 0..9, the solver's board holds only digits 1..9 |
| Solver.Unsolved | src/main.rs:143-149 | the board `unsolve_board` leaves, as long as its input; what each cell holds is proved in `UnsolveClearsOnlyUnmarked` |
| Solver.UnsolveClearsOnlyUnmarked | src/main.rs:143-149 | after unsolving, a cell is empty iff it was unmarked or already empty, and every marked cell keeps its value |
| Solver.UnsolveIdempotent | src/main.rs:143-149 | unsolving twice is the same as unsolving once |
| Solver.UnsolveUndoesSolve | src/main.rs:143-149 | when the map marks exactly the puzzle's non-empty cells, unsolving the solved board gives the puzzle back |
| Solver.UnsolveBoard | src/main.rs:143-149 | the loop leaves the array equal to `Unsolved` of its old contents and the map |
| Solver.EmptyBoardRoundTrip | src/main.rs:112-149 | the empty board is solved to a correct Sudoku, and unsolving with no givens empties it again |
| Game.AfterSolve | src/main.rs:98-109 | the state becomes Solved iff the solver succeeds, NotSolvable otherwise; NotSolvable keeps the board; the map never changes |
| Game.AfterEntry | src/main.rs:48-57 | the session after each `wait_entry` arm; it keeps the session invariant (81 cells, 81 marks, cells 0..9) |
| Game.AfterStep | src/main.rs:28-33 | the session after one loop turn: the entry dispatch while waiting, back to waiting after a status, unchanged after Quit; keeps the invariant |
| Game.SolvedSessionIsSudoku | src/main.rs:104-105 | a solve on a session whose digits are consistent reports Solved only with a correctly solved Sudoku |
| Game.EditsChangeOnlyTheirCell | src/main.rs:261-313 | Enter writes val and marks the cell (the writes at lines 261-262); Delete writes 0 and unmarks it (lines 312-313); no other cell, mark or state changes |
| Game.ResetKeepsMarks | src/main.rs:50 | Reset leaves all 81 cells empty and the map and state unchanged |
| Game.VisualizeIsSolve | src/main.rs:52-53 | the visualized solve leaves the same session as the plain solve |
| Game.SolveThenAcknowledge | src/main.rs:28-31 | after a solve command the state is Solved or NotSolvable, and the next turn only returns to WaitingEntry |
| Game.QuitIsFinal | src/main.rs:32 | once the state is Quit, no command changes the session |
| Game.Session.constructor | src/main.rs:20-22 | the session starts with 81 empty cells, no marks, waiting for entry |
| Game.Session.AddNumber | src/main.rs:261-262 | the array gets val at the entered cell and the map gets true there; nothing else changes |
| Game.Session.DeleteNumber | src/main.rs:312-313 | the entered cell is set to 0 and unmarked; nothing else changes |
| Game.Session.ResetBoard | src/main.rs:50 | every cell becomes 0; the map and the state are unchanged |
| Game.Session.SolveBoard | src/main.rs:98-109 | the session afterwards is `AfterSolve` of the session before |
| Game.Session.UnsolveBoard | src/main.rs:54 | the board becomes `Unsolved` of its old contents and the map; the map is unchanged |
| Game.Session.IsSolved | src/main.rs:64-68 | the state returns to WaitingEntry; the board and map are untouched |
| Game.Session.NoSolution | src/main.rs:71-75 | the state returns to WaitingEntry; the board and map are untouched |
| Game.Session.WaitEntry | src/main.rs:38-61 | each command changes the session exactly as `AfterEntry` says |
| Game.Session.Step | src/main.rs:24-34 | one turn of the loop changes the session exactly as `AfterStep` says |

## Left out

- Terminal output: `print_board`, `print_options`, clearing the screen, and the
  frames that the visualized solve prints. This is display only. The
  visualized solve's write of the candidate and its restore are modelled.
- Reading and parsing stdin in `wait_entry`, `add_number` and `delete_number`.
  A parsed command is the `Command` value passed to `WaitEntry`. The prompts'
  guarantee that row, column and value are in 1..9 is the precondition
  `WellFormed`. A read failure aborts the process; this is not modelled.
- `thread::sleep` in `is_solved`, `no_solution` and the visualized solve. These
  are wall-clock pauses only.
- The `main` loop itself. `Step` models one turn of it with the display removed.
  Leaving the loop on Quit is modelled as a session that no longer changes.
- `i32` arithmetic: indices and cell values stay far inside the `i32` range,
  so the model uses unbounded integers without wrap-around.
