# Sudoku board and backtracking solver

A model of the `Sudoku` class in `main.cpp`. It holds an N x N Sudoku board,
loads clues, answers the validity query `checkValid` and runs the
backtracking solver `solve`.

- The board is the `(size + 1) x (size + 1)` grid of the source. It is
  1-indexed, so row 0 and column 0 exist but are never part of the playing
  field. In the model this grid is an `array2<int>` inside the class
  `SudokuBoard.Sudoku`.
- `Cells()` reads the array as a value of type `Rules.Grid`
  (`seq<seq<int>>`). Every method is specified through that value.
- The box dimension `numberOfBoxes` is the integer square root of `size`,
  rounded down.
- The solver is proved against `Search.Solution`, a pure function that
  performs the same search on grid values. The same row-major scan finds
  the first `EMPTY` cell. The candidates are tried in the same ascending
  order and filtered by the same validity query. The recursion runs on the
  whole board.
- About `Solution` the model proves:
  - soundness: the result extends the clues, is filled, and every value it
    placed clashes with nothing;
  - completeness: failure means the puzzle has no solution at all.
- From these, `Solve` promises the following about the board it started
  from:
  - on success, the board is a filled extension of the clues in which no
    placed value clashes with anything;
  - on failure, the board is bit-for-bit unchanged and no solution exists;
  - on a board with no `EMPTY` cell, it returns true and changes nothing.
- For consistent clues, `Search.SolutionCorrect` states the if-and-only-if:
  the search succeeds exactly when a solution exists.

Files:

- `box.dfy` (module `BoxArith`): the integer square root and the box-corner
  arithmetic.
- `rules.dfy` (module `Rules`): grids, cell updates, the validity predicate,
  the Sudoku constraints and the lemmas about one search step.
- `search.dfy` (module `Search`): the reference search and its soundness and
  completeness.
- `sudoku.dfy` (module `SudokuBoard`): the class.

The model follows what the code does, also where one might expect
something else:

- **Contradictory clues.** One might expect contradictory clues to make
  `solve` return false. Contradictory clues make `solve` fail only when no
  filling of the empty cells avoids clashing with them; otherwise `solve`
  returns true and the clue clash stays. On a board with no `EMPTY` cell it
  returns true whatever the clues: `Search.FullClashingBoardAccepted` shows
  this on the 4 x 4 board of all 1s. `Search.ClashingCluesWithEmptyCellAccepted`
  shows it on a 4 x 4 board with one empty cell and two 2s in its last row:
  the search places 1 in the empty cell and succeeds, although the puzzle has
  no solution.
- **Success contract.** On success, the board's placed values avoid every
  clash. Clue-against-clue clashes are not re-checked, so the success
  contract is `ClashesOnlyAmongClues`. It becomes full validity when the clues
  are consistent (`Rules.ConsistentClues`, `Search.SolutionCorrect`).
- **Row loading.** `add(row, nums)` overwrites cells without checking that
  they are `EMPTY`.

## Model

| member | source | states |
|---|---|---|
| BoxArith.FloorSqrt | main.cpp:44 | the box dimension `r` is the integer square root of `size`: `r*r <= size < (r+1)*(r+1)` |
| BoxArith.FloorSqrtOfSquare | main.cpp:44 | on a perfect square `k*k` the box dimension is exactly `k`, so the board and its boxes fit |
| BoxArith.SameBandIff | main.cpp:69-77 | index `i` lies in the `k` indices that start at `1 + (x-1)/k*k` exactly when `i` and `x` are in the same band of `k`; so the box scan visits precisely the box of `(row, col)` |
| BoxArith.BoxIndexInRange | main.cpp:69-73 | when `size == k*k`, every index the box scan reads, `minRow + r` and `minCol + c` for `0 <= r, c < k`, is inside `1..size` |
| BoxArith.BoxStart | main.cpp:69-70 | the box corner `1 + (x-1)/k*k` of row (or column) `x` is the multiple-of-`k`-aligned index `r` with `1 <= r <= x < r + k` |
| BoxArith.BoxScanOverrun | main.cpp:69-73 | for side 5 the box dimension is 2 and the box scan of row 5 reads past index 5, outside the board |
| Rules.EmptyGrid | main.cpp:45 | the freshly built board has every cell, row 0 and column 0 included, `EMPTY` |
| Rules.Place | main.cpp:49 | writing one cell sets exactly that cell and leaves every other cell unchanged |
| Rules.SetRow | main.cpp:54-56 | loading row `row` makes its column `j` hold `nums[j-1]` for `1 <= j <= size`; column 0 and all other rows are unchanged |
| Rules.UndoPlace | main.cpp:87-94 | writing `EMPTY` back over a value placed into an `EMPTY` cell restores the board exactly |
| Rules.PlaceShrinksEmpties | main.cpp:84-90 | filling an empty cell removes exactly that cell from the set of empty cells, so each recursive `solve` call has strictly fewer empty cells |
| Rules.ConflictRefused | main.cpp:59-79 | the validity query refuses any value held by a cell in the same row, column or box |
| Rules.CompletionStep | main.cpp:85-96 | the value a solution puts in the first empty cell is in `1..size`, passes the validity query, and that solution also solves the board with that value placed |
| Rules.AdvanceBound | main.cpp:85-96 | once the candidates below `v` are ruled out, a failed validity query or a failed recursion rules out `v` as well |
| Rules.CandidatesExhausted | main.cpp:97-98 | once all candidates `1..size` of an empty cell are ruled out, the puzzle has no solution |
| Rules.StepSound | main.cpp:86-92 | a success of the recursive call after placing an allowed value is a success at this level: the result extends the board and its placed values clash with nothing |
| Rules.ConsistentClues | main.cpp:81-103 | with consistent clues, a filled extension whose placed values clash with nothing is a valid solution |
| Rules.ClashingCluesUnsolvable | main.cpp:81-103 | a board whose clues clash has no solution |
| Search.FirstEmptyFrom | main.cpp:82-84 | the row-major scan from `(row, col)` returns the first `EMPTY` cell at or after it, with every cell in between filled; it returns none when all later cells are filled |
| Search.FirstEmpty | main.cpp:82-84 | the scan finds nothing exactly when the board is filled; otherwise it returns an `EMPTY` cell of the field before which every cell is filled |
| Search.FirstEmptyUnique | main.cpp:82-84 | an `EMPTY` cell with every earlier cell filled is the one the scan finds |
| Search.Solution | main.cpp:81-103 | the search on a board value: success with the board unchanged when no cell is `EMPTY`, otherwise the candidate loop at the first `EMPTY` cell from value 1; its own contract says a returned board is filled (soundness and completeness are the lemmas below) |
| Search.TryFrom | main.cpp:85-98 | the candidate loop from value `v`: failure past `size`; an allowed `v` whose recursive search succeeds gives that search's board; any other `v` moves on to `v + 1`; its own contract says a returned board is filled |
| Search.TryFromFound | main.cpp:86-92 | a one-step unfolding of `TryFrom`: an allowed candidate whose recursive search succeeds gives that search's board |
| Search.TryFromNext | main.cpp:86-96 | a one-step unfolding of `TryFrom`: a refused candidate, or one whose recursive search fails, gives the loop from the next value |
| Search.SolutionSound | main.cpp:81-103 | a successful search returns a filled board that keeps every clue, puts values `1..size` in the empty cells, and whose placed values clash with nothing |
| Search.TryFromSound | main.cpp:85-96 | the same for the candidate loop from any value `v` on |
| Search.SolutionComplete | main.cpp:81-103 | a failed search means the puzzle has no solution |
| Search.TryFromComplete | main.cpp:85-98 | a failed candidate loop from `v`, with every candidate below `v` already ruled out, means the puzzle has no solution |
| Search.SolutionCorrect | main.cpp:81-103 | with consistent clues, what the search returns is a solution, and the search fails if and only if no solution exists |
| Search.SolutionOfFilled | main.cpp:82-102 | on a board with no `EMPTY` cell the search succeeds and returns the board unchanged |
| Search.FullClashingBoardAccepted | main.cpp:82-102 | the filled 4 x 4 board of all 1s clashes and has no solution, yet the search accepts it unchanged |
| Search.ClashingCluesWithEmptyCellAccepted | main.cpp:82-102 | a 4 x 4 board with one `EMPTY` cell and clashing clues has no solution, yet the search fills the cell with 1 and succeeds |
| SudokuBoard.Sudoku.constructor | main.cpp:43-45 | sets `size`, sets `numberOfBoxes` to the floor square root of `size`, and allocates a `(size+1) x (size+1)` board with every cell `EMPTY` |
| SudokuBoard.Sudoku.Add | main.cpp:47-51 | requires the target cell to be `EMPTY`; the new board is the old one with that cell set to `num` |
| SudokuBoard.Sudoku.AddRow | main.cpp:52-58 | requires exactly `size` values; the new board is the old one with row `row`, columns `1..size`, loaded from `nums` |
| SudokuBoard.Sudoku.CheckValid | main.cpp:59-79 | returns true exactly when `num` occurs neither in the row, nor in the column, nor in the box of `(row, col)`, the target cell included; changes nothing |
| SudokuBoard.Sudoku.Solve | main.cpp:81-103 | returns `Solution(old board).Some?` and on success leaves its board; on success the board is a filled extension of the clues with no clash involving a placed value; on failure the board is unchanged and no solution exists; a board with no `EMPTY` cell is accepted unchanged |
| SudokuBoard.Sudoku.TryValues | main.cpp:85-98 | the candidate loop at the first empty cell computes `TryFrom` from value 1: its result, and its board on success; on failure the board is unchanged |
| SudokuBoard.Sudoku.TryValue | main.cpp:86-95 | one candidate succeeds exactly when it passes the validity query and the search from the board with it placed succeeds; on success the board is that search's result, and otherwise the value is undone |
| SudokuBoard.Sudoku.Store | main.cpp:87-94 | a single cell write: the new board is the old one with that cell set |

## Findings

| source | as written | input that shows it | evidently intended | confidence | as-written member | corrected member |
|---|---|---|---|---|---|---|
| main.cpp:44, main.cpp:69-73 | the box dimension is the truncated square root of `size`, and the box scan reads `numberOfBoxes` rows and columns from the box corner with no check that `size` is a perfect square | `Sudoku(5)`: `numberOfBoxes == 2`, and `checkValid(5, c, v)` (after the row and column loop passes) for a column `c` in `1..4` reads `board[6][...]`, past the last index 5 (for column 5 it first reads `board[5][6]`) | the side length is a perfect square, so every box lies inside the board | not executed | BoxArith.BoxScanOverrun | BoxArith.BoxIndexInRange |

The corrected model requires `Square(size, numberOfBoxes)`, that is
`numberOfBoxes * numberOfBoxes == size`, before `CheckValid` and `Solve`.
Under that requirement `BoxArith.BoxIndexInRange` proves that every box read
stays inside `1..size`.

## Left out

- `operator<<` (main.cpp:8-33), `main` (main.cpp:106-131) and the
  commented-out trace in `solve`: these are output and a demonstration
  driver, not board logic.
- `sqrt` is floating point. The model takes the exact integer square root
  rounded down, which is what the truncating cast yields for the sizes
  involved.
- C++ `int` overflow is not modelled. Indices and cell values are unbounded
  integers, and the board's dimensions are far below the limits.
- `add` returns `Sudoku&` so that calls can be chained. The model's `Add`
  and `AddRow` return nothing. Chaining is only a calling convenience, and
  successive calls have the same effect.
- The `assert`s in `add` are preconditions of `Add` and `AddRow`. So are the
  vector bounds: row and column within `0..size`, and for the query and the
  solver a field cell within `1..size`. A failing `assert` aborts the
  process, and that is not modelled.
- CheckValid: requires `size` to be a perfect square; the behaviour of the
  source for non-square sizes (wrong boxes, or reads outside the board) is
  only described by `BoxArith.BoxScanOverrun`.
- Solve: requires `size` to be a perfect square, for the same reason.
- Solve: the proof splits the body of `solve` into three methods. `Solve`
  is the scan, `TryValues` the candidate loop and `TryValue` one trial. All
  three are mutually recursive, and `Store` is the single cell write they
  use. The order of reads and writes is unchanged.
- Solve: the model states which board the search produces, not how long the
  search takes (exponential in the worst case) or how deep its recursion
  goes.
