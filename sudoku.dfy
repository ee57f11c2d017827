/** The `Sudoku` class of main.cpp: an N x N board held in a 1-indexed grid,
    its clue-loading operations, its validity query and its backtracking
    solver. */
module SudokuBoard {
  import opened BoxArith
  import opened Rules
  import opened Search

  class Sudoku {
    /** The side length N. */
    const size: nat
    /** The box dimension, the square root of `size` rounded down. */
    const numberOfBoxes: nat
    /** The cells, indexed `0..size` in both directions; `1..size` is the
        playing field. */
    const board: array2<int>

    ghost predicate Valid() {
      board.Length0 == size + 1 && board.Length1 == size + 1
    }

    /** The board as a value. */
    ghost function Cells(): (g: Grid)
      requires Valid()
      reads board
      ensures WellFormed(g, size)
      ensures forall i, j :: 0 <= i <= size && 0 <= j <= size ==> g[i][j] == board[i, j]
    {
      seq(size + 1, i requires 0 <= i <= size reads board =>
        seq(size + 1, j requires 0 <= j <= size reads board => board[i, j]))
    }

    /** A board of side `size` with every cell `EMPTY`. */
    constructor (size: nat)
      ensures Valid() && fresh(board)
      ensures this.size == size && numberOfBoxes == FloorSqrt(size)
      ensures Cells() == EmptyGrid(size)
    {
      this.size := size;
      numberOfBoxes := FloorSqrt(size);
      board := new int[size + 1, size + 1]((_, _) => EMPTY);
      new;
      GridExt(Cells(), EmptyGrid(size), size);
    }

    /** Places one clue; the target cell must be `EMPTY`. */
    method Add(row: nat, col: nat, num: int)
      requires Valid() && row <= size && col <= size
      requires board[row, col] == EMPTY
      modifies board
      ensures Cells() == Place(old(Cells()), size, row, col, num)
    {
      ghost var before := Cells();
      board[row, col] := num;
      GridExt(Cells(), Place(before, size, row, col, num), size);
    }

    /** Stores `v` at `(row, col)`, as the solver does when it tries a value
        (main.cpp:87) and when it undoes one (main.cpp:94). */
    method Store(row: nat, col: nat, v: int)
      requires Valid() && row <= size && col <= size
      modifies board
      ensures Cells() == Place(old(Cells()), size, row, col, v)
    {
      ghost var before := Cells();
      board[row, col] := v;
      GridExt(Cells(), Place(before, size, row, col, v), size);
    }

    /** Loads a whole row of clues (`EMPTY` for an undetermined cell). */
    method AddRow(row: nat, nums: seq<int>)
      requires Valid() && row <= size && |nums| == size
      modifies board
      ensures Cells() == SetRow(old(Cells()), size, row, nums)
    {
      ghost var before := Cells();
      for i := 1 to size + 1
        invariant forall j :: 1 <= j < i ==> board[row, j] == nums[j - 1]
        invariant forall r, c :: 0 <= r <= size && 0 <= c <= size && (r != row || c == 0 || c >= i) ==>
          board[r, c] == before[r][c]
      {
        board[row, i] := nums[i - 1];
      }
      GridExt(Cells(), SetRow(before, size, row, nums), size);
    }

    /** Whether `num` may go at `(row, col)`: false when `num` already occurs
        in that row, that column or that box. Reads the board only. */
    method CheckValid(row: nat, col: nat, num: int) returns (ok: bool)
      requires Valid() && Square(size, numberOfBoxes)
      requires InField(size, row, col)
      ensures ok == Allowed(Cells(), size, numberOfBoxes, row, col, num)
    {
      ghost var g := Cells();
      for i := 1 to size + 1
        invariant forall j :: 1 <= j < i ==> g[row][j] != num && g[j][col] != num
      {
        if board[row, i] == num || board[i, col] == num {
          return false;
        }
      }
      var k := numberOfBoxes;
      assert k > 0;
      var minRow := BoxStart(row, k);
      var minCol := BoxStart(col, k);
      BoxIndexInRange(size, k, row, 0);
      BoxIndexInRange(size, k, row, k - 1);
      BoxIndexInRange(size, k, col, 0);
      BoxIndexInRange(size, k, col, k - 1);
      assert 1 <= minRow && minRow + k <= size + 1 && 1 <= minCol && minCol + k <= size + 1;
      for r := 0 to k
        invariant forall i, j :: minRow <= i < minRow + r && minCol <= j < minCol + k ==> g[i][j] != num
      {
        var boxRow := r + minRow;
        for c := 0 to k
          invariant forall i, j :: minRow <= i < minRow + r && minCol <= j < minCol + k ==> g[i][j] != num
          invariant forall j :: minCol <= j < minCol + c ==> g[boxRow][j] != num
        {
          if board[r + minRow, c + minCol] == num {
            SameBandIff(k, row, r + minRow);
            SameBandIff(k, col, c + minCol);
            assert SameBox(k, r + minRow, c + minCol, row, col);
            return false;
          }
        }
      }
      forall i, j | 1 <= i <= size && 1 <= j <= size && SameBox(k, i, j, row, col)
        ensures g[i][j] != num
      {
        SameBandIff(k, row, i);
        SameBandIff(k, col, j);
      }
      return true;
    }

    /** The backtracking search: fills the first `EMPTY` cell (row-major)
        with each value `1..size` in turn that passes `CheckValid`, recurses
        on the whole board, and undoes the value when the recursion fails.
        It computes `Solution` of the board it starts from; so on success
        the board is filled, keeps every clue and holds no clash that the
        clues did not already have, and on failure the board is unchanged
        and the puzzle has no solution. */
    method Solve() returns (solved: bool)
      requires Valid() && Square(size, numberOfBoxes)
      modifies board
      decreases Empties(Cells(), size), 2
      ensures solved == Solution(old(Cells()), size, numberOfBoxes).Some?
      ensures solved ==> Cells() == Solution(old(Cells()), size, numberOfBoxes).value
      ensures !solved ==> Cells() == old(Cells())
      ensures Filled(old(Cells()), size) ==> solved && Cells() == old(Cells())
      ensures solved ==> Extends(old(Cells()), Cells(), size) && Filled(Cells(), size)
      ensures solved ==> ClashesOnlyAmongClues(old(Cells()), Cells(), size, numberOfBoxes)
      ensures !solved ==> NoCompletion(old(Cells()), size, numberOfBoxes)
    {
      ghost var g0 := Cells();
      for row := 1 to size + 1
        invariant forall i, j :: 1 <= i < row && 1 <= j <= size ==> g0[i][j] != EMPTY
      {
        for col := 1 to size + 1
          invariant forall j :: 1 <= j < col ==> g0[row][j] != EMPTY
        {
          if board[row, col] == EMPTY {
            FirstEmptyUnique(g0, size, row, col);
            solved := TryValues(row, col);
            if solved {
              SolutionSound(g0, size, numberOfBoxes);
            } else {
              SolutionComplete(g0, size, numberOfBoxes);
            }
            return;
          }
        }
      }
      SolutionOfFilled(g0, size, numberOfBoxes);
      SolutionSound(g0, size, numberOfBoxes);
      return true;
    }

    /** The candidate loop of `solve` (main.cpp:85-98) at the first `EMPTY`
        cell `(row, col)`: computes `TryFrom` from value 1. */
    method TryValues(row: nat, col: nat) returns (solved: bool)
      requires Valid() && Square(size, numberOfBoxes) && InField(size, row, col)
      requires board[row, col] == EMPTY
      modifies board
      decreases Empties(Cells(), size), 1
      ensures solved == TryFrom(old(Cells()), size, numberOfBoxes, row, col, 1).Some?
      ensures solved ==> Cells() == TryFrom(old(Cells()), size, numberOfBoxes, row, col, 1).value
      ensures !solved ==> Cells() == old(Cells())
    {
      ghost var g0 := Cells();
      for option := 1 to size + 1
        invariant Cells() == g0
        invariant TryFrom(g0, size, numberOfBoxes, row, col, 1) == TryFrom(g0, size, numberOfBoxes, row, col, option)
      {
        var found := TryValue(row, col, option);
        if found {
          TryFromFound(g0, size, numberOfBoxes, row, col, option);
          return true;
        }
        TryFromNext(g0, size, numberOfBoxes, row, col, option);
      }
      return false;
    }

    /** One pass of the candidate loop (main.cpp:86-95): when `CheckValid`
        admits `option`, writes it, recurses, and on failure writes `EMPTY`
        back. Succeeds exactly when the search from the board with `option`
        placed succeeds. */
    method TryValue(row: nat, col: nat, option: int) returns (found: bool)
      requires Valid() && Square(size, numberOfBoxes) && InField(size, row, col)
      requires board[row, col] == EMPTY
      modifies board
      decreases Empties(Cells(), size), 0
      ensures found == (Allowed(old(Cells()), size, numberOfBoxes, row, col, option) &&
                        Solution(Place(old(Cells()), size, row, col, option), size, numberOfBoxes).Some?)
      ensures found ==> Cells() == Solution(Place(old(Cells()), size, row, col, option), size, numberOfBoxes).value
      ensures !found ==> Cells() == old(Cells())
    {
      ghost var g0 := Cells();
      var ok := CheckValid(row, col, option);
      if !ok {
        return false;
      }
      Store(row, col, option);
      PlaceShrinksEmpties(g0, size, row, col, option);
      found := Solve();
      if !found {
        Store(row, col, EMPTY);
        UndoPlace(g0, size, row, col, option);
      }
    }
  }
}
