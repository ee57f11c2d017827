/** The Sudoku board as a value, and the rules that the board's validity
    query and its backtracking solver obey.

    A `Grid` is a snapshot of the board: rows and columns are numbered
    `0..n`, of which `1..n` form the playing field. Row 0 and column 0 exist
    because the board is 1-indexed over vectors of length `n + 1`; no query
    and no search step ever reads or writes them. */
module Rules {
  import opened BoxArith

  /** The value of a cell that holds no number. */
  const EMPTY := 0

  type Grid = seq<seq<int>>

  /** `g` has rows and columns `0..n`. */
  predicate WellFormed(g: Grid, n: nat) {
    |g| == n + 1 && forall i :: 0 <= i < |g| ==> |g[i]| == n + 1
  }

  /** `(i, j)` lies in the playing field `1..n` x `1..n`. */
  predicate InField(n: nat, i: int, j: int) {
    1 <= i <= n && 1 <= j <= n
  }

  // ---------------------------------------------------------------------
  // Construction and clue loading
  // ---------------------------------------------------------------------

  /** The board of a freshly constructed puzzle: every cell is `EMPTY`. */
  function EmptyGrid(n: nat): (g: Grid)
    ensures WellFormed(g, n)
    ensures forall i, j :: 0 <= i <= n && 0 <= j <= n ==> g[i][j] == EMPTY
  {
    seq(n + 1, _ => seq(n + 1, _ => EMPTY))
  }

  /** The board after cell `(row, col)` is set to `v`: that cell holds `v`
      and every other cell is as before. */
  function Place(g: Grid, n: nat, row: nat, col: nat, v: int): (h: Grid)
    requires WellFormed(g, n) && row <= n && col <= n
    ensures WellFormed(h, n)
    ensures h[row][col] == v
    ensures forall i, j :: 0 <= i <= n && 0 <= j <= n && (i != row || j != col) ==> h[i][j] == g[i][j]
  {
    g[row := g[row][col := v]]
  }

  /** The board after row `row` is loaded from `nums`: column `j` of that row
      holds `nums[j - 1]`, column 0 of it and every other row are as before. */
  function SetRow(g: Grid, n: nat, row: nat, nums: seq<int>): (h: Grid)
    requires WellFormed(g, n) && row <= n && |nums| == n
    ensures WellFormed(h, n)
    ensures forall j :: 1 <= j <= n ==> h[row][j] == nums[j - 1]
    ensures h[row][0] == g[row][0]
    ensures forall i :: 0 <= i <= n && i != row ==> h[i] == g[i]
  {
    g[row := [g[row][0]] + nums]
  }

  /** Resetting a cell that was `EMPTY` before a value was placed in it
      restores the board exactly. */
  lemma UndoPlace(g: Grid, n: nat, row: nat, col: nat, v: int)
    requires WellFormed(g, n) && row <= n && col <= n && g[row][col] == EMPTY
    ensures Place(Place(g, n, row, col, v), n, row, col, EMPTY) == g
  {
    GridExt(Place(Place(g, n, row, col, v), n, row, col, EMPTY), g, n);
  }

  /** Two boards that agree on every cell are the same board. */
  lemma GridExt(g: Grid, h: Grid, n: nat)
    requires WellFormed(g, n) && WellFormed(h, n)
    requires forall i, j :: 0 <= i <= n && 0 <= j <= n ==> g[i][j] == h[i][j]
    ensures g == h
  {
    forall i | 0 <= i <= n
      ensures g[i] == h[i]
    {
      assert forall j :: 0 <= j <= n ==> g[i][j] == h[i][j];
    }
  }

  // ---------------------------------------------------------------------
  // The validity query
  // ---------------------------------------------------------------------

  /** Cells `(i1, j1)` and `(i2, j2)` lie in the same `k` x `k` box. */
  predicate SameBox(k: nat, i1: int, j1: int, i2: int, j2: int)
    requires k > 0
  {
    (i1 - 1) / k == (i2 - 1) / k && (j1 - 1) / k == (j2 - 1) / k
  }

  /** `num` occurs somewhere in row `row`. */
  predicate InRow(g: Grid, n: nat, row: nat, num: int)
    requires WellFormed(g, n) && row <= n
  {
    exists j :: 1 <= j <= n && g[row][j] == num
  }

  /** `num` occurs somewhere in column `col`. */
  predicate InCol(g: Grid, n: nat, col: nat, num: int)
    requires WellFormed(g, n) && col <= n
  {
    exists i :: 1 <= i <= n && g[i][col] == num
  }

  /** `num` occurs somewhere in the box that holds `(row, col)`. */
  predicate InBox(g: Grid, n: nat, k: nat, row: int, col: int, num: int)
    requires WellFormed(g, n) && k > 0
  {
    exists i, j :: 1 <= i <= n && 1 <= j <= n && SameBox(k, i, j, row, col) && g[i][j] == num
  }

  /** What the validity query answers: `num` may go at `(row, col)` exactly
      when it occurs neither in that row, nor in that column, nor in that
      box. The target cell itself is not excluded. */
  predicate Allowed(g: Grid, n: nat, k: nat, row: nat, col: nat, num: int)
    requires WellFormed(g, n) && Square(n, k) && InField(n, row, col)
  {
    !InRow(g, n, row, num) && !InCol(g, n, col, num) && !InBox(g, n, k, row, col, num)
  }

  // ---------------------------------------------------------------------
  // Sudoku constraints, completions and the search
  // ---------------------------------------------------------------------

  /** Two distinct cells that share a row, a column or a box. */
  predicate Conflict(k: nat, i1: int, j1: int, i2: int, j2: int)
    requires k > 0
  {
    (i1 != i2 || j1 != j2) && (i1 == i2 || j1 == j2 || SameBox(k, i1, j1, i2, j2))
  }

  /** No two conflicting cells hold the same non-empty value. */
  predicate Consistent(g: Grid, n: nat, k: nat)
    requires WellFormed(g, n) && Square(n, k)
  {
    forall i1, j1, i2, j2 ::
      1 <= i1 <= n && 1 <= j1 <= n && 1 <= i2 <= n && 1 <= j2 <= n && Conflict(k, i1, j1, i2, j2) && g[i1][j1] != EMPTY
      ==> g[i1][j1] != g[i2][j2]
  }

  /** No cell of the playing field is `EMPTY`. */
  predicate Filled(g: Grid, n: nat)
    requires WellFormed(g, n)
  {
    forall i, j :: 1 <= i <= n && 1 <= j <= n ==> g[i][j] != EMPTY
  }

  /** `g1` is `g0` with some of its empty cells filled with values in `1..n`:
      every clue, and row 0 and column 0, keep their values. */
  predicate Extends(g0: Grid, g1: Grid, n: nat) {
    WellFormed(g0, n) && WellFormed(g1, n) &&
    forall i, j :: 0 <= i <= n && 0 <= j <= n ==>
      if i == 0 || j == 0 || g0[i][j] != EMPTY then g1[i][j] == g0[i][j]
      else g1[i][j] == EMPTY || 1 <= g1[i][j] <= n
  }

  /** Every clash in `g1` (two conflicting cells with the same non-empty
      value) is between two cells that were already filled in `g0`: the
      values placed on top of `g0` clash with nothing. */
  predicate ClashesOnlyAmongClues(g0: Grid, g1: Grid, n: nat, k: nat)
    requires WellFormed(g0, n) && WellFormed(g1, n) && Square(n, k)
  {
    forall i1, j1, i2, j2 ::
      1 <= i1 <= n && 1 <= j1 <= n && 1 <= i2 <= n && 1 <= j2 <= n && Conflict(k, i1, j1, i2, j2) &&
      g1[i1][j1] != EMPTY && g1[i1][j1] == g1[i2][j2]
      ==> g0[i1][j1] != EMPTY && g0[i2][j2] != EMPTY
  }

  /** `g1` solves the puzzle `g0`: it fills every empty cell of `g0` and
      obeys all three uniqueness constraints. */
  predicate IsCompletion(g0: Grid, g1: Grid, n: nat, k: nat)
    requires Square(n, k)
  {
    Extends(g0, g1, n) && Filled(g1, n) && Consistent(g1, n, k)
  }

  /** The puzzle `g0` has no solution. */
  ghost predicate NoCompletion(g0: Grid, n: nat, k: nat)
    requires Square(n, k)
  {
    forall g1 :: !IsCompletion(g0, g1, n, k)
  }

  /** Every solution of `g0` holds at least `bound` in cell `(row, col)`:
      the candidates below `bound` have been ruled out. */
  ghost predicate NoCompletionBelow(g0: Grid, n: nat, k: nat, row: nat, col: nat, bound: int)
    requires Square(n, k) && row <= n && col <= n
  {
    forall g1 :: IsCompletion(g0, g1, n, k) ==> g1[row][col] >= bound
  }

  /** The set of empty cells of the playing field: the solver's measure. */
  function Empties(g: Grid, n: nat): set<(int, int)>
    requires WellFormed(g, n)
  {
    set i, j | 1 <= i <= n && 1 <= j <= n && g[i][j] == EMPTY :: (i, j)
  }

  /** Filling an empty cell removes exactly that cell from the empty set,
      so each recursive call of the solver has strictly fewer empty cells. */
  lemma PlaceShrinksEmpties(g: Grid, n: nat, row: nat, col: nat, v: int)
    requires WellFormed(g, n) && InField(n, row, col) && g[row][col] == EMPTY && v != EMPTY
    ensures Empties(Place(g, n, row, col, v), n) == Empties(g, n) - {(row, col)}
    ensures Empties(Place(g, n, row, col, v), n) < Empties(g, n)
  {
    var h := Place(g, n, row, col, v);
    assert (row, col) in Empties(g, n);
    forall p | p in Empties(h, n)
      ensures p in Empties(g, n) - {(row, col)}
    {
      var (i, j) := p;
      assert h[i][j] == EMPTY;
    }
    forall p | p in Empties(g, n) - {(row, col)}
      ensures p in Empties(h, n)
    {
      var (i, j) := p;
      assert h[i][j] == EMPTY;
    }
  }

  /** A value equal to the one in a conflicting cell is refused by the
      validity query. */
  lemma ConflictRefused(g: Grid, n: nat, k: nat, row: nat, col: nat, i: int, j: int)
    requires WellFormed(g, n) && Square(n, k) && InField(n, row, col) && InField(n, i, j)
    requires Conflict(k, row, col, i, j)
    ensures !Allowed(g, n, k, row, col, g[i][j])
  {
    if i == row {
      assert InRow(g, n, row, g[i][j]);
    } else if j == col {
      assert InCol(g, n, col, g[i][j]);
    } else {
      assert SameBox(k, i, j, row, col);
      assert InBox(g, n, k, row, col, g[i][j]);
    }
  }

  /** A solution never repeats, at an empty cell, a clue that conflicts
      with that cell. */
  lemma SolutionAvoidsClue(g0: Grid, g1: Grid, n: nat, k: nat, row: nat, col: nat, i: int, j: int)
    requires Square(n, k) && IsCompletion(g0, g1, n, k)
    requires InField(n, row, col) && InField(n, i, j) && Conflict(k, row, col, i, j)
    ensures g0[i][j] != EMPTY ==> g0[i][j] != g1[row][col]
  {
    if g0[i][j] != EMPTY {
      assert g1[i][j] == g0[i][j];
      assert Conflict(k, i, j, row, col);
    }
  }

  /** The value that a solution puts in an empty cell passes the validity
      query on the original puzzle, and the solution also solves the puzzle
      with that value placed. */
  lemma CompletionStep(g0: Grid, g1: Grid, n: nat, k: nat, row: nat, col: nat)
    requires Square(n, k) && IsCompletion(g0, g1, n, k)
    requires InField(n, row, col) && g0[row][col] == EMPTY
    ensures 1 <= g1[row][col] <= n
    ensures Allowed(g0, n, k, row, col, g1[row][col])
    ensures IsCompletion(Place(g0, n, row, col, g1[row][col]), g1, n, k)
  {
    var v := g1[row][col];
    assert v != EMPTY;
    forall j | 1 <= j <= n
      ensures g0[row][j] != v
    {
      if j != col {
        SolutionAvoidsClue(g0, g1, n, k, row, col, row, j);
      }
    }
    forall i | 1 <= i <= n
      ensures g0[i][col] != v
    {
      if i != row {
        SolutionAvoidsClue(g0, g1, n, k, row, col, i, col);
      }
    }
    forall i, j | 1 <= i <= n && 1 <= j <= n && SameBox(k, i, j, row, col)
      ensures g0[i][j] != v
    {
      if i != row || j != col {
        SolutionAvoidsClue(g0, g1, n, k, row, col, i, j);
      }
    }
  }

  /** One turn of the solver's candidate loop: once the candidates below
      `v` are ruled out, `v` is ruled out too if it fails the validity query
      or if the puzzle with `v` placed has no solution. */
  lemma AdvanceBound(g0: Grid, n: nat, k: nat, row: nat, col: nat, v: int)
    requires Square(n, k) && WellFormed(g0, n) && InField(n, row, col) && g0[row][col] == EMPTY
    requires NoCompletionBelow(g0, n, k, row, col, v)
    requires Allowed(g0, n, k, row, col, v) ==> NoCompletion(Place(g0, n, row, col, v), n, k)
    ensures NoCompletionBelow(g0, n, k, row, col, v + 1)
  {
    forall g1 | IsCompletion(g0, g1, n, k)
      ensures g1[row][col] >= v + 1
    {
      CompletionStep(g0, g1, n, k, row, col);
    }
  }

  /** When every candidate `1..n` of an empty cell is ruled out, the puzzle
      has no solution. */
  lemma CandidatesExhausted(g0: Grid, n: nat, k: nat, row: nat, col: nat)
    requires Square(n, k) && WellFormed(g0, n) && InField(n, row, col) && g0[row][col] == EMPTY
    requires NoCompletionBelow(g0, n, k, row, col, n + 1)
    ensures NoCompletion(g0, n, k)
  {
    forall g1
      ensures !IsCompletion(g0, g1, n, k)
    {
      if IsCompletion(g0, g1, n, k) {
        CompletionStep(g0, g1, n, k, row, col);
      }
    }
  }

  /** A success one level down is a success here: if the board that the
      recursive call started from was `g0` with an allowed value `v` placed
      in an empty cell, what the call produced also extends `g0`, and its
      placed values still clash with nothing. */
  lemma StepSound(g0: Grid, g1: Grid, n: nat, k: nat, row: nat, col: nat, v: int)
    requires Square(n, k) && WellFormed(g0, n) && InField(n, row, col) && g0[row][col] == EMPTY
    requires 1 <= v <= n && Allowed(g0, n, k, row, col, v)
    requires Extends(Place(g0, n, row, col, v), g1, n)
    requires ClashesOnlyAmongClues(Place(g0, n, row, col, v), g1, n, k)
    ensures Extends(g0, g1, n)
    ensures ClashesOnlyAmongClues(g0, g1, n, k)
  {
    var p := Place(g0, n, row, col, v);
    assert g1[row][col] == v;
    forall i1, j1, i2, j2 |
      1 <= i1 <= n && 1 <= j1 <= n && 1 <= i2 <= n && 1 <= j2 <= n && Conflict(k, i1, j1, i2, j2) &&
      g1[i1][j1] != EMPTY && g1[i1][j1] == g1[i2][j2]
      ensures g0[i1][j1] != EMPTY && g0[i2][j2] != EMPTY
    {
      if i1 == row && j1 == col {
        assert Conflict(k, row, col, i2, j2) && g0[i2][j2] == v;
        ConflictRefused(g0, n, k, row, col, i2, j2);
      }
    }
  }

  /** On a puzzle whose clues are consistent, a filled board whose placed
      values clash with nothing is a solution. */
  lemma ConsistentClues(g0: Grid, g1: Grid, n: nat, k: nat)
    requires Square(n, k) && WellFormed(g0, n) && Consistent(g0, n, k)
    requires Extends(g0, g1, n) && Filled(g1, n) && ClashesOnlyAmongClues(g0, g1, n, k)
    ensures IsCompletion(g0, g1, n, k)
  {
    forall i1, j1, i2, j2 |
      1 <= i1 <= n && 1 <= j1 <= n && 1 <= i2 <= n && 1 <= j2 <= n &&
      Conflict(k, i1, j1, i2, j2) && g1[i1][j1] != EMPTY
      ensures g1[i1][j1] != g1[i2][j2]
    {
    }
  }

  /** A puzzle whose clues clash has no solution. */
  lemma ClashingCluesUnsolvable(g0: Grid, n: nat, k: nat)
    requires Square(n, k) && WellFormed(g0, n) && !Consistent(g0, n, k)
    ensures NoCompletion(g0, n, k)
  {
    forall g1
      ensures !IsCompletion(g0, g1, n, k)
    {
      if IsCompletion(g0, g1, n, k) {
        assert false;
      }
    }
  }
}
