/** The backtracking search of `Sudoku::solve` as a function on board
    values, and what it is proved to compute: a solution whenever one exists
    (for consistent clues), and failure only when none does. */
module Search {
  import opened BoxArith
  import opened Rules

  datatype Option<T> = None | Some(value: T)

  /** Cell `(i, j)` comes at or after `(row, col)` in row-major order. */
  predicate AtOrAfter(i: int, j: int, row: int, col: int) {
    i > row || (i == row && j >= col)
  }

  /** The first `EMPTY` cell at or after `(row, col)` in row-major order, as
      the two scan loops of main.cpp:82-84 find it. */
  function FirstEmptyFrom(g: Grid, n: nat, row: nat, col: nat): (p: Option<(nat, nat)>)
    requires WellFormed(g, n) && 1 <= row && 1 <= col <= n + 1
    decreases n + 1 - row, n + 1 - col
    ensures p.None? ==>
      forall i, j :: 1 <= i <= n && 1 <= j <= n && AtOrAfter(i, j, row, col) ==> g[i][j] != EMPTY
    ensures p.Some? ==>
      var (r, c) := p.value;
      InField(n, r, c) && g[r][c] == EMPTY && AtOrAfter(r, c, row, col) &&
      forall i, j :: 1 <= i <= n && 1 <= j <= n && AtOrAfter(i, j, row, col) && !AtOrAfter(i, j, r, c) ==>
        g[i][j] != EMPTY
  {
    if row > n then None
    else if col > n then FirstEmptyFrom(g, n, row + 1, 1)
    else if g[row][col] == EMPTY then Some((row, col))
    else FirstEmptyFrom(g, n, row, col + 1)
  }

  /** The first `EMPTY` cell of the playing field, if any. */
  function FirstEmpty(g: Grid, n: nat): (p: Option<(nat, nat)>)
    requires WellFormed(g, n)
    ensures p.None? <==> Filled(g, n)
    ensures p.Some? ==>
      var (r, c) := p.value;
      InField(n, r, c) && g[r][c] == EMPTY &&
      forall i, j :: 1 <= i <= n && 1 <= j <= n && !AtOrAfter(i, j, r, c) ==> g[i][j] != EMPTY
  {
    FirstEmptyFrom(g, n, 1, 1)
  }

  /** The first empty cell is the one empty cell that every earlier cell
      precedes filled: whichever scan finds it, it is the same cell. */
  lemma FirstEmptyUnique(g: Grid, n: nat, row: nat, col: nat)
    requires WellFormed(g, n) && InField(n, row, col) && g[row][col] == EMPTY
    requires forall i, j :: 1 <= i <= n && 1 <= j <= n && !AtOrAfter(i, j, row, col) ==> g[i][j] != EMPTY
    ensures FirstEmpty(g, n) == Some((row, col))
  {
    var p := FirstEmpty(g, n);
    assert !Filled(g, n);
    var (r, c) := p.value;
    if !AtOrAfter(row, col, r, c) {
      assert false;
    }
    if !AtOrAfter(r, c, row, col) {
      assert false;
    }
  }

  /** The search on a board value: `None` when `solve` returns false, and
      `Some(h)` when it returns true leaving the board `h`. */
  function Solution(g: Grid, n: nat, k: nat): (r: Option<Grid>)
    requires WellFormed(g, n) && Square(n, k)
    decreases Empties(g, n), 1, 0
    ensures r.Some? ==> WellFormed(r.value, n) && Filled(r.value, n)
  {
    match FirstEmpty(g, n)
    case None => Some(g)
    case Some((r, c)) => TryFrom(g, n, k, r, c, 1)
  }

  /** The candidate loop of main.cpp:85-96 from value `v` on, at the empty
      cell `(row, col)`. */
  function TryFrom(g: Grid, n: nat, k: nat, row: nat, col: nat, v: int): (r: Option<Grid>)
    requires WellFormed(g, n) && Square(n, k) && InField(n, row, col) && g[row][col] == EMPTY && v >= 1
    decreases Empties(g, n), 0, n + 1 - v
    ensures r.Some? ==> WellFormed(r.value, n) && Filled(r.value, n)
  {
    if v > n then None
    else if Allowed(g, n, k, row, col, v) then
      PlaceShrinksEmpties(g, n, row, col, v);
      match Solution(Place(g, n, row, col, v), n, k)
      case Some(h) => Some(h)
      case None => TryFrom(g, n, k, row, col, v + 1)
    else TryFrom(g, n, k, row, col, v + 1)
  }

  /** One step of the candidate loop: an allowed value whose recursive
      search succeeds ends the loop with that search's board... */
  lemma TryFromFound(g: Grid, n: nat, k: nat, row: nat, col: nat, v: int)
    requires WellFormed(g, n) && Square(n, k) && InField(n, row, col) && g[row][col] == EMPTY && 1 <= v <= n
    requires Allowed(g, n, k, row, col, v) && Solution(Place(g, n, row, col, v), n, k).Some?
    ensures TryFrom(g, n, k, row, col, v) == Solution(Place(g, n, row, col, v), n, k)
  {
  }

  /** ... and any other value moves the loop on to the next one. */
  lemma TryFromNext(g: Grid, n: nat, k: nat, row: nat, col: nat, v: int)
    requires WellFormed(g, n) && Square(n, k) && InField(n, row, col) && g[row][col] == EMPTY && 1 <= v <= n
    requires Allowed(g, n, k, row, col, v) ==> Solution(Place(g, n, row, col, v), n, k).None?
    ensures TryFrom(g, n, k, row, col, v) == TryFrom(g, n, k, row, col, v + 1)
  {
  }

  /** What the search returns is a filled board that extends the clues and
      whose placed values clash with nothing. */
  lemma {:induction false} SolutionSound(g: Grid, n: nat, k: nat)
    requires WellFormed(g, n) && Square(n, k) && Solution(g, n, k).Some?
    decreases Empties(g, n), 1, 0
    ensures Extends(g, Solution(g, n, k).value, n)
    ensures Filled(Solution(g, n, k).value, n)
    ensures ClashesOnlyAmongClues(g, Solution(g, n, k).value, n, k)
  {
    match FirstEmpty(g, n)
    case None =>
    case Some((r, c)) => TryFromSound(g, n, k, r, c, 1);
  }

  lemma {:induction false} TryFromSound(g: Grid, n: nat, k: nat, row: nat, col: nat, v: int)
    requires WellFormed(g, n) && Square(n, k) && InField(n, row, col) && g[row][col] == EMPTY && v >= 1
    requires TryFrom(g, n, k, row, col, v).Some?
    decreases Empties(g, n), 0, n + 1 - v
    ensures Extends(g, TryFrom(g, n, k, row, col, v).value, n)
    ensures Filled(TryFrom(g, n, k, row, col, v).value, n)
    ensures ClashesOnlyAmongClues(g, TryFrom(g, n, k, row, col, v).value, n, k)
  {
    if Allowed(g, n, k, row, col, v) {
      var p := Place(g, n, row, col, v);
      PlaceShrinksEmpties(g, n, row, col, v);
      if Solution(p, n, k).Some? {
        SolutionSound(p, n, k);
        StepSound(g, Solution(p, n, k).value, n, k, row, col, v);
        return;
      }
    }
    TryFromSound(g, n, k, row, col, v + 1);
  }

  /** The search fails only on a puzzle that has no solution. */
  lemma {:induction false} SolutionComplete(g: Grid, n: nat, k: nat)
    requires WellFormed(g, n) && Square(n, k) && Solution(g, n, k).None?
    decreases Empties(g, n), 1, 0
    ensures NoCompletion(g, n, k)
  {
    match FirstEmpty(g, n)
    case Some((r, c)) => TryFromComplete(g, n, k, r, c, 1);
  }

  lemma {:induction false} TryFromComplete(g: Grid, n: nat, k: nat, row: nat, col: nat, v: int)
    requires WellFormed(g, n) && Square(n, k) && InField(n, row, col) && g[row][col] == EMPTY && v >= 1
    requires NoCompletionBelow(g, n, k, row, col, v)
    requires TryFrom(g, n, k, row, col, v).None?
    decreases Empties(g, n), 0, n + 1 - v
    ensures NoCompletion(g, n, k)
  {
    if v > n {
      CandidatesExhausted(g, n, k, row, col);
    } else {
      if Allowed(g, n, k, row, col, v) {
        PlaceShrinksEmpties(g, n, row, col, v);
        SolutionComplete(Place(g, n, row, col, v), n, k);
      }
      AdvanceBound(g, n, k, row, col, v);
      TryFromComplete(g, n, k, row, col, v + 1);
    }
  }

  /** For a puzzle whose clues are consistent, the search succeeds exactly
      when the puzzle has a solution, and what it returns is one. */
  lemma SolutionCorrect(g: Grid, n: nat, k: nat)
    requires WellFormed(g, n) && Square(n, k) && Consistent(g, n, k)
    ensures Solution(g, n, k).Some? ==> IsCompletion(g, Solution(g, n, k).value, n, k)
    ensures Solution(g, n, k).None? <==> NoCompletion(g, n, k)
  {
    if Solution(g, n, k).Some? {
      var h := Solution(g, n, k).value;
      SolutionSound(g, n, k);
      ConsistentClues(g, h, n, k);
      assert !NoCompletion(g, n, k) by { assert IsCompletion(g, h, n, k); }
    } else {
      SolutionComplete(g, n, k);
    }
  }

  /** On a board with no `EMPTY` cell the search succeeds at once and
      changes nothing. */
  lemma SolutionOfFilled(g: Grid, n: nat, k: nat)
    requires WellFormed(g, n) && Square(n, k) && Filled(g, n)
    ensures Solution(g, n, k) == Some(g)
  {
  }

  /** A 4 x 4 board whose every cell holds 1: it has no `EMPTY` cell, so the
      search accepts it unchanged, although its clues clash and no puzzle
      with these clues has a solution. */
  lemma FullClashingBoardAccepted()
    ensures var g := seq(5, i => seq(5, j => if i == 0 || j == 0 then EMPTY else 1));
      WellFormed(g, 4) && Square(4, 2) && Filled(g, 4) && !Consistent(g, 4, 2) &&
      Solution(g, 4, 2) == Some(g) && NoCompletion(g, 4, 2)
  {
    var g := seq(5, i => seq(5, j => if i == 0 || j == 0 then EMPTY else 1));
    assert g[1][1] == 1 && g[1][2] == 1 && Conflict(2, 1, 1, 1, 2);
    SolutionOfFilled(g, 4, 2);
    ClashingCluesUnsolvable(g, 4, 2);
  }

  /** A 4 x 4 board with one `EMPTY` cell, `(1, 1)`, whose clues clash (two
      2s in row 4): it has no solution, yet the search places 1 in the empty
      cell, finds the board filled, and succeeds with the clash still there. */
  lemma ClashingCluesWithEmptyCellAccepted()
    ensures var g := [[0, 0, 0, 0, 0], [0, EMPTY, 2, 3, 4], [0, 3, 4, 1, 2], [0, 2, 1, 4, 3], [0, 4, 3, 2, 2]];
      WellFormed(g, 4) && Square(4, 2) && !Consistent(g, 4, 2) && NoCompletion(g, 4, 2) &&
      Solution(g, 4, 2) == Some(Place(g, 4, 1, 1, 1))
  {
    var g := [[0, 0, 0, 0, 0], [0, EMPTY, 2, 3, 4], [0, 3, 4, 1, 2], [0, 2, 1, 4, 3], [0, 4, 3, 2, 2]];
    assert WellFormed(g, 4);
    assert g[4][3] == 2 && g[4][4] == 2 && Conflict(2, 4, 3, 4, 4);
    ClashingCluesUnsolvable(g, 4, 2);
    FirstEmptyUnique(g, 4, 1, 1);
    assert !InRow(g, 4, 1, 1) && !InCol(g, 4, 1, 1);
    assert !InBox(g, 4, 2, 1, 1, 1) by {
      forall i, j | 1 <= i <= 4 && 1 <= j <= 4 && SameBox(2, i, j, 1, 1)
        ensures g[i][j] != 1
      {
        assert i <= 2 && j <= 2;
      }
    }
    var p := Place(g, 4, 1, 1, 1);
    assert Filled(p, 4);
    SolutionOfFilled(p, 4, 2);
    TryFromFound(g, 4, 2, 1, 1, 1);
  }
}
