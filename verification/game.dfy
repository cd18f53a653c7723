/**
 * The playing session of the App component (src/App.js): the board being
 * played, its fixed-cell mask, the highlighted conflict cells and the hint
 * budget, with the two operations that change them on their own, handleChange
 * (an edit of one cell) and giveHint.
 *
 * A typed entry is an integer: 0 for the cleared field, 1..9 for a digit, and
 * anything else for text the input filter rejects.
 */
module Game {
  import opened Rules
  import opened Solver
  import opened Conflicts
  import Generator

  class Session {
    var grid: Grid
    var fixedCells: seq<bool>
    var conflictCells: set<(int, int)>
    var hintsLeft: int
    /** The puzzle the session started from. */
    ghost var givens: Grid

    /**
     * The board is 81 cells within 0..9, the mask marks exactly the filled
     * cells of the givens, those cells still hold their given digits, and the
     * hint budget is never negative.
     */
    ghost predicate Valid()
      reads this
    {
      |grid| == 81 && |fixedCells| == 81 && |givens| == 81 && InRange(grid) && hintsLeft >= 0 &&
      (forall i :: 0 <= i < 81 ==> (fixedCells[i] <==> givens[i] != 0)) &&
      (forall i :: 0 <= i < 81 && fixedCells[i] ==> grid[i] == givens[i])
    }

    /** A new game (the initial state, loadNewPuzzle, loadBlankPuzzle): three hints, no conflicts. */
    constructor (puzzle: Grid, fixed: seq<bool>)
      requires |puzzle| == 81 && InRange(puzzle) && fixed == Generator.FixedMask(puzzle)
      ensures Valid()
      ensures grid == puzzle && givens == puzzle && fixedCells == fixed
      ensures conflictCells == {} && hintsLeft == 3
    {
      grid := puzzle;
      givens := puzzle;
      fixedCells := fixed;
      conflictCells := {};
      hintsLeft := 3;
    }

    /**
     * handleChange: an entry in a fixed cell, or one the input filter rejects,
     * changes nothing. Otherwise the cell takes the entry, the conflict cells
     * become the conflict set of the entry, and the player is congratulated
     * exactly when the board is now solved.
     */
    method HandleChange(row: int, col: int, val: int) returns (solved: bool)
      requires Valid() && InBounds(row, col)
      modifies this
      ensures Valid()
      ensures fixedCells == old(fixedCells) && hintsLeft == old(hintsLeft) && givens == old(givens)
      ensures old(fixedCells[Index(row, col)]) || !(0 <= val <= 9) ==>
                grid == old(grid) && conflictCells == old(conflictCells) && !solved
      ensures !old(fixedCells[Index(row, col)]) && 0 <= val <= 9 ==>
                grid == old(grid)[Index(row, col) := val] && IsConflictSet(grid, row, col, val, conflictCells)
      ensures solved <==> !old(fixedCells[Index(row, col)]) && 1 <= val <= 9 && Solved(grid)
    {
      if fixedCells[9 * row + col] {
        return false;
      }
      solved := false;
      if 0 <= val <= 9 {
        EditKeepsGivens(grid, fixedCells, givens, 9 * row + col, val);
        var newGrid := grid[9 * row + col := val];
        grid := newGrid;
        if val == 0 {
          conflictCells := {};
          return;
        }
        var conflicts := ScanConflicts(newGrid, row, col, val);
        conflictCells := conflicts;
        if conflicts == {} {
          var board := Generator.CopyGrid(newGrid);
          solved := IsSolved(board);
        }
        if Solved(newGrid) {
          SolvedHasNoConflicts(newGrid, row, col, val, conflicts);
        }
      }
    }

    /**
     * solveCurrentPuzzle: when the solver completes the board, the board becomes
     * that completion and the highlights are cleared; otherwise nothing changes.
     */
    method SolveCurrent() returns (found: bool)
      requires Valid()
      modifies this
      ensures Valid()
      ensures fixedCells == old(fixedCells) && hintsLeft == old(hintsLeft) && givens == old(givens)
      ensures found <==> Solve(old(grid)).Some?
      ensures found ==> grid == Solve(old(grid)).value && conflictCells == {}
      ensures found ==> NoZeros(grid) && Extends(grid, old(grid))
      ensures !found ==> grid == old(grid) && conflictCells == old(conflictCells)
    {
      var copyGrid := Generator.CopyGrid(grid);
      found := SolveSudoku(copyGrid);
      if found {
        CompletionKeepsGivens(grid, fixedCells, givens);
        grid := copyGrid[..];
        conflictCells := {};
      }
    }

    /**
     * giveHint: with hints left and a solvable board that has an empty cell,
     * the first empty cell in row-major order takes the solver's digit and one
     * hint is spent; otherwise nothing changes. Either way the solver's
     * completion of the board stays the same.
     */
    method GiveHint()
      requires Valid()
      modifies this
      ensures Valid()
      ensures fixedCells == old(fixedCells) && conflictCells == old(conflictCells) && givens == old(givens)
      ensures old(hintsLeft) == 0 || Solve(old(grid)).None? || FirstEmpty(old(grid)) == 81 ==>
                grid == old(grid) && hintsLeft == old(hintsLeft)
      ensures old(hintsLeft) > 0 && Solve(old(grid)).Some? && FirstEmpty(old(grid)) < 81 ==>
                grid == old(grid)[FirstEmpty(old(grid)) := Solve(old(grid)).value[FirstEmpty(old(grid))]] &&
                hintsLeft == old(hintsLeft) - 1
      ensures Solve(grid) == Solve(old(grid))
    {
      if hintsLeft == 0 {
        return;
      }
      var copyGrid := Generator.CopyGrid(grid);
      var solvable := SolveSudoku(copyGrid);
      if !solvable {
        return;
      }
      for row := 0 to 9
        invariant grid == old(grid) && hintsLeft == old(hintsLeft)
        invariant forall k :: 0 <= k < 9 * row ==> grid[k] != 0
      {
        for col := 0 to 9
          invariant grid == old(grid) && hintsLeft == old(hintsLeft)
          invariant forall k :: 0 <= k < 9 * row + col ==> grid[k] != 0
        {
          if grid[9 * row + col] == 0 {
            assert FirstEmpty(grid) == 9 * row + col;
            HintStep(grid, fixedCells, givens);
            grid := grid[9 * row + col := copyGrid[9 * row + col]];
            hintsLeft := hintsLeft - 1;
            return;
          }
        }
      }
      assert FirstEmpty(grid) == 81;
    }
  }

  /** An accepted entry in a cell that is not fixed keeps the board within 0..9 and every given in place. */
  lemma EditKeepsGivens(g: Grid, fixed: seq<bool>, givens: Grid, i: int, val: int)
    requires |g| == 81 && |fixed| == 81 && |givens| == 81 && InRange(g) && 0 <= i < 81 && !fixed[i] && 0 <= val <= 9
    requires forall k :: 0 <= k < 81 && fixed[k] ==> g[k] == givens[k]
    ensures InRange(g[i := val])
    ensures forall k :: 0 <= k < 81 && fixed[k] ==> g[i := val][k] == givens[k]
  {
  }

  /** A solved board holds no conflict, so an entry that solves it is not highlighted. */
  lemma SolvedHasNoConflicts(g: Grid, row: int, col: int, num: int, s: set<(int, int)>)
    requires |g| == 81 && InBounds(row, col) && At(g, row, col) == num
    requires Solved(g) && IsConflictSet(g, row, col, num, s)
    ensures s == {}
  {
    assert CellConsistent(g, row, col);
    assert (row, col) !in s;
  }

  /** The solver's completion of the board is within 0..9, full, and keeps every given. */
  lemma CompletionKeepsGivens(g: Grid, fixed: seq<bool>, givens: Grid)
    requires |g| == 81 && |fixed| == 81 && |givens| == 81 && InRange(g)
    requires forall i :: 0 <= i < 81 && fixed[i] ==> g[i] == givens[i]
    requires forall i :: 0 <= i < 81 ==> (fixed[i] <==> givens[i] != 0)
    requires Solve(g).Some?
    ensures InRange(Solve(g).value) && NoZeros(Solve(g).value) && Extends(Solve(g).value, g)
    ensures forall i :: 0 <= i < 81 && fixed[i] ==> Solve(g).value[i] == givens[i]
  {
    assert OrderWithin(Ascending);
    SearchSound(Ascending, g);
  }

  /**
   * The board a hint produces: still within 0..9, the fixed cells untouched,
   * and the solver reaches the same completion from it.
   */
  lemma HintStep(g: Grid, fixed: seq<bool>, givens: Grid)
    requires |g| == 81 && |fixed| == 81 && |givens| == 81 && InRange(g)
    requires forall i :: 0 <= i < 81 ==> (fixed[i] <==> givens[i] != 0)
    requires forall i :: 0 <= i < 81 && fixed[i] ==> g[i] == givens[i]
    requires Solve(g).Some? && FirstEmpty(g) < 81
    ensures InRange(g[FirstEmpty(g) := Solve(g).value[FirstEmpty(g)]])
    ensures !fixed[FirstEmpty(g)]
    ensures Solve(g[FirstEmpty(g) := Solve(g).value[FirstEmpty(g)]]) == Solve(g)
  {
    assert OrderWithin(Ascending);
    SearchSound(Ascending, g);
    SearchKeepsFirstChoice(Ascending, g);
  }
}
