/**
 * The Sudoku board and its rule (src/App.js, isSafe).
 *
 * A grid holds 81 integers in row-major order: cell (row, col) sits at index
 * 9 * row + col, and 0 means "empty". The source stores it as nine arrays of
 * nine; the flat layout is the same data.
 */
module Rules {

  type Grid = seq<int>

  predicate InBounds(row: int, col: int) {
    0 <= row < 9 && 0 <= col < 9
  }

  function Index(row: int, col: int): int {
    9 * row + col
  }

  function At(g: Grid, row: int, col: int): int
    requires |g| == 81 && InBounds(row, col)
  {
    g[9 * row + col]
  }

  /** The two cells share a row, a column or a 3x3 box (a cell shares all three with itself). */
  predicate SameUnit(r1: int, c1: int, r2: int, c2: int) {
    r1 == r2 || c1 == c2 || (r1 / 3 == r2 / 3 && c1 / 3 == c2 / 3)
  }

  /** The k-th cell of the box holding (row, col), as isSafe enumerates it: a cell of the same box. */
  function BoxRow(row: int, k: int): (r: int)
    requires 0 <= row < 9 && 0 <= k < 9
    ensures 0 <= r < 9 && r / 3 == row / 3
  {
    3 * (row / 3) + k / 3
  }

  function BoxCol(col: int, k: int): (c: int)
    requires 0 <= col < 9 && 0 <= k < 9
    ensures 0 <= c < 9 && c / 3 == col / 3
  {
    3 * (col / 3) + k % 3
  }

  predicate InRange(g: Grid) {
    forall i :: 0 <= i < |g| ==> 0 <= g[i] <= 9
  }

  predicate NoZeros(g: Grid) {
    forall i :: 0 <= i < |g| ==> g[i] != 0
  }

  /** The cell is empty, or no other cell of its row, column or box holds its value. */
  ghost predicate CellConsistent(g: Grid, row: int, col: int)
    requires |g| == 81 && InBounds(row, col)
  {
    At(g, row, col) == 0 ||
    forall r, c :: InBounds(r, c) && (r, c) != (row, col) && SameUnit(row, col, r, c) ==>
      At(g, r, c) != At(g, row, col)
  }

  /** No two filled cells of a row, column or box hold the same value. */
  ghost predicate NoConflicts(g: Grid)
    requires |g| == 81
  {
    forall r, c :: InBounds(r, c) ==> CellConsistent(g, r, c)
  }

  /** A finished board: every cell holds a digit 1..9 and no unit repeats a digit. */
  ghost predicate Solved(g: Grid) {
    |g| == 81 && (forall i :: 0 <= i < 81 ==> 1 <= g[i] <= 9) && NoConflicts(g)
  }

  /** s keeps every filled cell of g. */
  predicate Extends(s: Grid, g: Grid) {
    |s| == |g| && forall i :: 0 <= i < |g| && g[i] != 0 ==> s[i] == g[i]
  }

  /** Iteration k of the loop in isSafe finds no num in row k, column k or box cell k. */
  predicate ScanClear(g: Grid, row: int, col: int, num: int, k: int)
    requires |g| == 81 && InBounds(row, col) && 0 <= k < 9
  {
    At(g, row, k) != num && At(g, k, col) != num && At(g, BoxRow(row, k), BoxCol(col, k)) != num
  }

  /** The loop of isSafe from iteration i on. */
  function SafeFrom(g: Grid, row: int, col: int, num: int, i: nat): (safe: bool)
    requires |g| == 81 && InBounds(row, col) && i <= 9
    ensures safe <==> forall k :: i <= k < 9 ==> ScanClear(g, row, col, num, k)
    decreases 9 - i
  {
    if i == 9 then true
    else if At(g, row, i) == num || At(g, i, col) == num then
      assert !ScanClear(g, row, col, num, i);
      false
    else if At(g, BoxRow(row, i), BoxCol(col, i)) == num then
      assert !ScanClear(g, row, col, num, i);
      false
    else SafeFrom(g, row, col, num, i + 1)
  }

  /**
   * isSafe: the nine iterations of its loop. The cell itself is part of the
   * check, so a cell that already holds num reports unsafe.
   */
  function IsSafe(g: Grid, row: int, col: int, num: int): (safe: bool)
    requires |g| == 81 && InBounds(row, col)
    ensures safe ==> At(g, row, col) != num
  {
    var safe := SafeFrom(g, row, col, num, 0);
    assert safe ==> ScanClear(g, row, col, num, col);
    safe
  }

  /**
   * num may go in (row, col) exactly when no cell of its row, column or box
   * holds num: the nine iterations of isSafe visit exactly those cells.
   */
  lemma IsSafeMeans(g: Grid, row: int, col: int, num: int)
    requires |g| == 81 && InBounds(row, col)
    ensures IsSafe(g, row, col, num) <==>
            forall r, c :: InBounds(r, c) && SameUnit(row, col, r, c) ==> At(g, r, c) != num
  {
    if forall k :: 0 <= k < 9 ==> ScanClear(g, row, col, num, k) {
      forall r, c | InBounds(r, c) && SameUnit(row, col, r, c)
        ensures At(g, r, c) != num
      {
        if r == row {
          assert ScanClear(g, row, col, num, c);
        } else if c == col {
          assert ScanClear(g, row, col, num, r);
        } else {
          var k := 3 * (r % 3) + c % 3;
          assert BoxRow(row, k) == r && BoxCol(col, k) == c;
          assert ScanClear(g, row, col, num, k);
        }
      }
    }
    if forall r, c :: InBounds(r, c) && SameUnit(row, col, r, c) ==> At(g, r, c) != num {
      forall k | 0 <= k < 9
        ensures ScanClear(g, row, col, num, k)
      {
        assert SameUnit(row, col, row, k) && SameUnit(row, col, k, col);
        assert SameUnit(row, col, BoxRow(row, k), BoxCol(col, k));
      }
    }
  }

  /** Writing v at (row, col) changes that cell and no other. */
  lemma AtUpdate(g: Grid, row: int, col: int, v: int, r: int, c: int)
    requires |g| == 81 && InBounds(row, col) && InBounds(r, c)
    ensures At(g[Index(row, col) := v], r, c) == if (r, c) == (row, col) then v else At(g, r, c)
  {
  }

  /** A placement that isSafe allows introduces no conflict. */
  lemma {:induction false} PlaceSafe(g: Grid, row: int, col: int, num: int)
    requires |g| == 81 && InBounds(row, col) && NoConflicts(g) && IsSafe(g, row, col, num)
    ensures NoConflicts(g[Index(row, col) := num])
  {
    var h := g[Index(row, col) := num];
    IsSafeMeans(g, row, col, num);
    forall r, c | InBounds(r, c)
      ensures CellConsistent(h, r, c)
    {
      AtUpdate(g, row, col, num, r, c);
      if At(h, r, c) != 0 {
        forall r2, c2 | InBounds(r2, c2) && (r2, c2) != (r, c) && SameUnit(r, c, r2, c2)
          ensures At(h, r2, c2) != At(h, r, c)
        {
          AtUpdate(g, row, col, num, r2, c2);
          if (r, c) == (row, col) {
            assert At(g, r2, c2) != num;
          } else if (r2, c2) == (row, col) {
            assert SameUnit(row, col, r, c);
          } else {
            assert CellConsistent(g, r, c);
          }
        }
      }
    }
  }

  /**
   * The check isSolved makes of one cell: with the cell cleared, isSafe accepts
   * its own value exactly when the cell is consistent with its row, column and box.
   */
  lemma ClearedCellSafe(g: Grid, row: int, col: int)
    requires |g| == 81 && InBounds(row, col) && At(g, row, col) != 0
    ensures IsSafe(g[Index(row, col) := 0], row, col, At(g, row, col)) <==> CellConsistent(g, row, col)
  {
    var h := g[Index(row, col) := 0];
    var v := At(g, row, col);
    IsSafeMeans(h, row, col, v);
    if CellConsistent(g, row, col) {
      forall r, c | InBounds(r, c) && SameUnit(row, col, r, c)
        ensures At(h, r, c) != v
      {
        AtUpdate(g, row, col, 0, r, c);
      }
    }
    if IsSafe(h, row, col, v) {
      forall r, c | InBounds(r, c) && (r, c) != (row, col) && SameUnit(row, col, r, c)
        ensures At(g, r, c) != v
      {
        AtUpdate(g, row, col, 0, r, c);
      }
    }
  }

  /** In a solved board that keeps g's filled cells, the digit of an empty cell of g is safe there. */
  lemma SafeInSolution(g: Grid, s: Grid, row: int, col: int)
    requires |g| == 81 && Solved(s) && Extends(s, g) && InBounds(row, col) && At(g, row, col) == 0
    ensures IsSafe(g, row, col, At(s, row, col))
  {
    assert CellConsistent(s, row, col);
    IsSafeMeans(g, row, col, At(s, row, col));
  }
}
