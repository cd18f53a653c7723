/**
 * The backtracking search shared by solveSudoku and fillGrid (src/App.js), and
 * the whole-board check isSolved.
 *
 * Both searches fill the first empty cell in row-major order, try candidate
 * digits in some order, recurse, and clear the cell again when the recursion
 * fails. solveSudoku tries 1..9 ascending; fillGrid tries a freshly shuffled
 * 1..9 at every visit. The specification function Search takes the digit order
 * as a function of the grid at the moment of the visit: a depth-first search in
 * fixed cell order never visits the same grid twice, so such a function can
 * stand for any sequence of shuffles.
 */
module Solver {
  import opened Rules

  datatype Option<T> = None | Some(value: T)

  /** The number of empty cells; each placement lowers it by one. */
  function ZeroCount(g: Grid): nat {
    multiset(g)[0]
  }

  function FirstEmptyFrom(g: Grid, from: nat): (i: nat)
    requires from <= |g|
    ensures from <= i <= |g|
    ensures i < |g| ==> g[i] == 0
    ensures forall k :: from <= k < i ==> g[k] != 0
    decreases |g| - from
  {
    if from == |g| || g[from] == 0 then from else FirstEmptyFrom(g, from + 1)
  }

  /** The row-major index of the first empty cell, or |g| when there is none. */
  function FirstEmpty(g: Grid): (i: nat)
    ensures i <= |g|
    ensures i < |g| ==> g[i] == 0
    ensures forall k :: 0 <= k < i ==> g[k] != 0
  {
    FirstEmptyFrom(g, 0)
  }

  /** 1..9 in ascending order. */
  function Digits(): seq<int> {
    seq(9, k => k + 1)
  }

  /** Candidate num - 1 of the ascending order is num. */
  lemma DigitAt(num: int)
    requires 1 <= num <= 9
    ensures Digits()[num - 1] == num
  {
  }

  /** The digit order of solveSudoku: 1..9 ascending at every cell. */
  function Ascending(g: Grid): seq<int> {
    Digits()
  }

  /** Every digit order the function yields holds only digits 1..9. */
  ghost predicate OrderWithin(order: Grid -> seq<int>) {
    forall h, j :: 0 <= j < |order(h)| ==> 1 <= order(h)[j] <= 9
  }

  /** Every digit order the function yields holds each of 1..9. */
  ghost predicate OrderCovers(order: Grid -> seq<int>) {
    forall h, d :: 1 <= d <= 9 ==> d in order(h)
  }

  /** A shuffle of 1..9: nine entries, each a digit, every digit present. */
  predicate IsShuffle(p: seq<int>) {
    |p| == 9 && (forall j :: 0 <= j < 9 ==> 1 <= p[j] <= 9) && (forall d :: 1 <= d <= 9 ==> d in p)
  }

  /**
   * The outcome of the depth-first search on g: the completed grid it stops at,
   * or None when every branch fails.
   */
  function Search(order: Grid -> seq<int>, g: Grid): (r: Option<Grid>)
    requires |g| == 81
    ensures r.Some? ==> |r.value| == 81
    decreases ZeroCount(g), 2, 0
  {
    var i := FirstEmpty(g);
    if i == 81 then Some(g) else Try(order, g, i, order(g), 0)
  }

  /** The candidates digits[j..] at the empty cell i, in order: the first that leads to a completion. */
  function Try(order: Grid -> seq<int>, g: Grid, i: nat, digits: seq<int>, j: nat): (r: Option<Grid>)
    requires |g| == 81 && i < 81 && g[i] == 0 && j <= |digits|
    ensures r.Some? ==> |r.value| == 81
    decreases ZeroCount(g), 1, |digits| - j
  {
    if j == |digits| then None
    else
      var c := Candidate(order, g, i, digits[j]);
      if c.Some? then c else Try(order, g, i, digits, j + 1)
  }

  /** Candidate num alone at the empty cell i: the search below it when isSafe accepts it, None otherwise. */
  function Candidate(order: Grid -> seq<int>, g: Grid, i: nat, num: int): (r: Option<Grid>)
    requires |g| == 81 && i < 81 && g[i] == 0
    ensures r.Some? ==> |r.value| == 81
    decreases ZeroCount(g), 0, 0
  {
    if IsSafe(g, i / 9, i % 9, num) then
      SafeNotCurrent(g, i, num);
      ZeroCountDrops(g, i, num);
      Search(order, g[i := num])
    else None
  }

  /** The result solveSudoku computes. */
  function Solve(g: Grid): Option<Grid>
    requires |g| == 81
  {
    Search(Ascending, g)
  }

  /**
   * What a successful search returns for g: it keeps every filled cell of g and
   * leaves no cell empty; it has no conflict when g has none, and with digits
   * drawn from 1..9 its cells stay within 0..9 when g's do.
   */
  ghost predicate SoundFor(order: Grid -> seq<int>, g: Grid, s: Grid)
    requires |g| == 81
  {
    |s| == 81 && NoZeros(s) && Extends(s, g) &&
    (NoConflicts(g) ==> NoConflicts(s)) &&
    (InRange(g) && OrderWithin(order) ==> InRange(s))
  }

  lemma {:induction false} SearchSound(order: Grid -> seq<int>, g: Grid)
    requires |g| == 81
    ensures Search(order, g).Some? ==> SoundFor(order, g, Search(order, g).value)
    decreases ZeroCount(g), 2, 0
  {
    var i := FirstEmpty(g);
    if i < 81 {
      TrySound(order, g, i, order(g), 0);
    }
  }

  lemma {:induction false} TrySound(order: Grid -> seq<int>, g: Grid, i: nat, digits: seq<int>, j: nat)
    requires |g| == 81 && i < 81 && g[i] == 0 && j <= |digits|
    requires OrderWithin(order) ==> forall k :: 0 <= k < |digits| ==> 1 <= digits[k] <= 9
    ensures Try(order, g, i, digits, j).Some? ==> SoundFor(order, g, Try(order, g, i, digits, j).value)
    decreases ZeroCount(g), 1, |digits| - j
  {
    if j < |digits| {
      var num := digits[j];
      if Candidate(order, g, i, num).Some? {
        CandidateSound(order, g, i, num);
      } else {
        TrySound(order, g, i, digits, j + 1);
      }
    }
  }

  lemma {:induction false} CandidateSound(order: Grid -> seq<int>, g: Grid, i: nat, num: int)
    requires |g| == 81 && i < 81 && g[i] == 0
    requires OrderWithin(order) ==> 1 <= num <= 9
    ensures Candidate(order, g, i, num).Some? ==> SoundFor(order, g, Candidate(order, g, i, num).value)
    decreases ZeroCount(g), 0, 0
  {
    if IsSafe(g, i / 9, i % 9, num) {
      SafeNotCurrent(g, i, num);
      ZeroCountDrops(g, i, num);
      SearchSound(order, g[i := num]);
      if Search(order, g[i := num]).Some? {
        SoundStep(order, g, i, num, Search(order, g[i := num]).value);
      }
    }
  }

  /** A completion found after a safe placement at the empty cell i is also sound for the grid before it. */
  lemma SoundStep(order: Grid -> seq<int>, g: Grid, i: nat, num: int, s: Grid)
    requires |g| == 81 && i < 81 && g[i] == 0 && IsSafe(g, i / 9, i % 9, num)
    requires OrderWithin(order) ==> 1 <= num <= 9
    requires SoundFor(order, g[i := num], s)
    ensures SoundFor(order, g, s)
  {
    ConflictFreeStep(g, i, num, s);
    ExtendsUndo(g, i, num, s);
    if InRange(g) && OrderWithin(order) {
      InRangeWrite(g, i, num);
    }
  }

  /** Writing a digit keeps a grid within 0..9. */
  lemma InRangeWrite(g: Grid, i: nat, num: int)
    requires InRange(g) && i < |g| && 1 <= num <= 9
    ensures InRange(g[i := num])
  {
  }

  /** A safe placement keeps a conflict-free grid conflict-free, so a conflict-free completion of it serves. */
  lemma ConflictFreeStep(g: Grid, i: nat, num: int, s: Grid)
    requires |g| == 81 && i < 81 && IsSafe(g, i / 9, i % 9, num)
    requires |s| == 81 && (NoConflicts(g[i := num]) ==> NoConflicts(s))
    ensures NoConflicts(g) ==> NoConflicts(s)
  {
    var row, col := i / 9, i % 9;
    assert Index(row, col) == i;
    if NoConflicts(g) {
      PlaceSafe(g, row, col, num);
    }
  }

  /** What a completion keeps of g[i := num] it keeps of g, where cell i was empty. */
  lemma ExtendsUndo(g: Grid, i: nat, num: int, s: Grid)
    requires |g| == 81 && i < 81 && g[i] == 0 && Extends(s, g[i := num])
    ensures Extends(s, g)
  {
    forall k | 0 <= k < 81 && g[k] != 0 ensures s[k] == g[k] {
      assert g[i := num][k] == g[k];
    }
  }

  /**
   * The search is complete: when some solved board keeps every filled cell of g,
   * the search finds a completion, whatever order of 1..9 it tries.
   */
  lemma {:induction false} SearchComplete(order: Grid -> seq<int>, g: Grid, s: Grid)
    requires |g| == 81 && OrderCovers(order) && Solved(s) && Extends(s, g)
    ensures Search(order, g).Some?
    decreases ZeroCount(g), 2, 0
  {
    var i := FirstEmpty(g);
    if i < 81 {
      assert 1 <= s[i] <= 9;
      assert s[i] in order(g);
      var j0 :| 0 <= j0 < |order(g)| && order(g)[j0] == s[i];
      TryComplete(order, g, i, order(g), 0, j0, s);
    }
  }

  /** Copying one empty cell's digit from a solution is a safe move that the solution still extends. */
  lemma CompletionStep(g: Grid, s: Grid, i: nat)
    requires |g| == 81 && Solved(s) && Extends(s, g) && i < 81 && g[i] == 0
    ensures IsSafe(g, i / 9, i % 9, s[i]) && Extends(s, g[i := s[i]])
    ensures ZeroCount(g[i := s[i]]) < ZeroCount(g)
  {
    var row, col := i / 9, i % 9;
    assert Index(row, col) == i;
    SafeInSolution(g, s, row, col);
    ZeroCountDrops(g, i, s[i]);
  }

  /** isSafe never accepts the value cell i already holds. */
  lemma SafeNotCurrent(g: Grid, i: nat, num: int)
    requires |g| == 81 && i < 81 && IsSafe(g, i / 9, i % 9, num)
    ensures num != g[i]
  {
    var row, col := i / 9, i % 9;
    assert Index(row, col) == i;
    assert At(g, row, col) != num;
  }

  /** Filling an empty cell with a digit leaves one empty cell fewer. */
  lemma ZeroCountDrops(g: Grid, i: nat, v: int)
    requires i < |g| && g[i] == 0 && v != 0
    ensures ZeroCount(g[i := v]) == ZeroCount(g) - 1
  {
  }

  lemma {:induction false} TryComplete(order: Grid -> seq<int>, g: Grid, i: nat, digits: seq<int>, j: nat, j0: nat, s: Grid)
    requires |g| == 81 && Solved(s) && Extends(s, g) && OrderCovers(order)
    requires i < 81 && g[i] == 0 && j <= j0 < |digits| && digits[j0] == s[i]
    ensures Try(order, g, i, digits, j).Some?
    decreases ZeroCount(g), 1, |digits| - j
  {
    if j == j0 {
      CompletionStep(g, s, i);
      SearchComplete(order, g[i := s[i]], s);
      assert Candidate(order, g, i, digits[j]).Some?;
    } else {
      TryComplete(order, g, i, digits, j + 1, j0, s);
    }
  }

  /** Ascending order is a shuffle of 1..9. */
  lemma AscendingIsShuffle(h: Grid)
    ensures IsShuffle(Ascending(h))
  {
    forall d | 1 <= d <= 9 ensures d in Digits() {
      assert Digits()[d - 1] == d;
    }
  }

  /**
   * On a board within 0..9 without conflicts, solveSudoku succeeds exactly when
   * a solved board keeping all its filled cells exists, and what it returns is
   * such a board.
   */
  lemma SolveCorrect(g: Grid)
    requires |g| == 81 && InRange(g) && NoConflicts(g)
    ensures Solve(g).Some? <==> exists s :: Solved(s) && Extends(s, g)
    ensures Solve(g).Some? ==> Solved(Solve(g).value) && Extends(Solve(g).value, g)
  {
    forall h ensures IsShuffle(Ascending(h)) {
      AscendingIsShuffle(h);
    }
    SearchSound(Ascending, g);
    if Solve(g).Some? {
      var s := Solve(g).value;
      assert Solved(s) && Extends(s, g);
    }
    if exists s :: Solved(s) && Extends(s, g) {
      var s :| Solved(s) && Extends(s, g);
      SearchComplete(Ascending, g, s);
    }
  }

  /** A board without empty cells is returned as it is, conflicts or not. */
  lemma SolveFull(g: Grid)
    requires |g| == 81 && NoZeros(g)
    ensures Solve(g) == Some(g)
  {
  }

  /**
   * Filling the first empty cell with the digit the search put there leads the
   * search to the same completion: a hint never steers the solver elsewhere.
   */
  lemma {:induction false} SearchKeepsFirstChoice(order: Grid -> seq<int>, g: Grid)
    requires |g| == 81 && Search(order, g).Some? && FirstEmpty(g) < 81
    ensures Search(order, g[FirstEmpty(g) := Search(order, g).value[FirstEmpty(g)]]) == Search(order, g)
  {
    TryChosen(order, g, FirstEmpty(g), order(g), 0);
  }

  lemma {:induction false} TryChosen(order: Grid -> seq<int>, g: Grid, i: nat, digits: seq<int>, j: nat)
    requires |g| == 81 && i < 81 && g[i] == 0 && j <= |digits| && Try(order, g, i, digits, j).Some?
    ensures Search(order, g[i := Try(order, g, i, digits, j).value[i]]) == Try(order, g, i, digits, j)
    decreases |digits| - j
  {
    var num := digits[j];
    var c := Candidate(order, g, i, num);
    if c.Some? {
      assert Try(order, g, i, digits, j) == c;
      CandidateChosen(order, g, i, num);
    } else {
      assert Try(order, g, i, digits, j) == Try(order, g, i, digits, j + 1);
      TryChosen(order, g, i, digits, j + 1);
    }
  }

  /** A candidate that succeeds keeps its digit at cell i, and the search from the grid holding it gives the same result. */
  lemma CandidateChosen(order: Grid -> seq<int>, g: Grid, i: nat, num: int)
    requires |g| == 81 && i < 81 && g[i] == 0 && Candidate(order, g, i, num).Some?
    ensures Candidate(order, g, i, num).value[i] == num
    ensures Search(order, g[i := num]) == Candidate(order, g, i, num)
  {
    assert IsSafe(g, i / 9, i % 9, num);
    SafeNotCurrent(g, i, num);
    SearchSound(order, g[i := num]);
  }

  /** Cell i is the first empty one when it is empty and every cell before it is filled. */
  lemma FirstEmptyAt(g: Grid, i: nat)
    requires i < |g| && g[i] == 0 && forall k :: 0 <= k < i ==> g[k] != 0
    ensures FirstEmpty(g) == i
  {
  }

  lemma IndexSplit(row: int, col: int)
    requires InBounds(row, col)
    ensures (9 * row + col) / 9 == row && (9 * row + col) % 9 == col
  {
  }

  /**
   * solveSudoku: backtracking in place. On success the grid holds Solve's
   * completion; on failure every tentative placement has been undone.
   */
  method SolveSudoku(grid: array<int>) returns (solved: bool)
    requires grid.Length == 81
    modifies grid
    ensures Solve(old(grid[..])) == if solved then Some(grid[..]) else None
    ensures !solved ==> grid[..] == old(grid[..])
    decreases ZeroCount(grid[..]), 2
  {
    ghost var g := grid[..];
    for row := 0 to 9
      invariant grid[..] == g
      invariant forall k :: 0 <= k < 9 * row ==> g[k] != 0
    {
      for col := 0 to 9
        invariant grid[..] == g
        invariant forall k :: 0 <= k < 9 * row + col ==> g[k] != 0
      {
        if grid[9 * row + col] == 0 {
          FirstEmptyAt(g, 9 * row + col);
          solved := SolveAt(grid, row, col);
          return;
        }
      }
    }
    assert FirstEmpty(g) == 81;
    return true;
  }

  /**
   * The digit loop of solveSudoku at its first empty cell (row, col): the
   * digits 1..9 in turn, until one leads to a completion.
   */
  method SolveAt(grid: array<int>, row: int, col: int) returns (solved: bool)
    requires grid.Length == 81 && InBounds(row, col) && FirstEmpty(grid[..]) == 9 * row + col
    modifies grid
    ensures Solve(old(grid[..])) == if solved then Some(grid[..]) else None
    ensures !solved ==> grid[..] == old(grid[..])
    decreases ZeroCount(grid[..]), 1
  {
    ghost var g := grid[..];
    for num := 1 to 10
      invariant grid[..] == g
      invariant Solve(g) == Try(Ascending, g, 9 * row + col, Digits(), num - 1)
    {
      DigitAt(num);
      solved := SolveWith(grid, row, col, num);
      if solved {
        return;
      }
    }
    return false;
  }

  /**
   * One candidate of that loop: when isSafe accepts num at (row, col) it is
   * placed and the search recurses; a failed branch resets the cell to 0.
   */
  method SolveWith(grid: array<int>, row: int, col: int, num: int) returns (solved: bool)
    requires grid.Length == 81 && InBounds(row, col) && grid[9 * row + col] == 0
    modifies grid
    ensures Candidate(Ascending, old(grid[..]), 9 * row + col, num) == if solved then Some(grid[..]) else None
    ensures !solved ==> grid[..] == old(grid[..])
    decreases ZeroCount(grid[..]), 0
  {
    ghost var g := grid[..];
    var i := 9 * row + col;
    IndexSplit(row, col);
    if IsSafe(grid[..], row, col, num) {
      assert num != 0 by { assert At(g, row, col) == 0; }
      grid[i] := num;
      assert grid[..] == g[i := num];
      ZeroCountDrops(g, i, num);
      solved := SolveSudoku(grid);
      if !solved {
        grid[i] := 0;
        assert grid[..] == g;
      }
    } else {
      solved := false;
    }
  }

  /**
   * fillGrid: the same backtracking, trying at each empty cell the digits that
   * order yields for the grid at that moment (the shuffled list of the source).
   */
  method FillGrid(grid: array<int>, order: Grid -> seq<int>) returns (filled: bool)
    requires grid.Length == 81
    modifies grid
    ensures Search(order, old(grid[..])) == if filled then Some(grid[..]) else None
    ensures !filled ==> grid[..] == old(grid[..])
    decreases ZeroCount(grid[..]), 2
  {
    ghost var g := grid[..];
    for i := 0 to 81
      invariant grid[..] == g
      invariant forall k :: 0 <= k < i ==> g[k] != 0
    {
      if grid[i] == 0 {
        FirstEmptyAt(g, i);
        filled := FillAt(grid, order, i / 9, i % 9);
        return;
      }
    }
    assert FirstEmpty(g) == 81;
    return true;
  }

  /** The digit loop of fillGrid at its first empty cell (row, col), over the shuffled list. */
  method FillAt(grid: array<int>, order: Grid -> seq<int>, row: int, col: int) returns (filled: bool)
    requires grid.Length == 81 && InBounds(row, col) && FirstEmpty(grid[..]) == 9 * row + col
    modifies grid
    ensures Search(order, old(grid[..])) == if filled then Some(grid[..]) else None
    ensures !filled ==> grid[..] == old(grid[..])
    decreases ZeroCount(grid[..]), 1
  {
    ghost var g := grid[..];
    var numbers := order(grid[..]);
    for j := 0 to |numbers|
      invariant grid[..] == g
      invariant Search(order, g) == Try(order, g, 9 * row + col, numbers, j)
    {
      filled := FillWith(grid, order, row, col, numbers[j]);
      if filled {
        return;
      }
    }
    return false;
  }

  /** One candidate of that loop, placed, searched below and reset as in SolveWith. */
  method FillWith(grid: array<int>, order: Grid -> seq<int>, row: int, col: int, num: int) returns (filled: bool)
    requires grid.Length == 81 && InBounds(row, col) && grid[9 * row + col] == 0
    modifies grid
    ensures Candidate(order, old(grid[..]), 9 * row + col, num) == if filled then Some(grid[..]) else None
    ensures !filled ==> grid[..] == old(grid[..])
    decreases ZeroCount(grid[..]), 0
  {
    ghost var g := grid[..];
    var i := 9 * row + col;
    IndexSplit(row, col);
    if IsSafe(grid[..], row, col, num) {
      assert num != 0 by { assert At(g, row, col) == 0; }
      grid[i] := num;
      assert grid[..] == g[i := num];
      ZeroCountDrops(g, i, num);
      filled := FillGrid(grid, order);
      if !filled {
        grid[i] := 0;
        assert grid[..] == g;
      }
    } else {
      filled := false;
    }
  }

  /** Every cell before (row, col) in row-major order is filled and consistent. */
  ghost predicate CheckedUpTo(g: Grid, row: int, col: int)
    requires |g| == 81
  {
    forall r, c :: InBounds(r, c) && 9 * r + c < 9 * row + col ==> At(g, r, c) != 0 && CellConsistent(g, r, c)
  }

  lemma CheckedStep(g: Grid, row: int, col: int)
    requires |g| == 81 && InBounds(row, col) && CheckedUpTo(g, row, col)
    requires At(g, row, col) != 0 && CellConsistent(g, row, col)
    ensures CheckedUpTo(g, row, col + 1)
  {
  }

  lemma CheckedAll(g: Grid)
    requires |g| == 81 && CheckedUpTo(g, 9, 0)
    ensures NoZeros(g) && NoConflicts(g)
  {
    forall k | 0 <= k < 81 ensures g[k] != 0 {
      assert At(g, k / 9, k % 9) == g[k];
    }
  }

  /**
   * isSolved: every cell is filled and, with the cell cleared for the moment,
   * isSafe accepts its value; the grid is restored on every path.
   */
  method IsSolved(grid: array<int>) returns (solved: bool)
    requires grid.Length == 81
    modifies grid
    ensures grid[..] == old(grid[..])
    ensures solved <==> NoZeros(old(grid[..])) && NoConflicts(old(grid[..]))
  {
    ghost var g := grid[..];
    for row := 0 to 9
      invariant grid[..] == g && CheckedUpTo(g, row, 0)
    {
      for col := 0 to 9
        invariant grid[..] == g && CheckedUpTo(g, row, col)
      {
        var ok := CheckCell(grid, row, col);
        if !ok {
          return false;
        }
        CheckedStep(g, row, col);
      }
    }
    CheckedAll(g);
    return true;
  }

  /**
   * The loop body of isSolved at (row, col): an empty cell fails; otherwise
   * the cell is cleared, isSafe judges its value, and the value is put back.
   */
  method CheckCell(grid: array<int>, row: int, col: int) returns (ok: bool)
    requires grid.Length == 81 && InBounds(row, col)
    modifies grid
    ensures grid[..] == old(grid[..])
    ensures ok <==> At(old(grid[..]), row, col) != 0 && CellConsistent(old(grid[..]), row, col)
  {
    ghost var g := grid[..];
    var i := 9 * row + col;
    var val := grid[i];
    assert At(g, row, col) == val;
    if val == 0 {
      return false;
    }
    grid[i] := 0;
    assert grid[..] == g[Index(row, col) := 0];
    ClearedCellSafe(g, row, col);
    ok := IsSafe(grid[..], row, col, val);
    grid[i] := val;
    assert grid[..] == g;
  }
}
