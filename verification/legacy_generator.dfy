/**
 * The older generateSudoku of src/sudokuUtils.js: random digits are placed one
 * at a time on an empty board, each only where isSafe allows it, until a
 * difficulty-dependent number of placements has succeeded.
 *
 * The file calls isSafe without defining or importing it; the model uses the
 * rule checker of src/App.js. The random (row, col, num) triples are a finite
 * input sequence, and the loop also ends when it runs out.
 */
module LegacyGenerator {
  import opened Rules
  import opened Solver
  import Generator

  /** The placement budget: 30 for "easy", 20 for "medium", 10 for "hard", 20 otherwise. */
  function PlacementAttempts(difficulty: string): nat {
    if difficulty == "easy" then 30
    else if difficulty == "medium" then 20
    else if difficulty == "hard" then 10
    else 20
  }

  /** Rows and columns within 0..8 and digits within 1..9, as the random draws give. */
  predicate PicksInRange(picks: seq<(int, int, int)>) {
    forall k :: 0 <= k < |picks| ==> 0 <= picks[k].0 < 9 && 0 <= picks[k].1 < 9 && 1 <= picks[k].2 <= 9
  }

  /** The filled cells of p, counted. */
  function FilledCount(p: Grid): nat {
    |p| - ZeroCount(p)
  }

  /** Every filled cell of p holds the digit of some pick among the first k aimed at it. */
  ghost predicate FilledFromPicks(p: Grid, picks: seq<(int, int, int)>, k: nat)
    requires |p| == 81 && k <= |picks|
  {
    forall i :: 0 <= i < 81 && p[i] != 0 ==>
      exists k' :: 0 <= k' < k && Index(picks[k'].0, picks[k'].1) == i && picks[k'].2 == p[i]
  }

  /** One write fills at most one more cell. */
  lemma WriteCount(p: Grid, i: int, v: int)
    requires 0 <= i < |p| && v != 0
    ensures FilledCount(p[i := v]) <= FilledCount(p) + 1
  {
    assert multiset(p)[0] <= |multiset(p)|;
    assert multiset(p[i := v])[0] <= |multiset(p[i := v])|;
  }

  /** A write isSafe allows keeps the board within range and conflict-free, and fills at most one cell. */
  lemma SafeWrite(p: Grid, row: int, col: int, num: int)
    requires |p| == 81 && InBounds(row, col) && 1 <= num <= 9
    requires InRange(p) && NoConflicts(p) && IsSafe(p, row, col, num)
    ensures InRange(p[Index(row, col) := num]) && NoConflicts(p[Index(row, col) := num])
    ensures FilledCount(p[Index(row, col) := num]) <= FilledCount(p) + 1
  {
    PlaceSafe(p, row, col, num);
    WriteCount(p, Index(row, col), num);
  }

  /** The all-zero board of line 3 is within range, conflict-free and has nothing filled. */
  lemma EmptyBoard(p: Grid)
    requires |p| == 81 && forall i :: 0 <= i < 81 ==> p[i] == 0
    ensures InRange(p) && NoConflicts(p) && FilledCount(p) == 0
  {
    forall r, c | InBounds(r, c) ensures CellConsistent(p, r, c) {
      assert At(p, r, c) == p[9 * r + c];
    }
    AllZeroCount(p);
  }

  lemma {:induction false} AllZeroCount(p: Grid)
    requires forall i :: 0 <= i < |p| ==> p[i] == 0
    ensures ZeroCount(p) == |p|
  {
    if |p| > 0 {
      AllZeroCount(p[1..]);
      assert p == [p[0]] + p[1..];
    }
  }

  /** Pick k - 1 either left the board alone or wrote its digit into its cell. */
  lemma FromPicksStep(before: Grid, after: Grid, picks: seq<(int, int, int)>, k: nat)
    requires 0 < k <= |picks| && PicksInRange(picks) && |before| == 81
    requires FilledFromPicks(before, picks, k - 1)
    requires after == before || after == before[Index(picks[k - 1].0, picks[k - 1].1) := picks[k - 1].2]
    ensures FilledFromPicks(after, picks, k)
  {
    var idx := Index(picks[k - 1].0, picks[k - 1].1);
    forall i | 0 <= i < 81 && after[i] != 0
      ensures exists k' :: 0 <= k' < k && Index(picks[k'].0, picks[k'].1) == i && picks[k'].2 == after[i]
    {
      if after != before && i == idx {
        assert Index(picks[k - 1].0, picks[k - 1].1) == i && picks[k - 1].2 == after[i];
      } else {
        assert after[i] == before[i];
      }
    }
  }

  /**
   * The state of the placement loop after k picks with attempts of budget left:
   * a board within 0..9 without conflicts, no more filled cells than
   * placements made, each filled cell from a pick.
   */
  ghost predicate Progress(p: Grid, picks: seq<(int, int, int)>, k: nat, attempts: int, budget: nat) {
    |p| == 81 && k <= |picks| && 0 <= attempts <= budget &&
    InRange(p) && NoConflicts(p) && FilledCount(p) + attempts <= budget && FilledFromPicks(p, picks, k)
  }

  /** One iteration of the loop: pick k is written, spending an attempt, exactly when isSafe allows it. */
  lemma PlacementStep(before: Grid, after: Grid, picks: seq<(int, int, int)>, k: nat, attempts: int, left: int, budget: nat)
    requires PicksInRange(picks) && k < |picks| && attempts > 0
    requires Progress(before, picks, k, attempts, budget)
    requires IsSafe(before, picks[k].0, picks[k].1, picks[k].2) ==>
               after == before[Index(picks[k].0, picks[k].1) := picks[k].2] && left == attempts - 1
    requires !IsSafe(before, picks[k].0, picks[k].1, picks[k].2) ==> after == before && left == attempts
    ensures Progress(after, picks, k + 1, left, budget)
  {
    var row, col, num := picks[k].0, picks[k].1, picks[k].2;
    if IsSafe(before, row, col, num) {
      SafeWrite(before, row, col, num);
    }
    FromPicksStep(before, after, picks, k + 1);
  }

  /**
   * generateSudoku (sudokuUtils.js): every stored value stays within 0..9, the
   * board never holds a conflict, attempts drops only on a placement so at most
   * the budget of cells end up filled, and each filled cell comes from a pick.
   */
  method GenerateSudoku(difficulty: string, picks: seq<(int, int, int)>)
    returns (puzzle: array<int>, fixedCells: seq<bool>)
    requires PicksInRange(picks)
    ensures puzzle.Length == 81 && InRange(puzzle[..]) && NoConflicts(puzzle[..])
    ensures FilledCount(puzzle[..]) <= PlacementAttempts(difficulty)
    ensures FilledFromPicks(puzzle[..], picks, |picks|)
    ensures |fixedCells| == 81 && forall i :: 0 <= i < 81 ==> (fixedCells[i] <==> puzzle[i] != 0)
  {
    puzzle := new int[81](i => 0);
    var attempts := PlacementAttempts(difficulty);
    ghost var budget := attempts;
    EmptyBoard(puzzle[..]);
    var k := 0;
    while attempts > 0 && k < |picks|
      invariant puzzle.Length == 81 && Progress(puzzle[..], picks, k, attempts, budget)
      decreases |picks| - k
    {
      var row, col, num := picks[k].0, picks[k].1, picks[k].2;
      ghost var before := puzzle[..];
      ghost var left := attempts;
      if IsSafe(puzzle[..], row, col, num) {
        puzzle[9 * row + col] := num;
        assert puzzle[..] == before[Index(row, col) := num];
        attempts := attempts - 1;
      }
      PlacementStep(before, puzzle[..], picks, k, left, attempts, budget);
      k := k + 1;
    }
    if k < |picks| {
      assert FilledFromPicks(puzzle[..], picks, |picks|) by {
        FromPicksMore(puzzle[..], picks, k);
      }
    }
    fixedCells := Generator.FixedMask(puzzle[..]);
  }

  /** What the first k picks account for, all of them account for. */
  lemma FromPicksMore(p: Grid, picks: seq<(int, int, int)>, k: nat)
    requires |p| == 81 && k <= |picks| && FilledFromPicks(p, picks, k)
    ensures FilledFromPicks(p, picks, |picks|)
  {
    forall i | 0 <= i < 81 && p[i] != 0
      ensures exists k' :: 0 <= k' < |picks| && Index(picks[k'].0, picks[k'].1) == i && picks[k'].2 == p[i]
    {
      var k' :| 0 <= k' < k && Index(picks[k'].0, picks[k'].1) == i && picks[k'].2 == p[i];
    }
  }
}
