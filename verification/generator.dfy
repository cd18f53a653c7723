/**
 * Puzzle generation of src/App.js: generateFullGrid fills an empty board with
 * shuffled backtracking, and generateSudoku carves cells out of it while the
 * solver still finds a completion.
 *
 * Math.random is an input here: the shuffles are the digit order passed to the
 * search, and the random cells of the carving loop are a finite sequence of
 * (row, col) picks.
 */
module Generator {
  import opened Rules
  import opened Solver

  /** Each shuffle the order yields is a permutation of 1..9, as sorting [1..9] always gives. */
  ghost predicate ShuffleOrder(order: Grid -> seq<int>) {
    forall h :: IsShuffle(order(h))
  }

  function EmptyGrid(): (g: Grid)
    ensures |g| == 81
  {
    seq(81, i => 0)
  }

  /** A fixed solved board, used only to show that a completion of the empty board exists. */
  function PatternValue(r: int, c: int): int {
    (3 * (r % 3) + r / 3 + c) % 9 + 1
  }

  function PatternGrid(): (g: Grid)
    ensures |g| == 81
  {
    seq(81, i => PatternValue(i / 9, i % 9))
  }

  lemma ModNineDistinct(x: int, y: int)
    requires x != y && -9 < x - y < 9
    ensures x % 9 != y % 9
  {
  }

  lemma PatternDistinct(r1: int, c1: int, r2: int, c2: int)
    requires InBounds(r1, c1) && InBounds(r2, c2) && (r1, c1) != (r2, c2) && SameUnit(r1, c1, r2, c2)
    ensures PatternValue(r1, c1) != PatternValue(r2, c2)
  {
    var q1, m1, q2, m2 := r1 / 3, r1 % 3, r2 / 3, r2 % 3;
    var p1, n1, p2, n2 := c1 / 3, c1 % 3, c2 / 3, c2 % 3;
    assert r1 == 3 * q1 + m1 && r2 == 3 * q2 + m2 && c1 == 3 * p1 + n1 && c2 == 3 * p2 + n2;
    assert 0 <= q1 < 3 && 0 <= m1 < 3 && 0 <= q2 < 3 && 0 <= m2 < 3;
    assert 0 <= p1 < 3 && 0 <= n1 < 3 && 0 <= p2 < 3 && 0 <= n2 < 3;
    var x1, x2 := 3 * m1 + q1 + c1, 3 * m2 + q2 + c2;
    ModNineDistinct(x1, x2);
  }

  lemma PatternSolved()
    ensures Solved(PatternGrid())
  {
    var p := PatternGrid();
    forall r, c | InBounds(r, c)
      ensures CellConsistent(p, r, c)
    {
      assert (9 * r + c) / 9 == r && (9 * r + c) % 9 == c;
      forall r2, c2 | InBounds(r2, c2) && (r2, c2) != (r, c) && SameUnit(r, c, r2, c2)
        ensures At(p, r2, c2) != At(p, r, c)
      {
        assert (9 * r2 + c2) / 9 == r2 && (9 * r2 + c2) % 9 == c2;
        PatternDistinct(r, c, r2, c2);
      }
    }
  }

  /**
   * fillGrid on the empty board always succeeds, whatever the shuffles, and
   * yields a solved board.
   */
  lemma FillFromEmpty(order: Grid -> seq<int>)
    requires ShuffleOrder(order)
    ensures Search(order, EmptyGrid()).Some? && Solved(Search(order, EmptyGrid()).value)
  {
    var e := EmptyGrid();
    PatternSolved();
    SearchComplete(order, e, PatternGrid());
    SearchSound(order, e);
    assert NoConflicts(e);
  }

  /** A board that a solved board extends is solvable: the solver never rejects a carved cell. */
  lemma ExtendsSolvedIsSolvable(full: Grid, p: Grid)
    requires Solved(full) && |p| == 81 && Extends(full, p)
    ensures Solve(p).Some?
  {
    forall h ensures IsShuffle(Ascending(h)) {
      AscendingIsShuffle(h);
    }
    SearchComplete(Ascending, p, full);
  }

  /** grid.map(row => row.slice()): a fresh array with the same cells. */
  method CopyGrid(g: Grid) returns (a: array<int>)
    ensures fresh(a) && a[..] == g
  {
    a := new int[|g|](i requires 0 <= i < |g| => g[i]);
  }

  /** puzzle.map(row => row.map(val => val !== 0)). */
  function FixedMask(puzzle: Grid): seq<bool> {
    seq(|puzzle|, i requires 0 <= i < |puzzle| => puzzle[i] != 0)
  }

  /** generateFullGrid: fillGrid run on an all-zero board. */
  method GenerateFullGrid(order: Grid -> seq<int>) returns (grid: array<int>)
    requires ShuffleOrder(order)
    ensures grid.Length == 81 && Search(order, EmptyGrid()) == Some(grid[..])
    ensures Solved(grid[..])
  {
    grid := new int[81](i => 0);
    assert grid[..] == EmptyGrid();
    FillFromEmpty(order);
    var filled := FillGrid(grid, order);
  }

  /** The removal budget of generateSudoku: 40 for "easy", 50 for "medium", 60 for anything else. */
  function CarvingAttempts(difficulty: string): nat {
    if difficulty == "easy" then 40
    else if difficulty == "medium" then 50
    else 60
  }

  /** Math.floor(Math.random() * 9) gives a row and a column within 0..8. */
  predicate PicksInBounds(picks: seq<(int, int)>) {
    forall k :: 0 <= k < |picks| ==> 0 <= picks[k].0 < 9 && 0 <= picks[k].1 < 9
  }

  /** Every cell picked among the first k picks is empty. */
  ghost predicate PicksCleared(p: Grid, picks: seq<(int, int)>, k: nat)
    requires |p| == 81 && k <= |picks| && PicksInBounds(picks)
  {
    forall k' :: 0 <= k' < k ==> p[Index(picks[k'].0, picks[k'].1)] == 0
  }

  /** Every empty cell was picked among the first k picks. */
  ghost predicate ZerosPicked(p: Grid, picks: seq<(int, int)>, k: nat)
    requires |p| == 81 && k <= |picks|
  {
    forall i :: 0 <= i < 81 && p[i] == 0 ==> exists k' :: 0 <= k' < k && Index(picks[k'].0, picks[k'].1) == i
  }

  /** Clearing the cell of pick k - 1 (or finding it empty) extends both facts to the first k picks. */
  lemma PickStep(before: Grid, after: Grid, picks: seq<(int, int)>, k: nat)
    requires 0 < k <= |picks| && PicksInBounds(picks)
    requires |before| == 81 && PicksCleared(before, picks, k - 1) && ZerosPicked(before, picks, k - 1)
    requires after == before[Index(picks[k - 1].0, picks[k - 1].1) := 0]
    ensures PicksCleared(after, picks, k) && ZerosPicked(after, picks, k)
  {
    var idx := Index(picks[k - 1].0, picks[k - 1].1);
    forall i | 0 <= i < 81 && after[i] == 0
      ensures exists k' :: 0 <= k' < k && Index(picks[k'].0, picks[k'].1) == i
    {
      if i == idx {
        assert Index(picks[k - 1].0, picks[k - 1].1) == i;
      } else {
        assert before[i] == 0;
      }
    }
  }

  /**
   * generateSudoku: a full board from generateFullGrid, copied, with cells
   * removed from the copy as long as attempts and picks remain.
   */
  method GenerateSudoku(difficulty: string, order: Grid -> seq<int>, picks: seq<(int, int)>)
    returns (puzzle: array<int>, fixedCells: seq<bool>)
    requires ShuffleOrder(order)
    requires PicksInBounds(picks)
    ensures puzzle.Length == 81
    ensures Search(order, EmptyGrid()).Some?
    ensures Solved(Search(order, EmptyGrid()).value) && Extends(Search(order, EmptyGrid()).value, puzzle[..])
    ensures Solve(puzzle[..]).Some?
    ensures ZeroCount(puzzle[..]) <= CarvingAttempts(difficulty)
    ensures ZeroCount(puzzle[..]) < CarvingAttempts(difficulty) ==>
              forall k :: 0 <= k < |picks| ==> puzzle[Index(picks[k].0, picks[k].1)] == 0
    ensures forall i :: 0 <= i < 81 && puzzle[i] == 0 ==>
              exists k :: 0 <= k < |picks| && Index(picks[k].0, picks[k].1) == i
    ensures |fixedCells| == 81 && forall i :: 0 <= i < 81 ==> (fixedCells[i] <==> puzzle[i] != 0)
  {
    var fullGrid := GenerateFullGrid(order);
    puzzle := CopyGrid(fullGrid[..]);
    RemoveCells(puzzle, fullGrid[..], CarvingAttempts(difficulty), picks);
    ExtendsSolvedIsSolvable(fullGrid[..], puzzle[..]);
    fixedCells := FixedMask(puzzle[..]);
  }

  /**
   * The removal loop of generateSudoku on a copy of the solved board full:
   * each pick of a filled cell clears it, keeps the clear when a copy still
   * solves and restores it otherwise, and spends one attempt either way. The
   * loop ends when the attempts or the picks run out.
   */
  method RemoveCells(puzzle: array<int>, ghost full: Grid, attempts: nat, picks: seq<(int, int)>)
    requires puzzle.Length == 81 && puzzle[..] == full && Solved(full)
    requires PicksInBounds(picks)
    modifies puzzle
    ensures Extends(full, puzzle[..])
    ensures ZeroCount(puzzle[..]) <= attempts
    ensures ZeroCount(puzzle[..]) < attempts ==>
              forall k :: 0 <= k < |picks| ==> puzzle[Index(picks[k].0, picks[k].1)] == 0
    ensures forall i :: 0 <= i < 81 && puzzle[i] == 0 ==>
              exists k :: 0 <= k < |picks| && Index(picks[k].0, picks[k].1) == i
  {
    var attempts := attempts;
    ghost var budget := attempts;
    assert ZeroCount(puzzle[..]) == 0 by { assert NoZeros(full); }
    var k := 0;
    while attempts > 0 && k < |picks|
      invariant 0 <= attempts <= budget && k <= |picks|
      invariant Extends(full, puzzle[..])
      invariant ZeroCount(puzzle[..]) + attempts == budget
      invariant PicksCleared(puzzle[..], picks, k) && ZerosPicked(puzzle[..], picks, k)
      decreases |picks| - k
    {
      var row, col := picks[k].0, picks[k].1;
      ghost var before := puzzle[..];
      k := k + 1;
      if puzzle[9 * row + col] != 0 {
        var backup := puzzle[9 * row + col];
        puzzle[9 * row + col] := 0;
        ghost var cleared := puzzle[..];
        var copyGrid := CopyGrid(puzzle[..]);
        var solvable := SolveSudoku(copyGrid);
        if !solvable {
          puzzle[9 * row + col] := backup;
          attempts := attempts - 1;
        } else {
          attempts := attempts - 1;
        }
        // The restore above never runs: the cleared board still extends the full one.
        ExtendsSolvedIsSolvable(full, cleared);
        assert puzzle[..] == cleared == before[Index(row, col) := 0];
      }
      assert before[Index(row, col)] == 0 ==> puzzle[..] == before;
      PickStep(before, puzzle[..], picks, k);
    }
  }
}
