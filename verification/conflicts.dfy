/**
 * The conflict scan of handleChange (src/App.js): after a digit is entered at
 * (row, col), collect every other cell of its row, column and box holding the
 * same digit, and the edited cell itself whenever at least one was found.
 * The source keys cells as "row-col" strings; here they are (row, col) pairs.
 */
module Conflicts {
  import opened Rules

  /** (r, c) is another cell of the row, column or box of (row, col), and it holds num. */
  ghost predicate Clashes(g: Grid, row: int, col: int, num: int, r: int, c: int)
    requires |g| == 81 && InBounds(row, col)
  {
    InBounds(r, c) && (r, c) != (row, col) && SameUnit(row, col, r, c) && At(g, r, c) == num
  }

  /**
   * What the scan must produce: nothing for num = 0; otherwise exactly the
   * cells clashing with (row, col), plus (row, col) itself exactly when there
   * is at least one.
   */
  ghost predicate IsConflictSet(g: Grid, row: int, col: int, num: int, s: set<(int, int)>)
    requires |g| == 81 && InBounds(row, col)
  {
    (num == 0 ==> s == {}) &&
    (num != 0 ==>
      (forall p :: p in s && p != (row, col) ==> Clashes(g, row, col, num, p.0, p.1)) &&
      (forall r, c :: Clashes(g, row, col, num, r, c) ==> (r, c) in s) &&
      ((row, col) in s <==> exists r, c :: Clashes(g, row, col, num, r, c)))
  }

  /** Every member is the edited cell or clashes with it, and the edited cell is a member only with a witness (wr, wc). */
  ghost predicate OnlyClashes(g: Grid, row: int, col: int, num: int, s: set<(int, int)>, wr: int, wc: int)
    requires |g| == 81 && InBounds(row, col)
  {
    (forall p :: p in s && p != (row, col) ==> Clashes(g, row, col, num, p.0, p.1)) &&
    ((row, col) in s ==> Clashes(g, row, col, num, wr, wc))
  }

  /** The row, column and box loops of handleChange (lines 181-214). */
  method ScanConflicts(g: Grid, row: int, col: int, num: int) returns (conflicts: set<(int, int)>)
    requires |g| == 81 && InBounds(row, col)
    ensures IsConflictSet(g, row, col, num, conflicts)
  {
    conflicts := {};
    if num == 0 {
      return;
    }
    ghost var wr, wc := row, col;

    for c := 0 to 9
      invariant OnlyClashes(g, row, col, num, conflicts, wr, wc)
      invariant forall c' :: 0 <= c' < c ==> (Clashes(g, row, col, num, row, c') ==> (row, c') in conflicts && (row, col) in conflicts)
    {
      if c != col && g[9 * row + c] == num {
        conflicts := conflicts + {(row, c)} + {(row, col)};
        wr, wc := row, c;
      }
    }
    ghost var rowDone := conflicts;

    for r := 0 to 9
      invariant OnlyClashes(g, row, col, num, conflicts, wr, wc) && rowDone <= conflicts
      invariant forall r' :: 0 <= r' < r ==> (Clashes(g, row, col, num, r', col) ==> (r', col) in conflicts && (row, col) in conflicts)
    {
      if r != row && g[9 * r + col] == num {
        conflicts := conflicts + {(r, col)} + {(row, col)};
        wr, wc := r, col;
      }
    }
    ghost var lineDone := conflicts;

    var boxRowStart := 3 * (row / 3);
    var boxColStart := 3 * (col / 3);
    conflicts, wr, wc := ScanBox(g, row, col, num, conflicts, wr, wc);

    // Every clash lies in the row, in the column, or, off both, in the box of (row, col).
    forall r, c | Clashes(g, row, col, num, r, c)
      ensures (r, c) in conflicts && (row, col) in conflicts
    {
      if r == row {
        assert (r, c) in rowDone && (row, col) in rowDone;
      } else if c == col {
        assert (r, c) in lineDone && (row, col) in lineDone;
      } else {
        assert boxRowStart <= r < boxRowStart + 3 && boxColStart <= c < boxColStart + 3;
      }
    }
  }

  /** The box loops: every clash in the box of (row, col) joins the set, and (row, col) with it. */
  method ScanBox(g: Grid, row: int, col: int, num: int, found: set<(int, int)>, ghost wr: int, ghost wc: int)
    returns (conflicts: set<(int, int)>, ghost wr': int, ghost wc': int)
    requires |g| == 81 && InBounds(row, col) && OnlyClashes(g, row, col, num, found, wr, wc)
    ensures OnlyClashes(g, row, col, num, conflicts, wr', wc') && found <= conflicts
    ensures forall r, c :: 3 * (row / 3) <= r < 3 * (row / 3) + 3 && 3 * (col / 3) <= c < 3 * (col / 3) + 3 ==>
              (Clashes(g, row, col, num, r, c) ==> (r, c) in conflicts && (row, col) in conflicts)
  {
    conflicts, wr', wc' := found, wr, wc;
    var boxRowStart := 3 * (row / 3);
    var boxColStart := 3 * (col / 3);
    for r := boxRowStart to boxRowStart + 3
      invariant OnlyClashes(g, row, col, num, conflicts, wr', wc') && found <= conflicts
      invariant forall r', c' :: boxRowStart <= r' < r && boxColStart <= c' < boxColStart + 3 ==>
                  (Clashes(g, row, col, num, r', c') ==> (r', c') in conflicts && (row, col) in conflicts)
    {
      for c := boxColStart to boxColStart + 3
        invariant OnlyClashes(g, row, col, num, conflicts, wr', wc') && found <= conflicts
        invariant forall r', c' :: boxRowStart <= r' < r && boxColStart <= c' < boxColStart + 3 ==>
                    (Clashes(g, row, col, num, r', c') ==> (r', c') in conflicts && (row, col) in conflicts)
        invariant forall c' :: boxColStart <= c' < c ==> (Clashes(g, row, col, num, r, c') ==> (r, c') in conflicts && (row, col) in conflicts)
      {
        if (r != row || c != col) && g[9 * r + c] == num {
          conflicts := conflicts + {(r, c)} + {(row, col)};
          wr', wc' := r, c;
        }
      }
    }
  }

  /** The conflict set is determined by the grid, the cell and the digit. */
  lemma ConflictSetUnique(g: Grid, row: int, col: int, num: int, s: set<(int, int)>, t: set<(int, int)>)
    requires |g| == 81 && InBounds(row, col)
    requires IsConflictSet(g, row, col, num, s) && IsConflictSet(g, row, col, num, t)
    ensures s == t
  {
    if num != 0 {
      forall p | p in s ensures p in t {
        if p != (row, col) {
          assert Clashes(g, row, col, num, p.0, p.1);
        }
      }
      forall p | p in t ensures p in s {
        if p != (row, col) {
          assert Clashes(g, row, col, num, p.0, p.1);
        }
      }
    }
  }

  /**
   * Conflicts are symmetric: when (row, col) holds num and the scan from it
   * reports the other cell (r, c), the scan from (r, c) reports (row, col).
   */
  lemma ConflictSymmetric(g: Grid, row: int, col: int, num: int, s: set<(int, int)>, r: int, c: int, t: set<(int, int)>)
    requires |g| == 81 && InBounds(row, col) && InBounds(r, c) && At(g, row, col) == num
    requires IsConflictSet(g, row, col, num, s) && (r, c) in s && (r, c) != (row, col)
    requires IsConflictSet(g, r, c, num, t)
    ensures (row, col) in t && (r, c) in t
  {
    assert Clashes(g, row, col, num, r, c);
    assert Clashes(g, r, c, num, row, col);
  }
}
