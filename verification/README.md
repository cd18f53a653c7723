# Sudoku engine, modelled in Dafny

This project models the engine of a browser Sudoku game and proves what it
promises. The engine consists of the rule check `isSafe`, the backtracking
solver `solveSudoku`, the full-board generator `generateFullGrid`/`fillGrid`,
the puzzle carver `generateSudoku`, the whole-board check `isSolved`, and the
state changes of the game screen. Those state changes are an edit
(`handleChange`, with its conflict highlighting), a hint (`giveHint`) and
"solve" (`solveCurrentPuzzle`). All of these live in `src/App.js`. The project
also models the older generator of `src/sudokuUtils.js`, which places random
safe digits.

A board is 81 integers in row-major order: cell (row, col) sits at index
`9 * row + col`, and 0 marks an empty cell. The source keeps nine rows of nine;
the flat layout holds the same data. Where the source changes a board in place
(the solver, the generator, the carver, `isSolved`), the model works on an
`array<int>`. Values passed around are `seq<int>`.

Files and modules:

- `rules.dfy` (`Rules`): the board, the unit relation, `isSafe` as the nine
  iterations of its loop, and what it means.
- `solver.dfy` (`Solver`): the specification of the depth-first search
  (`Search`, `Try`, `Candidate`) and its soundness and completeness. It also
  holds the in-place methods `SolveSudoku` and `FillGrid`, proved against that
  specification, and `IsSolved`.
  - Each backtracking method is split in three: the scan for the first empty
    cell, the loop over its candidate digits, and one candidate
    (place, recurse, undo).
- `generator.dfy` (`Generator`): `generateFullGrid` and the carving loop of
  `generateSudoku`.
- `legacy_generator.dfy` (`LegacyGenerator`): the random safe-placement
  generator of `src/sudokuUtils.js`.
- `conflicts.dfy` (`Conflicts`): the row, column and box conflict scan of
  `handleChange`.
- `game.dfy` (`Game`): the game state (board, fixed-cell mask, highlighted
  conflicts, hints left) as a class whose methods are `handleChange`,
  `solveCurrentPuzzle` and `giveHint`.

Randomness is an input.

- `fillGrid`'s shuffled digit list is supplied by `order`. It is a function
  from the board at the moment of the visit to the list tried there.
  - A depth-first search in fixed cell order never visits the same board
    twice, so such a function can stand for any run of shuffles.
  - Where the source relies on the list being a shuffle of 1..9, the model
    requires `ShuffleOrder(order)`.
- The random cells of the carving loop, and the random (row, col, digit)
  triples of the older generator, are finite sequences of picks.

The solver's success means a full board that keeps every filled cell of its
input. That board is conflict-free exactly when the input was.
`Solver.SolveFull` shows that a full board is accepted as it is, conflicts
included.

## Model

| member | source | states |
|---|---|---|
| Rules.IsSafe | src/App.js:5-13 | isSafe scans the cell itself, so it rejects a digit the cell already holds |
| Rules.IsSafeMeans | src/App.js:5-13 | isSafe accepts num at (row, col) exactly when no cell of its row, its column or its 3x3 box holds num (both directions) |
| Rules.PlaceSafe | src/App.js:21-22 | placing a digit that isSafe accepts keeps a conflict-free board conflict-free |
| Rules.ClearedCellSafe | src/App.js:105-106 | with the cell cleared, isSafe accepts the cell's own value exactly when no other cell of its units holds that value |
| Rules.SafeInSolution | src/App.js:20-21 | the digit a solved extension of the board has at an empty cell is one isSafe accepts there |
| Solver.SolveSudoku | src/App.js:16-32 | on success the array holds Solve of the input, on failure Solve gives None and the array is exactly the input (every placement undone) |
| Solver.SolveAt | src/App.js:19-27 | the digit loop at the first empty cell yields what the search specification yields from that cell, restoring the board when no digit works |
| Solver.SolveWith | src/App.js:21-25 | one candidate digit: the board ends as the search result below it, or as it was when the digit is unsafe or leads nowhere |
| Solver.FillGrid | src/App.js:37-56 | fillGrid ends with Search(order, input), or reports failure with the board unchanged |
| Solver.FillAt | src/App.js:41-53 | the loop over the shuffled list at the first empty cell matches the search specification over that list |
| Solver.FillWith | src/App.js:46-50 | one shuffled candidate: placed, searched below and undone on failure |
| Solver.SearchSound | src/App.js:16-32 | a result of the search is full, keeps every filled cell of the input, is conflict-free when the input is, and stays in 0..9 when the digits tried are digits |
| Solver.TrySound | src/App.js:20-26 | the same four facts for a result found among candidates digits[j..] of the first empty cell |
| Solver.CandidateSound | src/App.js:21-23 | the same four facts for the result below one safe candidate |
| Solver.SearchComplete | src/App.js:16-32 | when some solved board extends the input, the search succeeds for every order that offers each of 1..9 |
| Solver.TryComplete | src/App.js:20-26 | a candidate list holding the solution's digit at or after position j finds a completion |
| Solver.CompletionStep | src/App.js:21-22 | copying a solution's digit into an empty cell is a safe move that the solution still extends, and it leaves one empty cell fewer |
| Solver.SolveCorrect | src/App.js:16-32 | on a conflict-free board in 0..9, solveSudoku succeeds exactly when a solved extension exists, and what it returns is one |
| Solver.SolveFull | src/App.js:17-31 | a board without empty cells is returned as it is |
| Solver.AscendingIsShuffle | src/App.js:20 | the digits 1..9 tried by solveSudoku are a shuffle of 1..9, so every fact proved for shuffled orders holds for it |
| Solver.SearchKeepsFirstChoice | src/App.js:268-272 | writing the solver's digit into the first empty cell leaves the solver's result unchanged |
| Solver.TryChosen | src/App.js:20-26 | the same, for the result found among candidates digits[j..] |
| Solver.CandidateChosen | src/App.js:21-23 | a successful candidate keeps its digit in its cell, and searching from the board holding it gives the same result |
| Solver.IsSolved | src/App.js:99-114 | isSolved returns true exactly when no cell is empty and the board has no conflict, and the array is the same afterwards |
| Solver.CheckCell | src/App.js:102-110 | one cell of isSolved: fails on an empty cell, otherwise succeeds exactly when the cell is consistent with its units, and restores it |
| Solver.CheckedAll | src/App.js:100-113 | having checked all 81 cells in row-major order means no empty cell and no conflict |
| Generator.FillFromEmpty | src/App.js:35-59 | fillGrid on the empty board succeeds for every sequence of shuffles and yields a solved board |
| Generator.GenerateFullGrid | src/App.js:35-59 | generateFullGrid returns the search result for the empty board, and it is solved |
| Generator.CopyGrid | src/App.js:71 | the copy is a fresh array with the same cells |
| Generator.ExtendsSolvedIsSolvable | src/App.js:82-87 | a board that the solved full board extends is solvable, so the restore branch of the carving loop never runs |
| Generator.PickStep | src/App.js:77-80 | clearing the picked cell extends "picked cells are empty" and "empty cells were picked" to one more pick |
| Generator.RemoveCells | src/App.js:73-92 | the carved board keeps every remaining cell of the full board; at most the budget of cells are cleared; a budget left unspent means every picked cell is cleared; every empty cell was picked |
| Generator.GenerateSudoku | src/App.js:62-96 | the puzzle extends a solved full board, is solvable, has at most 40/50/60 empty cells by difficulty, and its mask marks exactly the filled cells |
| LegacyGenerator.EmptyBoard | src/sudokuUtils.js:3 | the all-zero board is in range, conflict-free and has no filled cell |
| LegacyGenerator.SafeWrite | src/sudokuUtils.js:25-26 | a digit written where isSafe allows keeps the board in 0..9 and conflict-free, and fills at most one more cell |
| LegacyGenerator.PlacementStep | src/sudokuUtils.js:21-29 | one iteration keeps the loop invariant: in range, conflict-free, filled cells no more than placements made, each filled cell from a pick |
| LegacyGenerator.GenerateSudoku | src/sudokuUtils.js:2-33 | the board stays in 0..9 and conflict-free, has at most 30/20/10/20 filled cells by difficulty, every filled cell holds a picked digit, and the mask marks exactly the filled cells |
| Conflicts.ScanConflicts | src/App.js:181-214 | the scan returns nothing for 0, and otherwise exactly the other row, column and box cells holding the digit, plus the edited cell exactly when there is one |
| Conflicts.ScanBox | src/App.js:205-214 | the box loops add every clash inside the box of the edited cell, and only clashes |
| Conflicts.ConflictSetUnique | src/App.js:181-214 | the conflict set is determined by the board, the cell and the digit |
| Conflicts.ConflictSymmetric | src/App.js:188-214 | if editing A highlights B, then editing B with the same digit highlights A |
| Game.Session.constructor | src/App.js:226-245 | a new game holds the given puzzle and its mask, no highlights and three hints |
| Game.Session.HandleChange | src/App.js:170-223 | an edit of a fixed cell or a rejected entry changes nothing; otherwise the cell takes the entry, the highlights become its conflict set, the givens stay, and the player is congratulated exactly when the board is now solved |
| Game.Session.SolveCurrent | src/App.js:247-256 | the board becomes the solver's completion, which is full and keeps every filled cell, with highlights cleared, exactly when the solver succeeds; otherwise nothing changes |
| Game.Session.GiveHint | src/App.js:258-280 | without hints, without a solution or without an empty cell nothing changes; otherwise only the first empty cell takes the solver's digit and one hint is spent; the solver's result is the same afterwards |
| Game.EditKeepsGivens | src/App.js:171-177 | an accepted entry in a cell that is not fixed keeps the board in 0..9 and every given in place |
| Game.SolvedHasNoConflicts | src/App.js:216-219 | an entry that solves the board has an empty conflict set, so the solved check is reached |
| Game.CompletionKeepsGivens | src/App.js:248-250 | the solver's completion is in 0..9, full, and keeps every given |
| Game.HintStep | src/App.js:268-274 | the hinted board stays in 0..9, the hinted cell is not fixed, and the solver reaches the same completion from it |

## Left out

- React plumbing is not modelled: state hooks, effects and rendering, and `src/SudokuGrid.js`. `Game.Session` keeps only the state that the engine changes.
- The timer, the dialogs and `formatTime` are not modelled. Where the source shows the "solved" dialog, `HandleChange` returns `true` instead.
- Input parsing is not modelled. The entry of `handleChange` is an integer: 0 for the cleared field, 1..9 for a digit, and any other value for text the regular expression rejects.
- `Math.random` is not modelled as floating point. The shuffles are the `order` function, and the random cells are finite pick sequences.
  - The while loops of both generators also stop when their picks run out, where the source would keep drawing.
  - The model does not describe the distribution of the shuffle comparator.
- Uniqueness of the puzzle's solution is not modelled. The comment in the carving loop claims it, but the code only checks that a solution exists, and that is what is stated.
- `src/sudokuUtils.js` calls `isSafe` without defining or importing it. `LegacyGenerator` uses the rule of `src/App.js:5-13` in its place.
- LegacyGenerator.GenerateSudoku: states at most, not exactly, the budget of filled cells. isSafe accepts a different digit in an already filled cell, so a placement can overwrite a cell instead of filling a new one.
- `Generator.GenerateSudoku` gives the digits tried by `fillGrid` as a function of the board at each visit. This is an equivalent stand-in for "a fresh shuffle at every visit" (see above), not a stream of random numbers.
- In `handleChange`, `isSolved` runs on the new board itself; the model runs it on a copy. `IsSolved` restores every cell it touches, so the two agree.
- The loading of a new puzzle (the difficulty effect, `loadNewPuzzle`, `loadBlankPuzzle`) is the constructor of `Game.Session` applied to the generator's result. Resetting the timer is not modelled.
