# Mini sudoku solver — a verified model

The page solves 6x6 sudoku puzzles. A board has six rows, six columns
and six regions of 2 rows by 3 columns. Each cell holds 0 (empty) or a
digit 1..6. This project models the solving core of `script.js`:

- `isValid`: the placement rule. A digit may stand at a cell when no
  other cell in the same row, column or region holds it.
- `solveSudoku`: backtracking search on the 6x6 array, changed in place.
- `validateGrid`: the consistency check run before solving.
- The Solve button's handler, without the page: validate, require some
  digit, solve a copy, and write the copy back.

Modules, one file each:

- `Grid` (`grid.dfy`): boards as values, the rule as a peer relation
  (`NoConflict`), and the method `IsValid`. `IsValid` runs the source's
  three loops over the array and is proved equal to the rule.
- `Search` (`search.dfy`): the search as a function on board values
  (`Solve`/`TryDigits`). It is proved:
  - sound: it keeps the given digits, fills every cell and stays
    consistent;
  - complete: it succeeds whenever some solution keeps the given digits;
  - least: it returns the first such solution in row-major order with
    ascending digits.
- `Solver` (`solver.dfy`): the imperative operations on an `array2<int>`.
  - `SolveSudoku` is the recursive solver. Its digit loop is the method
    `TryDigitsAt`, and one pass of that loop is `TryDigit`. The three are
    mutually recursive. The source has one function; the three methods
    split it, and their calls together follow its recursion call by call.
    `SolveSudoku` is proved to leave the array holding `Solve` of the
    starting board. `TryDigitsAt` is proved equal to `TryDigits` from digit 1
    at its cell, which is `Solve` when that cell is the first empty one.
    `TryDigit` is proved equal to `Solve` of the board with its digit
    written, when the rule accepts that digit. When the search fails, each
    leaves the starting board unchanged.
  - `ValidateGrid` blanks, checks and restores each digit. It answers
    whether the board is consistent and leaves the grid as it found it.
  - `HandleSolve` is the button's decision.
- `Examples` (`examples.dfy`): concrete conflicts, and the example puzzle
  the page loads. The example is proved solvable.

The array is read through the ghost function `Grid.Snapshot`, which gives
its current value as a `Board`.

## Model

| member | source | states |
|---|---|---|
| Grid.RegionRow | script.js:139 | the top row of a cell's region is a multiple of 2, at most the cell's row, with the region's two rows on the board |
| Grid.RegionCol | script.js:140 | the left column of a cell's region is a multiple of 3, at most the cell's column, with the region's three columns on the board |
| Grid.RegionBlock | script.js:139-147 | the 2x3 block at (RegionRow, RegionCol) is exactly the set of cells in the same band and stack as the tested cell |
| Grid.NoConflictThreeChecks | script.js:123-154 | the rule holds iff the row check (skipping the column), the column check (skipping the row) and the region check (skipping the cell) all pass |
| Grid.IsValid | script.js:123-154 | the three loops over the array answer true exactly when no peer of (row, col) holds `num`; the array is only read |
| Grid.BlockFreeNextRow | script.js:142-151 | one more region row free of `num` extends the checked part of the region by that row |
| Grid.NoConflictIgnoresOwnCell | script.js:126-146 | every check skips the tested cell, so what that cell holds never changes the answer |
| Grid.ConflictSymmetric | script.js:123-154 | two equal digits on peer cells are rejected whichever one is tested, and the board is then inconsistent |
| Grid.PlaceKeepsConsistent | script.js:162-163 | writing a digit the rule accepts into an empty cell of a consistent board keeps it consistent |
| Grid.SolutionDigitFits | script.js:161-163 | the digit a solution holds at an empty cell passes the rule on every board the solution extends |
| Grid.ExtendedBySolutionIsConsistent | script.js:180-195 | a board whose given digits some solution keeps passes validation |
| Grid.RegionCell | script.js:142-147 | each cell sits at position RegionIndex of its region's unit |
| Grid.UnitsCompletePeer | script.js:123-154 | on a board whose rows, columns and regions each hold six different digits, two peers hold different digits |
| Grid.RegionPeer | script.js:138-151 | two different cells of a region holding six different digits hold different digits |
| Grid.UnitsCompleteIsSolution | script.js:123-154 | a board whose rows, columns and regions each hold 1..6 once is full and passes the rule everywhere |
| Search.FirstEmptyExists | script.js:158-160 | a board with an empty cell has a first empty cell in row-major order |
| Search.FirstEmptyUnique | script.js:158-160 | the first empty cell is unique |
| Search.FirstEmpty | script.js:158-176 | the scan finds nothing exactly when no cell is empty, and otherwise stops at the first empty cell |
| Search.PlaceLowersZeros | script.js:163-165 | filling an empty cell leaves one empty cell fewer, so the recursion ends |
| Search.CompletesPlaced | script.js:163-166 | a completion of the board with the digit written keeps the original digits and holds that digit at the cell |
| Search.TryDigitsPlaced | script.js:162-166 | proof step of the digit loop, used by the inductions below: the first digit that passes the rule and whose board can be completed gives the loop's answer |
| Search.TryDigitsSkipped | script.js:162-170 | proof step of the digit loop, used by the inductions below: a digit the rule rejects, or whose board cannot be completed, passes the loop on to the next digit |
| Search.PlacedCompletes | script.js:162-166 | proof step of the digit loop, used by the inductions below: a digit that leads to a completion of the filled board gives a completion of the board itself |
| Search.SkippedCompletes | script.js:162-170 | proof step of the digit loop, used by the inductions below: a skipped digit keeps the completion property of the later digits |
| Search.PlacedKeepsConsistent | script.js:162-166 | proof step of the digit loop, used by the inductions below: a consistent completion found after placing a digit is the loop's consistent answer |
| Search.SkippedKeepsConsistent | script.js:162-170 | proof step of the digit loop, used by the inductions below: a skipped digit keeps the consistency of the later digits' answer |
| Search.PlacedFindsLeast | script.js:162-166 | proof step of the digit loop, used by the inductions below: a completion found after placing a digit that is `t` or before `t` is the loop's answer |
| Search.SkippedFindsLeast | script.js:162-170 | proof step of the digit loop, used by the inductions below: a skipped digit passes the "`t` or before it" property of the later digits on |
| Search.SolveCompletes | script.js:157-177 | a board the search returns keeps every given digit and puts a digit 1..6 in every empty cell |
| Search.TryDigitsCompletes | script.js:161-172 | the digit loop from any digit returns only completions of the board |
| Search.SolveKeepsConsistent | script.js:157-177 | the search returns a consistent board when started from a consistent one |
| Search.TryDigitsKeepsConsistent | script.js:161-172 | the digit loop from any digit keeps a consistent board consistent |
| Search.SolveFindsLeast | script.js:157-177 | when any solution `t` keeps the given digits, the search succeeds with `t` or a board before `t` |
| Search.TryDigitsFindsLeast | script.js:161-172 | the digit loop started at or below the digit of `t` succeeds with `t` or a board before it |
| Search.SmallerDigitFindsLeast | script.js:161-172 | a digit below `t`'s digit either completes to a board before `t` or passes on to the next digit |
| Search.SolutionDigitFindsLeast | script.js:161-166 | reaching the digit `t` holds at the cell, the loop returns `t` or a board before it |
| Search.ExtendsPlaced | script.js:163 | a solution holding `num` at the cell keeps the board with `num` written there |
| Search.SmallerDigitFirst | script.js:161-166 | a completion found with a smaller digit than `t`'s at the first empty cell comes before `t` |
| Search.SolveDecides | script.js:157-177 | on a consistent board of digits 0..6 the search succeeds iff some solution keeps the given digits, and it returns such a solution |
| Search.SolveIsLeast | script.js:157-177 | the search returns a solution that keeps the given digits and is before or equal to every other such solution |
| Search.SolveFullBoard | script.js:176 | a board without an empty cell is returned as it is |
| Search.SolveIdempotent | script.js:157-177 | solving the search's answer again returns it unchanged |
| Search.LexBeforeAsymmetric | script.js:158-161 | the search order is strict: two boards are never each before the other, and no board is before itself |
| Search.LexBeforeTotal | script.js:158-161 | of two different boards, one comes before the other |
| Search.FirstDiffExists | script.js:158-159 | two boards that differ somewhere have a first cell of difference in row-major order |
| Solver.SnapshotPlaced | script.js:163-169 | writing one cell of the array changes its board by exactly that cell |
| Solver.ValidateGrid | script.js:180-195 | answers whether every placed digit passes the rule against the rest of the board; the array ends as it started, on the early return too |
| Solver.SolveSudoku | script.js:157-177 | succeeds exactly when the search succeeds on the starting board; the array then holds the search's answer, and otherwise the starting board |
| Solver.TryDigitsAt | script.js:161-172 | the digit loop at an empty cell: its answer and the array it leaves are those of the digit loop on board values |
| Solver.TryDigit | script.js:162-170 | one digit: it succeeds iff the rule accepts the digit and the filled board can be solved; on failure the cell is back to 0 |
| Solver.HasNumbers | script.js:226 | true exactly when some cell of the grid is nonzero |
| Solver.HandleSolve | script.js:216-248 | the outcome is the button's verdict on the starting board; the grid takes the solution only when solved and is otherwise unchanged |
| Solver.CopyGrid | script.js:233 | a new array holding the same board |
| Solver.CopyInto | script.js:238-242 | every cell of the grid takes the value of the solved copy |
| Solver.VerdictMeaning | script.js:216-248 | on inputs of 0..6: invalid iff inconsistent; "enter numbers" iff consistent and empty; solved iff consistent, non-empty and some solution keeps the digits (the written board is then such a solution); otherwise no solution |
| Examples.RegionConflict | script.js:138-151 | a 3 at (0,0) rejects a 3 at (1,2), in its region but not its row or column, accepts a 4 there, and makes that board inconsistent |
| Examples.RowAndColumnConflicts | script.js:124-136 | two equal digits in one row, or in one column, make the board fail validation |
| Examples.SixDigitsFull | script.js:304-311 | proof step of the example check, used by ExampleSolutionRows, ExampleSolutionColumns and ExampleSolutionRegions: a sequence passing the cell-by-cell check holds six different digits 1..6 |
| Examples.ExampleSolutionRows | script.js:304-311 | every row of the example's solution holds six different digits 1..6 |
| Examples.ExampleSolutionColumns | script.js:304-311 | every column of the example's solution holds six different digits 1..6 |
| Examples.ExampleSolutionRegions | script.js:304-311 | every region of the example's solution holds six different digits 1..6 |
| Examples.ExampleSolutionIsSolution | script.js:123-154 | the example's solution is full and passes the rule everywhere |
| Examples.EmptySolved | script.js:216-230 | the all-empty grid is consistent and blank, so the button reports that numbers are needed; the search on it still succeeds with a full valid grid |
| Examples.ExampleSolved | script.js:304-311 | the example puzzle passes validation, is not empty, and is solved with a board that keeps its ten given digits |

## Left out

- The page: building the grid, the input, double-click and keyboard handlers, `updateDisplay`, the messages, and the Clear, Undo and Example buttons. These are DOM and UI work. handleInput lets only 1..6, or an empty cell, into the grid. `Grid.InRange` states that range and is assumed only where the meaning of a verdict depends on it.
- The undo history and the set of given cells: bookkeeping for the display that the solver never reads.
- The global `grid`: `ValidateGrid` and `HandleSolve` take the array as a parameter.
- The copy in handleSolve is built row by row in the source. `CopyGrid` builds it cell by cell; the resulting array is the same.
- UnitsCompleteIsSolution: proves one direction only, that full units make a solution. The converse, that every solution has full units, is not stated. The model needs only this direction, to show the example's solution is one.
- Solver.SolveSudoku: the JavaScript recursion depth and call stack are not modelled. The recursion is at most 36 deep, and the model proves it ends because each call has one empty cell fewer.
