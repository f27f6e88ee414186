# Sudoku: generator, validator and game state

A Dafny model of the logic of the single-page Sudoku game in `index.js`.
It covers three parts.

- **The grid generator.** `fillBoard` fills a 9×9 board of numbers (0 = empty) by randomised depth-first backtracking. It places a digit that `isSafe` allows, recurses, and undoes the placement when the recursion fails. `generatePuzzle` then zeroes cells of a copy of the solved board until `holes` cells are empty.
- **The validator.** This is the duplicate grouping of `validateAndHighlight`. For each row, column and 3×3 block it groups the non-empty cells by value. Every cell of a value that occurs twice or more is marked invalid.
- **The game state.** These are the page's global variables `board`, `solution`, `fixedCells` and `invalidCells`, together with what the player can do:
  - start a new game (`generateNewGame`, with its conversion of 0 to `''` and its fixed mask);
  - type into a cell (`onCellInput` and its input filter);
  - check the board (`checkSolution`);
  - show the solution (`showSolution`).

Files:

- `sudoku_rules.dfy` (module `SudokuRules`): grids as `seq<seq<T>>`, rows, columns and blocks, the conflict relation and the invalid-cell set, the generator's safety predicate, and cell counting. It is shared by the other three modules.
- `generator.dfy` (module `Generator`): boards are `array2<int>` updated in place, as the source's arrays of rows are. The shuffle's draw (`index.js:39`) is a nondeterministic choice (`:|`) of `j` in `0..i`, its full range. `generatePuzzle`'s draws (`index.js:101-102`) are modelled differently: as a choice among the non-empty cells only (see the `Generator.GeneratePuzzle` line under "## Left out").
- `validator.dfy` (module `Validator`): the per-unit `occ` map and the 27-unit sweep, proved equal to the invalid-cell set of the rules.
- `play.dfy` (module `Play`): cell texts, `String(v)` and its inverse, the conversion of a new game, and class `Game` holding the global state.

Main results:

- `FillBoard` never overwrites a clue. On success every cell is filled, and the board is conflict-free if it was on entry. On failure it leaves the board exactly as it found it.
- `GenerateSolvedBoard` therefore yields a solved grid whenever the search succeeds. In a solved grid, every row, column and block holds each digit 1..9.
- `GeneratePuzzle` leaves exactly `holes` more empty cells, keeps every other value, and does not touch its input.
- `FindInvalidCells` computes exactly the cells that share a row, column or block with another cell holding the same non-empty value.
- `Game` keeps its invariant `Valid()` across `NewGame`, `CellInput` and `ShowSolution`. The invariant says:
  - the clues show the solution;
  - every cell holds `''` or one digit;
  - `invalidCells` is exactly the invalid-cell set.

  A new game has 40 empty cells and no invalid cell.

## Model

| member | source | states |
|---|---|---|
| SudokuRules.SafeIffNoPeerHolds | index.js:48-61 | the safety predicate holds exactly when no cell sharing a row, column or block with (r, c) holds n |
| SudokuRules.PlaceSafeKeepsConsistent | index.js:72-73 | placing a safe digit in an empty cell of a conflict-free grid leaves it conflict-free |
| SudokuRules.CountPlace | index.js:103-105 | writing a value into a cell changes the count of any value by what left the cell and what entered it |
| SudokuRules.CountAllCells | index.js:100-107 | at most 81 cells hold a value, and 81 do only when every cell does, so a grid with fewer than 81 empty cells has a non-empty cell left to zero |
| SudokuRules.CountAbsent | index.js:309-310 | a value held by no cell counts zero, so a full board counts no empty cell |
| SudokuRules.CountMatch | index.js:319-320 | two grids with x and y in the same places hold as many x as y |
| SudokuRules.DistinctDigitsCoverAll | index.js:66-83 | nine pairwise distinct digits in 1..9 include every digit 1..9 |
| SudokuRules.UnitCoversDigits | index.js:66-83 | nine distinct cells of a solved grid that pairwise share a unit hold every digit 1..9 |
| SudokuRules.BlockUnitShape | index.js:218-229 | block (br, bc) lists nine distinct cells of the grid, all in that block |
| SudokuRules.SolvedUnitsArePermutations | index.js:66-83 | in a filled, conflict-free grid every row, column and block holds each of the digits 1..9 |
| Generator.CreateEmptyBoard | index.js:19-25 | a fresh 9×9 board with every cell 0 |
| Generator.CloneBoard | index.js:30-32 | a fresh board holding the same values as the original |
| Generator.Shuffle | index.js:37-43 | the swap loop leaves the same multiset of elements |
| Generator.ShuffledDigits | index.js:70 | the shuffled candidates are nine digits in 1..9 in which every digit occurs |
| Generator.PermutedDigits | index.js:70 | any permutation of 1..9 holds nine digits in 1..9 and every digit |
| Generator.IsSafe | index.js:48-61 | the answer is true exactly when num is absent from the row, the column and the block with origin (row - row % 3, col - col % 3) |
| Generator.CellsAre | index.js:73-75 | an array holding g cell by cell has grid value g, which is what undoing a placement restores |
| Generator.KeepsThroughPlace | index.js:69-74 | a completion that keeps the clues of a grid with one more filled cell keeps the clues of the original grid |
| Generator.FindEmpty | index.js:67-69 | no empty cell means a full board; otherwise the cell found is empty and every cell before it in row-major order is filled |
| Generator.FillBoard | index.js:66-83 | success means a full board, conflict-free when the board was on entry; failure leaves the board as it was; clues are never overwritten |
| Generator.TryDigit | index.js:71-77 | one candidate: the same three guarantees, with the cell reset to 0 when the recursion fails |
| Generator.GenerateSolvedBoard | index.js:88-92 | a fresh board that is a solved grid when the fill succeeds, and still empty when it does not |
| Generator.GeneratePuzzle | index.js:97-109 | a fresh copy with exactly `holes` more empty cells (none for holes ≤ 0), every non-empty cell equal to the input, the input unchanged |
| Validator.Unit | index.js:186-238 | each of the 27 units has nine cells |
| Validator.UnitsAreValid | index.js:186-238 | each unit is nine distinct cells of the grid |
| Validator.UnitPeers | index.js:186-238 | any two cells of a unit share a row, a column or a block |
| Validator.ConflictUnit | index.js:186-238 | two conflicting cells share a unit that marks the first of them |
| Validator.PositionsHold | index.js:187-194 | every cell listed under v in occ holds v |
| Validator.PositionsInclude | index.js:187-194 | every cell of the unit holding v is listed under v |
| Validator.PositionsTwo | index.js:187-196 | two cells holding v make a list of at least two |
| Validator.PositionsOther | index.js:195-197 | a list of two or more under v gives every listed cell another cell holding v |
| Validator.UnitDupsByPositions | index.js:187-199 | a cell is marked by its unit exactly when it is listed under a non-empty value listed more than once |
| Validator.DupsUpToHas | index.js:184-238 | a cell one of the first n units marks is in the union of their duplicates |
| Validator.DupsUpToFrom | index.js:184-238 | a cell of the union of the first n units' duplicates is marked by one of them |
| Validator.DupIsInvalid | index.js:184-238 | a cell a unit marks is in the invalid-cell set |
| Validator.InvalidIsDup | index.js:184-238 | a cell of the invalid-cell set is marked by its row, its column or its block |
| Validator.InvalidIsUnionOfUnitDups | index.js:184-238 | the invalid-cell set is the union of the 27 units' duplicate sets |
| Validator.DupsStep | index.js:186-238 | visiting one more unit adds exactly that unit's duplicates |
| Validator.SameBlockDiv | index.js:218-224 | cells of one block agree on row / 3 and column / 3 |
| Validator.CellInBlock | index.js:218-229 | cell (r, c) is listed in block unit (r / 3, c / 3) at index (r % 3) * 3 + c % 3 |
| Validator.BlockAt | index.js:218-219 | block (br, bc) is unit 18 + 3·br + bc |
| Validator.GroupByValue | index.js:187-194 | occ maps exactly the non-empty values of the unit to the cells holding them, in visiting order |
| Validator.MarkRepeated | index.js:195-199 | the marked cells are exactly those listed under a value with more than one cell |
| Validator.UnitDuplicates | index.js:186-200 | a unit's marked cells are exactly its cells whose non-empty value occurs at another of its cells |
| Validator.FindInvalidCells | index.js:183-238 | the result is exactly the set of cells in conflict with another cell of their row, column or block |
| Validator.EmptyBoardHasNoInvalid | index.js:183-238 | a board with no entries has no invalid cell |
| Validator.EqualPairInOneUnitIsInvalid | index.js:186-238 | on any board whose only entries are two equal values at p and q sharing a row, a column or a block, exactly p and q are invalid |
| Validator.EqualPairApartIsValid | index.js:186-238 | on any board whose only entries are at two cells sharing no row, column or block, no cell is invalid, whatever the values |
| Play.FilterInput | index.js:262-265 | the stored text is admitted by /^$\|^[1-9]$/, and the input is kept exactly when the filter admits it, otherwise it becomes '' |
| Play.NatString | index.js:321 | the numeral of a natural number is a non-empty string of digits |
| Play.DecimalString | index.js:320-321 | String(v) is never empty |
| Play.ParseNatString | index.js:321 | reading back the numeral of n gives n |
| Play.DecimalRoundTrip | index.js:320-321 | reading back String(v) gives v |
| Play.DecimalStringInjective | index.js:320-321 | different numbers have different numerals |
| Play.CellTextInjective | index.js:320 | different puzzle values get different cell texts, and only 0 gets '' |
| Play.DigitCellText | index.js:320-321 | the text of a digit 1..9 is that one digit, and the text of 0 is '' |
| Play.TextKeepsConflicts | index.js:320 | writing a grid as text changes no conflict: the invalid sets of the grid and of its text are equal |
| Play.KeptCluesHaveNoConflicts | index.js:97-109 | keeping some digits of a conflict-free grid leaves no invalid cell |
| Play.ClearingNeverAddsInvalid | index.js:262-270 | emptying a cell never adds an invalid cell (used by `Game.CellInput`) |
| Play.SolvedTextIsValid | index.js:300 | a stored solution has no invalid cell, which is why showSolution may clear invalidCells |
| Play.PlayBoards | index.js:314-327 | board holds '' exactly where the puzzle is 0 and the numeral elsewhere, solution holds the numerals of the solved grid, and fixedCells is true exactly where the puzzle is non-zero |
| Play.PlayRow | index.js:315-323 | one row of each of the three boards, as above |
| Play.NewBoardsAreValid | index.js:307-328 | the boards of a new game form a valid state with exactly `holes` empty cells, a cell being a clue exactly when it is not empty, and no invalid cell |
| Play.Game.constructor | index.js:9-12 | the state before the first game: empty boards and no invalid cell |
| Play.Game.NewGame | index.js:307-330 | a started game is valid, has 40 empty cells, clues exactly at the non-empty cells and no invalid cell; a failed fill changes nothing |
| Play.Game.CellInput | index.js:258-271 | the filtered text replaces this one cell, no other cell, the solution and the clues stay as they were, and invalidCells is recomputed exactly; input the filter empties never adds an invalid cell |
| Play.Game.Check | index.js:276-286 | success exactly when every cell is non-empty and equal to the solution's, which for a stored solution means the board is the solution and has no invalid cell |
| Play.Game.ShowSolution | index.js:291-302 | the board becomes the solution, every cell becomes a clue, and no cell is invalid, the state staying valid |

## Left out

- The DOM is not modelled: `buildUI`, `renderBoard`, the class-toggling loop at the end of `validateAndHighlight`, `alert`, event listeners and the `DOMContentLoaded` hook. It is presentation only. `Check` returns the verdict that `checkSolution` shows in an alert.
- The distribution of `Math.random` is not modelled. The shuffle's draw is a nondeterministic choice within its range; `generatePuzzle`'s draws are treated in the next line.
- Generator.GeneratePuzzle: the source draws cells at random and skips empty ones. The model picks an arbitrary non-empty cell at each step, which is what the draws that count amount to. The source's loop terminates only with probability one, and only when at least `holes` cells are non-empty. That condition is the method's precondition.
- Generator.FillBoard: nothing is proved about success from an empty board. That would require showing a solved grid exists and that the search finds it. Only soundness of a `true` answer, the undo and the no-overwrite guarantees are proved.
- Play.Game.NewGame: when `fillBoard` fails, the source would pass an empty board to `generatePuzzle(solved, 40)`, which then never ends. The model returns `false` and leaves the state untouched instead.
- Boards are `array2<int>` rather than arrays of row arrays. `cloneBoard` copies every row, so no row is ever shared between boards and no aliasing is lost.
- `fillBoard`'s row-major scan, one turn of its candidate loop and the `shuffle([1..9])` call are separate methods (`FindEmpty`, `TryDigit`, `ShuffledDigits`). `FillBoard` and `TryDigit` are mutually recursive, and the number of empty cells decreases.
- `occ` is a Dafny map from strings. A JavaScript object would also coerce keys and inherit prototype keys, but only `''` and single digits reach it, because the filter admits nothing else.
- The `'r-c'` string keys of `invalidCells` are `(row, column)` pairs. The key strings are in one-to-one correspondence with the pairs.
- Repeating `validateAndHighlight` on an unchanged board yields the same set, because `FindInvalidCells` is specified by a function of the board. No separate lemma states this.
- Play.Game.CellInput requires the cell not to be a clue. The page renders an input element only for non-clue cells, so the source never calls `onCellInput` for a clue.
- The comment in `showSolution` says the cells become "non fixes" (not fixed). The code sets every `fixedCells` entry to `true`, and the model follows the code.
- `parseInt` of the input's row and column data attributes is modelled as the integers `row` and `col` themselves.
- `generatePuzzle` with a negative `holes` never occurs: the page always passes 40 (`index.js:310`). The code only loops while `removed < holes`, so it removes nothing. The model follows the code: `holes <= 0` returns an unchanged copy.
