# Sudoku engine

A model of the engine of a small Qt Sudoku game (`sudoku.cpp`), without its
widgets. It has five parts:

- **The board.** This is class `Sudoku` holding 81 `CellBtn` buttons. Each button has a
  digit (0 = empty) and an open/locked state. The model is the class
  `Board.Sudoku` with two 9x9 arrays, `digit` and `locked`, where
  `locked[r, c]` is `!_is_open`. The button operations (`SetDigit`, `Lock`,
  `Open`, `ChangeDigit`, the getter `GetDigit`, the constructor defaults) are
  methods and functions of the board that take the button's position.
- **The scratch cell.** This is `Cell`, used by the generator and the solver. It holds a
  digit and nine candidate flags. In the source it is a value stored
  inline in a local `Cell sdk[9][9]`. Here it is the datatype
  `ScratchCell.Cell`, kept in a local `array2<Cell>`. `GenerateDigit` is a
  method that picks the `(r % count)`-th remaining candidate.
- **Generate.** It fills a complete grid by randomized backtracking
  (`Generation.FillGrid`). It then marks `count` distinct positions at
  random (`Generation.SelectOpened`) and writes the board
  (`Board.Sudoku.WriteBoard`). The marked positions become locked givens
  holding the full grid's digit. Every other cell becomes empty and open.
- **Solve.** Backtracking over the unlocked cells, in row-major order
  (`Solving.SolveSearch`). Each unlocked cell's candidates exclude:
  - the scratch digits of earlier cells in its row, column and box;
  - the digits of later locked cells in its row, column and box (for the
    box, with line 350 read as the board's digit; see Findings).

  When a cell runs out of candidates it is reset, and the search steps
  back over locked cells. Stepping back past the first cell means "there
  are no solutions", and the model proves that no completion then exists.
  The board is written only on success.
- **FindError.** One column-major pass that keeps "not yet seen" tables per
  column, row and box. It returns `(column, row)` of the first cell that is
  empty or repeats a digit, or `(-1, -1)`.

`rand()` is a parameter `rand: nat -> nat`. Its `n`-th call answers
`rand(n)`, and a counter threaded through the operations counts the calls.
Every property holds for every `rand`. Both backtracking loops are shown
to terminate with no fuel. The measure (`Progress.Measure`) is a base-11
numeral of per-cell weights in row-major order: 0 for a locked cell, 10
for an open cell ahead of the pointer, and the candidate count for the
other open cells (plus one for a cell behind it). Placing a digit lowers the current cell's weight. Stepping
back resets only cells ahead of the new position.

Points where the code does something a reader might not expect, all
followed by the model:

- Generate's parameter is named `open_slots_count`, but the positions it
  marks become *locked* givens (sudoku.cpp:268-274). Every other cell is
  emptied and opened, so exactly `count` cells end up locked
  (`Board.Sudoku.Generate`).
- Solve never compares two locked cells with each other. A board whose
  every cell is locked is reported solved and left as it is, even when
  its givens repeat a digit (`Solving.SolveSearch`, `Board.Sudoku.Solve`).
- The button's `SetDigit` (sudoku.cpp:22-27) does not check the lock flag,
  and neither does `Board.Sudoku.SetDigit`.
- When the generator runs out of candidates at the first cell, the code
  calls `exit(-1)` (sudoku.cpp:222). Here that is the failure outcome
  `None` of `FillGrid`, and `Generate` then leaves the board unchanged.
- `sudoku.h` declares `uint8_t` parameters where `sudoku.cpp` defines
  `int`. The model uses `int` digits in 0..9, as the definitions do.
- `GenerateDigit` calls `rand()` only when a candidate remains
  (sudoku.cpp:161-163), so a failed pick uses up no value of `rand`.

The solver reads `RemoveFD(d)` as `_free_digits[d - 1]`, so every locked
cell must hold a digit 1..9. `Board.Sudoku.Solve` requires this
(`GivensFilled`), and `Generate` establishes it. A click cannot undo it:
`Lock` disables the button (sudoku.cpp:34) and `ChangeDigit` runs only as
its `clicked` slot (sudoku.cpp:8), so `Board.Sudoku.ChangeDigit` requires
an open cell and keeps `GivensFilled`.

## Model

| member | source | states |
|---|---|---|
| Counting.CountTrueUpdate | sudoku.cpp:159 | Changing one candidate flag changes the candidate count `fd_count` by exactly that flag's difference. |
| Counting.CountTrueMono | sudoku.cpp:151-154 | Clearing flags never raises the count: a subset of the set flags has at most as many. |
| Counting.CountTrueExtremes | sudoku.cpp:159-161 | The count is 0 iff no flag is set, and it is the length iff every flag is set. |
| ScratchCell.Cell.Reset | sudoku.cpp:140-144 | The reset cell is empty, has all nine candidates, and its count is 9. |
| ScratchCell.Cell.RemoveFD | sudoku.cpp:151-154 | Only candidate `d` is cleared (defined for `d` in 1..9 only). The digit and the other eight flags are kept. The count drops by one iff `d` was a candidate. |
| ScratchCell.Cell.SetDigit | sudoku.cpp:180-183 | The digit becomes `d` and the candidates are untouched. |
| ScratchCell.GenerateDigit | sudoku.cpp:156-178 | Fails, with the cell unchanged, iff no candidate remains. Otherwise the chosen digit is a former candidate in 1..9. Exactly `r % count` candidates lie below it. It alone is removed, and the count drops by one. |
| Geometry.BoxIndexSameBox | sudoku.cpp:472 | The validator's box number `row / 3 + column / 3 * 3` is equal for two cells iff they lie in the same 3x3 box. |
| Candidates.ExcludeRowBefore | sudoku.cpp:305-308 | Afterwards `d` is a candidate iff it was one and no earlier cell of the row holds `d`. |
| Candidates.ExcludeColumnBefore | sudoku.cpp:309-312 | Afterwards `d` is a candidate iff it was one and no earlier cell of the column holds `d`. |
| Candidates.BoxBeforeStep | sudoku.cpp:331-339 | One step of the box walk adds exactly the visited cell to the digits seen. |
| Candidates.ExcludeBoxBefore | sudoku.cpp:328-341 | Afterwards `d` is a candidate iff it was one and no cell of the box before the current one (row-major) holds `d`. |
| Candidates.EarlierPassesCover | sudoku.cpp:194-216 | Row, column and box passes together exclude exactly the digits of the earlier cells sharing a unit with the current cell. |
| Candidates.ExcludeEarlier | sudoku.cpp:194-216 | After the three earlier passes, `d` is a candidate iff it was one and no earlier cell of the cell's row, column or box holds it. |
| Candidates.ExcludeRowAfterGivens | sudoku.cpp:313-319 | Afterwards `d` is a candidate iff it was one and no later locked cell of the row holds `d`. |
| Candidates.ExcludeColumnAfterGivens | sudoku.cpp:320-326 | Afterwards `d` is a candidate iff it was one and no later locked cell of the column holds `d`. |
| Candidates.BoxAfterStep | sudoku.cpp:346-357 | One backward step of the box walk adds exactly the visited cell's given to the digits seen, when that cell is locked. |
| Candidates.ExcludeBoxAfterGivens | sudoku.cpp:343-359 | Corrected box look-ahead, reading the board's given: `d` stays a candidate iff it was one and no later locked cell of the box holds `d`. |
| Candidates.ExcludeBoxAfterAsWritten | sudoku.cpp:343-359 | The box look-ahead as written, reading scratch digits. It is defined only when every later locked cell's scratch digit is 1..9, and then it excludes exactly those scratch digits. |
| Candidates.AsWrittenOnceCopied | sudoku.cpp:350 | Once the later locked cells' scratch digits equal their givens, the as-written and corrected look-aheads exclude the same digits. |
| Candidates.FirstVisitReadsEmpty | sudoku.cpp:350 | On an empty scratch grid with only cell (1,1) locked, the first visit of (0,0) breaks the as-written pass's requirement, since it would call `RemoveFD(0)`. |
| Candidates.FreshScratchReadsEmpty | sudoku.cpp:291 | A scratch grid of cells made by `Cell()`, as the solver allocates it, has exactly the empty digits of that counterexample. |
| Candidates.LaterPassesCover | sudoku.cpp:313-359 | The three look-ahead passes together exclude exactly the givens of later locked cells sharing a unit with the current cell. |
| Progress.RankMono | sudoku.cpp:190-236 | If no cell's weight grows, the measure does not grow. |
| Progress.RankLess | sudoku.cpp:190-236 | If the first changed weight drops, the measure drops (lexicographic order). |
| Progress.WeightsForward | sudoku.cpp:219-232 | Placing a digit with fewer candidates left, or passing a locked cell, does not raise the measure, even though the pointer moves on. |
| Progress.WeightsBack | sudoku.cpp:219-231 | Resetting the cell and stepping back to an earlier unlocked cell strictly lowers the measure. |
| Generation.PlaceKeeps | sudoku.cpp:219-233 | Placing a digit not seen earlier in the row, column or box keeps the fill invariant at the next position. The invariant is: earlier cells are filled and consistent, and later cells are fresh. |
| Generation.BackKeeps | sudoku.cpp:219-231 | Resetting the current cell and stepping back keeps the fill invariant. |
| Generation.ForwardStep | sudoku.cpp:219-233 | A forward move keeps the fill invariant and makes progress. |
| Generation.BackStep | sudoku.cpp:219-231 | A backward move keeps the fill invariant and strictly lowers the measure. |
| Generation.FilledGridSolved | sudoku.cpp:190-236 | With the pointer past the last cell, the fill invariant means that no row, column or box repeats a digit and every cell holds 1..9. |
| Generation.FillGrid | sudoku.cpp:190-236 | A grid it returns is solved. Running out of candidates at the first cell (`exit(-1)`) is the result `None`. |
| Generation.SelectOpened | sudoku.cpp:238-261 | Exactly `count` of the 81 positions are marked (none for a negative count), using exactly that many `rand()` calls. |
| Solving.LockedStep | sudoku.cpp:299-304 | Copying a locked cell's given into the scratch grid and moving on keeps the solver invariant and makes progress. |
| Solving.PlaceFitsEarlier | sudoku.cpp:305-341 | A digit not seen earlier in its units differs from every earlier cell sharing a unit. |
| Solving.PlaceFitsLater | sudoku.cpp:313-359 | A digit that is not a later given in its units differs from every later locked cell sharing a unit. |
| Solving.PlaceStep | sudoku.cpp:361-399 | Placing a candidate that survived all six passes keeps the solver invariant and makes progress. |
| Solving.BackStep | sudoku.cpp:361-398 | Resetting the cell and stepping back to the previous unlocked cell keeps the solver invariant and strictly lowers the measure. |
| Solving.FinishedSolves | sudoku.cpp:293-402 | At the end, locked cells hold their givens and unlocked cells hold 1..9. Each unlocked cell differs from every other cell in its row, column and box. |
| Solving.SolverCandidates | sudoku.cpp:305-359 | The six passes leave `d` a candidate iff it was one and it is neither an earlier scratch digit nor a later given in the cell's units. |
| Solving.BackOverLocked | sudoku.cpp:365-394 | Finds the nearest earlier unlocked cell, with every cell in between locked. If it finds none, every earlier cell is locked ("no solutions"). |
| Solving.SolutionSurvives | sudoku.cpp:305-359 | No candidate pass removes the digit of a completion that agrees with the scratch digits on the unlocked cells before the current one. |
| Solving.SearchStarts | sudoku.cpp:291 | With every scratch cell as `Cell()` made it, no completion has been passed over. |
| Solving.SearchLocked | sudoku.cpp:299-304 | Passing a locked cell keeps every completion reachable. |
| Solving.SearchPlaces | sudoku.cpp:361-399 | Placing a surviving candidate keeps every completion reachable: a completion agreeing so far either keeps its digit as a candidate or is the one just placed. |
| Solving.SearchBacks | sudoku.cpp:361-398 | Resetting an exhausted cell and stepping back over locked cells keeps every completion reachable. |
| Solving.SearchFails | sudoku.cpp:372-394 | Exhausting the first unlocked cell means that no completion exists. |
| Solving.SolveSearch | sudoku.cpp:287-402 | A result solves the board around its givens. "No solutions" is returned only when no completion exists, and only with some cell unlocked. An all-locked board gives back its givens. |
| Board.SolvesAroundBoard | sudoku.cpp:299-326 | The completions around the locked digits that the solver reads are exactly the completions around the board itself. |
| Board.GivensIgnoreOpenCells | sudoku.cpp:299-326 | Two boards with the same locked digits give the solver the same input, whatever their unlocked cells hold. |
| Board.TablesStep | sudoku.cpp:474-476 | Recording a passed cell adds exactly its digit to the seen-sets of its column, row and box. |
| Board.CheckCell | sudoku.cpp:471-481 | The tables accept the cell iff it is not an error, and after accepting it they describe the scan one cell further on. |
| Board.ErrorAtSeen | sudoku.cpp:471-472 | A non-empty cell is an error iff its digit was already seen in its column, row or box. |
| Board.NoErrorSolved | sudoku.cpp:462-485 | No cell is an error iff the board is solved. |
| Board.Sudoku.constructor | sudoku.cpp:3-10 | Every new button holds digit 0 and is open. |
| Board.Sudoku.GetDigit | sudoku.cpp:12-15 | A button's digit is in 0..9. |
| Board.Sudoku.SetDigit | sudoku.cpp:22-27 | The digit becomes `d`. No other digit changes, and no lock flag changes. |
| Board.Sudoku.Lock | sudoku.cpp:29-37 | The button is locked afterwards, whether it was locked before or not (idempotent). Other flags and all digits are kept. |
| Board.Sudoku.Open | sudoku.cpp:39-47 | The button is open afterwards, whether it was open before or not (idempotent). Other flags and all digits are kept. |
| Board.Sudoku.ChangeDigit | sudoku.cpp:49-58 | Called only on an open cell, as a disabled (locked) button emits no click (sudoku.cpp:8, 34). The digit goes to `(d + 1) mod 10`, so it stays in 0..9. Other digits and all locks are kept, so `GivensFilled` still holds. |
| Board.Sudoku.ScanColumn | sudoku.cpp:464-482 | Returns the first error in the column, or -1 with the tables advanced past the whole column and no error in it. |
| Board.Sudoku.ScanBoard | sudoku.cpp:462-485 | Returns `(column, row)` of the first error in column-major order, or `(-1, -1)` when no cell is an error. |
| Board.Sudoku.FindError | sudoku.cpp:447-486 | Returns `(-1, -1)` iff the board is solved. Otherwise it returns `(column, row)` of an error cell, and no cell before it in column-major order is an error. It does not modify the board. |
| Board.Sudoku.WriteCell | sudoku.cpp:266-282 | The cell is locked with the full grid's digit iff its position is marked (and the count is positive); otherwise it holds 0 and is open. Other cells are kept. |
| Board.Sudoku.WriteBoard | sudoku.cpp:262-284 | Locked exactly at the marked positions. Locked cells hold the full grid's digit and the others hold 0. |
| Board.Sudoku.Generate | sudoku.cpp:186-285 | The full grid is solved, and the locked positions are exactly the marked ones, `count` of them (none for `count <= 0`). Locked cells hold the full grid's digit and the others hold 0. On `exit(-1)` the board is left unchanged. |
| Board.Sudoku.WriteDigits | sudoku.cpp:404-410 | The board afterwards holds exactly the solution's digits. |
| Board.Sudoku.Solve | sudoku.cpp:287-411 | No lock flag changes. On success locked digits are kept, and every unlocked cell holds 1..9, distinct from every other cell in its row, column and box. "No solutions" is reported only when no such completion of the board exists, and then no digit changes. An all-locked board is reported solved and left unchanged. |

## Left out

- The Qt presentation is left out: stylesheets, `UpdateColor`, painting and resizing, the layout, the timer label, and the screen switching in `Menu`/`SdkWindow`, plus `main.cpp`. The "there are no solutions" label becomes the `false` result of `Solve`.
- `Check` and `Help` (sudoku.cpp:413-438) are thin callers of `FindError` that only set colours, so they are left out. As written, `Check` turns the Check button (`_check`, sudoku.cpp:435) red when there is *no* error. `Help` indexes `_cells[err.first][err.second]`, i.e. `[column][row]`, which is transposed.
- `qDebug` logging (sudoku.cpp:297, 416) has no effect on the state and is left out.
- `rand()` is the parameter `rand`, indexed by a call counter. The C library's generator and its distribution are not modelled.
- `Menu::ClickedPlayBtn` parses the count with `QString::toInt`, which is not modelled. Only its rejection of counts above 81 is kept, as `Generate`'s precondition.
- The 81 `CellBtn` widgets are two arrays in the board. Aliasing between buttons cannot arise in the model.
- `CellBtn::IsLocked` (sudoku.cpp:17-20) is the array read `locked[r, c]`, which the board's functions use directly. It has no member of its own.
- Board.Sudoku.Solve: the claim that the result does not depend on the unlocked cells' previous digits is stated through its input. The search is given only `OnlyLocked(board)`, and `Board.GivensIgnoreOpenCells` shows that this input is the same for any two boards with the same locked cells. No lemma compares two runs of the method.
- Board.Sudoku.Solve: the model uses the corrected box look-ahead (see Findings), so its success postcondition includes box distinctness against later locked cells. As written, the source does not guarantee that.
- Generation.FillGrid: the model does not show that the fill never reaches `exit(-1)`. It only shows that a grid it returns is solved.

## Findings

| source | as written | input that shows it | evidently intended | confidence | as-written member | corrected member |
|---|---|---|---|---|---|---|
| sudoku.cpp:350 | The solver's box look-ahead removes `sdk[tmp_row][tmp_column].GetDigit()`, the *scratch* digit of a later locked cell. The scratch grid only receives a locked cell's given when the scan reaches that cell (line 301), so the scratch digit is still 0 on the first visit. | A board whose only locked cell is (1,1) (any digit 1..9). The first step of Solve at (0,0) reads the scratch digit 0 of (1,1) and calls `RemoveFD(0)`, which writes `_free_digits[-1]`, outside the array. The given of (1,1) is not excluded, so (0,0) can receive the same digit as its box-mate. | `_cells[tmp_row][tmp_column]->GetDigit()`, as in the row and column look-aheads at lines 317 and 324. | not executed | Candidates.ExcludeBoxAfterAsWritten (with Candidates.FirstVisitReadsEmpty) | Candidates.ExcludeBoxAfterGivens |
