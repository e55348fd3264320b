/** The candidate-elimination passes that both searches run on the scratch
    cell under the pointer before picking a digit. Each pass is one loop of
    sudoku.cpp, calling `RemoveFD` once per cell it visits. The generator runs
    the three passes over earlier scratch cells; the solver runs those and
    three more over later locked cells of the board. */
module Candidates {
  import opened Geometry
  import opened ScratchCell

  /** The local scratch grid `Cell sdk[9][9]`. */
  predicate Shaped(sdk: array2<Cell>)
  {
    sdk.Length0 == 9 && sdk.Length1 == 9
  }

  /** The contents of the scratch grid as a value, `s[row][column]`. */
  type Scratch = seq<seq<Cell>>

  ghost function Snap(sdk: array2<Cell>): (s: Scratch)
    reads sdk
    requires Shaped(sdk)
    ensures IsGrid(s)
    ensures forall i, j :: InRange(i, j) ==> s[i][j] == sdk[i, j]
  {
    seq(9, i requires 0 <= i < 9 reads sdk => seq(9, j requires 0 <= j < 9 reads sdk => sdk[i, j]))
  }

  /** A value that agrees with the array cell by cell is its snapshot. */
  lemma SnapOf(sdk: array2<Cell>, s: Scratch)
    requires Shaped(sdk) && IsGrid(s)
    requires forall i, j :: InRange(i, j) ==> s[i][j] == sdk[i, j]
    ensures Snap(sdk) == s
  {
    var t := Snap(sdk);
    forall i | 0 <= i < 9
      ensures t[i] == s[i]
    {
      assert forall j :: 0 <= j < 9 ==> t[i][j] == s[i][j];
    }
  }

  /** The scratch grid with the cell at `(row, column)` replaced by `c`. */
  function Put(s: Scratch, row: int, column: int, c: Cell): (t: Scratch)
    requires IsGrid(s) && InRange(row, column)
    ensures IsGrid(t)
    ensures t[row][column] == c
    ensures forall i, j :: InRange(i, j) && (i != row || j != column) ==> t[i][j] == s[i][j]
  {
    s[row := s[row][column := c]]
  }

  /** `sdk[row][column] = c`: one slot of the scratch grid is overwritten. */
  method Store(sdk: array2<Cell>, row: int, column: int, c: Cell)
    requires Shaped(sdk) && InRange(row, column)
    modifies sdk
    ensures Snap(sdk) == Put(old(Snap(sdk)), row, column, c)
  {
    ghost var s := Snap(sdk);
    sdk[row, column] := c;
    SnapOf(sdk, Put(s, row, column, c));
  }

  /** The scratch digits, row by row. */
  function DigitsOf(sdk: array2<Cell>): (g: Grid)
    reads sdk
    requires Shaped(sdk)
    ensures IsGrid(g)
    ensures forall i, j :: InRange(i, j) ==> g[i][j] == sdk[i, j].digit
  {
    seq(9, i requires 0 <= i < 9 reads sdk => seq(9, j requires 0 <= j < 9 reads sdk => sdk[i, j].digit))
  }

  /** Every scratch cell before `(row, column)` in scan order holds a digit 1..9. */
  ghost predicate PlacedBefore(s: Scratch, row: int, column: int)
    requires IsGrid(s)
  {
    forall i, j :: InRange(i, j) && Before(i, j, row, column) ==> 1 <= s[i][j].digit <= 9
  }

  /** Some scratch cell earlier in the scan, sharing a row, column or box
      with `(row, column)`, holds `d`. */
  ghost predicate SeenEarlier(s: Scratch, row: int, column: int, d: int)
    requires IsGrid(s)
  {
    exists i, j :: InRange(i, j) && Before(i, j, row, column) && SameUnit(i, j, row, column) && s[i][j].digit == d
  }

  /** Some LOCKED cell later in the scan, sharing a row, column or box with
      `(row, column)`, holds the given `d`. */
  ghost predicate GivenLater(givens: Grid, locked: seq<seq<bool>>, row: int, column: int, d: int)
    requires IsGrid(givens) && IsGrid(locked)
  {
    exists i, j :: InRange(i, j) && Before(row, column, i, j) && SameUnit(i, j, row, column) && locked[i][j] && givens[i][j] == d
  }

  // ---- the earlier-cell passes (sudoku.cpp:194-217 and again 305-312, 328-341)

  ghost predicate InRowBefore(s: Scratch, row: int, upto: int, d: int)
    requires IsGrid(s) && 0 <= row < 9 && upto <= 9
  {
    exists t :: 0 <= t < upto && s[row][t].digit == d
  }

  ghost predicate InColumnBefore(s: Scratch, column: int, upto: int, d: int)
    requires IsGrid(s) && 0 <= column < 9 && upto <= 9
  {
    exists t :: 0 <= t < upto && s[t][column].digit == d
  }

  /** Some cell of `(row, column)`'s box that the box walk has passed before
      reaching `(tr, tc)` holds `d`. */
  ghost predicate InBoxBefore(s: Scratch, row: int, column: int, tr: int, tc: int, d: int)
    requires IsGrid(s) && InRange(row, column)
  {
    exists i, j :: row / 3 * 3 <= i < 9 && column / 3 * 3 <= j < column / 3 * 3 + 3 && Before(i, j, tr, tc) && s[i][j].digit == d
  }

  /** First pass: every digit already placed to the left in the same row. */
  method ExcludeRowBefore(sdk: array2<Cell>, row: int, column: int, cell: Cell) returns (c: Cell)
    requires Shaped(sdk) && InRange(row, column) && cell.Valid()
    requires PlacedBefore(Snap(sdk), row, column)
    ensures c.Valid() && c.digit == cell.digit
    ensures forall k :: 0 <= k < 9 ==> (c.free[k] <==> cell.free[k] && !InRowBefore(Snap(sdk), row, column, k + 1))
  {
    c := cell;
    var tmpColumn := 0;
    while tmpColumn < column
      invariant 0 <= tmpColumn <= column
      invariant c.Valid() && c.digit == cell.digit
      invariant forall k :: 0 <= k < 9 ==> (c.free[k] <==> cell.free[k] && !InRowBefore(Snap(sdk), row, tmpColumn, k + 1))
    {
      c := c.RemoveFD(sdk[row, tmpColumn].digit);
      tmpColumn := tmpColumn + 1;
    }
  }

  /** Second pass: every digit already placed above in the same column. */
  method ExcludeColumnBefore(sdk: array2<Cell>, row: int, column: int, cell: Cell) returns (c: Cell)
    requires Shaped(sdk) && InRange(row, column) && cell.Valid()
    requires PlacedBefore(Snap(sdk), row, column)
    ensures c.Valid() && c.digit == cell.digit
    ensures forall k :: 0 <= k < 9 ==> (c.free[k] <==> cell.free[k] && !InColumnBefore(Snap(sdk), column, row, k + 1))
  {
    c := cell;
    var tmpRow := 0;
    while tmpRow < row
      invariant 0 <= tmpRow <= row
      invariant c.Valid() && c.digit == cell.digit
      invariant forall k :: 0 <= k < 9 ==> (c.free[k] <==> cell.free[k] && !InColumnBefore(Snap(sdk), column, tmpRow, k + 1))
    {
      c := c.RemoveFD(sdk[tmpRow, column].digit);
      tmpRow := tmpRow + 1;
    }
  }

  /** One step of the forward box walk, from `(tr, tc)` to the next cell of
      the box, adds exactly the cell `(tr, tc)` to the cells passed. */
  lemma BoxBeforeStep(s: Scratch, row: int, column: int, tr: int, tc: int, nr: int, nc: int)
    requires IsGrid(s) && InRange(row, column)
    requires row / 3 * 3 <= tr <= row && column / 3 * 3 <= tc < column / 3 * 3 + 3
    requires (nr, nc) == if tc + 1 >= column / 3 * 3 + 3 then (tr + 1, column / 3 * 3) else (tr, tc + 1)
    ensures forall d :: InBoxBefore(s, row, column, nr, nc, d) <==> InBoxBefore(s, row, column, tr, tc, d) || s[tr][tc].digit == d
  {
    forall d | InBoxBefore(s, row, column, nr, nc, d) && !InBoxBefore(s, row, column, tr, tc, d)
      ensures s[tr][tc].digit == d
    {
      var i, j :| row / 3 * 3 <= i < 9 && column / 3 * 3 <= j < column / 3 * 3 + 3 && Before(i, j, nr, nc) && s[i][j].digit == d;
      assert i == tr && j == tc;
    }
  }

  /** Third pass: walk the box from its top-left corner in scan order up to
      `(row, column)`, dropping every digit met. */
  method ExcludeBoxBefore(sdk: array2<Cell>, row: int, column: int, cell: Cell) returns (c: Cell)
    requires Shaped(sdk) && InRange(row, column) && cell.Valid()
    requires PlacedBefore(Snap(sdk), row, column)
    ensures c.Valid() && c.digit == cell.digit
    ensures forall k :: 0 <= k < 9 ==> (c.free[k] <==> cell.free[k] && !InBoxBefore(Snap(sdk), row, column, row, column, k + 1))
  {
    c := cell;
    var tmpRow := row / 3 * 3;
    var tmpColumn := column / 3 * 3;
    while !(tmpRow == row && tmpColumn == column)
      invariant row / 3 * 3 <= tmpRow <= row
      invariant column / 3 * 3 <= tmpColumn < column / 3 * 3 + 3
      invariant tmpRow < row || tmpColumn <= column
      invariant c.Valid() && c.digit == cell.digit
      invariant forall k :: 0 <= k < 9 ==> (c.free[k] <==> cell.free[k] && !InBoxBefore(Snap(sdk), row, column, tmpRow, tmpColumn, k + 1))
      decreases row - tmpRow, column / 3 * 3 + 3 - tmpColumn
    {
      c := c.RemoveFD(sdk[tmpRow, tmpColumn].digit);
      ghost var tr, tc := tmpRow, tmpColumn;
      tmpColumn := tmpColumn + 1;
      if tmpColumn >= column / 3 * 3 + 3 {
        tmpRow := tmpRow + 1;
        tmpColumn := column / 3 * 3;
      }
      BoxBeforeStep(Snap(sdk), row, column, tr, tc, tmpRow, tmpColumn);
    }
  }

  /** The three earlier-cell passes together remove exactly the digits of
      the earlier cells that share a row, column or box. */
  lemma EarlierPassesCover(s: Scratch, row: int, column: int, d: int)
    requires IsGrid(s) && InRange(row, column)
    ensures SeenEarlier(s, row, column, d) <==>
      InRowBefore(s, row, column, d) || InColumnBefore(s, column, row, d) || InBoxBefore(s, row, column, row, column, d)
  {
    if SeenEarlier(s, row, column, d) {
      var i, j :| InRange(i, j) && Before(i, j, row, column) && SameUnit(i, j, row, column) && s[i][j].digit == d;
      if i == row {
        assert InRowBefore(s, row, column, d);
      } else if j == column {
        assert InColumnBefore(s, column, row, d);
      } else {
        assert InBoxBefore(s, row, column, row, column, d);
      }
    }
    if InRowBefore(s, row, column, d) {
      var t :| 0 <= t < column && s[row][t].digit == d;
      assert SameUnit(row, t, row, column);
    }
    if InColumnBefore(s, column, row, d) {
      var t :| 0 <= t < row && s[t][column].digit == d;
      assert SameUnit(t, column, row, column);
    }
    if InBoxBefore(s, row, column, row, column, d) {
      var i, j :| row / 3 * 3 <= i < 9 && column / 3 * 3 <= j < column / 3 * 3 + 3 && Before(i, j, row, column) && s[i][j].digit == d;
      assert SameUnit(i, j, row, column);
    }
  }

  /** The three earlier-cell passes in the order of sudoku.cpp:194-217:
      the candidates lose exactly the digits of earlier cells that share a
      row, column or box with `(row, column)`. */
  method ExcludeEarlier(sdk: array2<Cell>, row: int, column: int, cell: Cell) returns (c: Cell)
    requires Shaped(sdk) && InRange(row, column) && cell.Valid()
    requires PlacedBefore(Snap(sdk), row, column)
    ensures c.Valid() && c.digit == cell.digit
    ensures forall k :: 0 <= k < 9 ==> (c.free[k] <==> cell.free[k] && !SeenEarlier(Snap(sdk), row, column, k + 1))
  {
    var c1 := ExcludeRowBefore(sdk, row, column, cell);
    var c2 := ExcludeColumnBefore(sdk, row, column, c1);
    c := ExcludeBoxBefore(sdk, row, column, c2);
    forall k | 0 <= k < 9
      ensures c.free[k] <==> cell.free[k] && !SeenEarlier(Snap(sdk), row, column, k + 1)
    {
      EarlierPassesCover(Snap(sdk), row, column, k + 1);
    }
  }

  // ---- the solver's look-ahead over later locked cells (sudoku.cpp:313-326, 343-359)

  /** Every locked cell holds a digit 1..9 (what `RemoveFD` needs of the
      digits the solver reads from locked cells). */
  ghost predicate GivensFilled(givens: Grid, locked: seq<seq<bool>>)
    requires IsGrid(givens) && IsGrid(locked)
  {
    forall i, j :: InRange(i, j) && locked[i][j] ==> 1 <= givens[i][j] <= 9
  }

  /** Some locked cell `(row, t)` with `from <= t < upto` holds the given `d`. */
  ghost predicate GivenInRow(givens: Grid, locked: seq<seq<bool>>, row: int, from: int, upto: int, d: int)
    requires IsGrid(givens) && IsGrid(locked) && 0 <= row < 9 && 0 <= from && upto <= 9
  {
    exists t :: from <= t < upto && locked[row][t] && givens[row][t] == d
  }

  /** Some locked cell `(t, column)` with `from <= t < upto` holds the given `d`. */
  ghost predicate GivenInColumn(givens: Grid, locked: seq<seq<bool>>, column: int, from: int, upto: int, d: int)
    requires IsGrid(givens) && IsGrid(locked) && 0 <= column < 9 && 0 <= from && upto <= 9
  {
    exists t :: from <= t < upto && locked[t][column] && givens[t][column] == d
  }

  /** Some locked cell of `(row, column)`'s box that the backward box walk
      has passed before reaching `(tr, tc)` holds the given `d`. */
  ghost predicate GivenInBoxAfter(givens: Grid, locked: seq<seq<bool>>, row: int, column: int, tr: int, tc: int, d: int)
    requires IsGrid(givens) && IsGrid(locked) && InRange(row, column)
  {
    exists i, j :: 0 <= i <= row / 3 * 3 + 2 && column / 3 * 3 <= j < column / 3 * 3 + 3 && Before(tr, tc, i, j)
      && locked[i][j] && givens[i][j] == d
  }

  /** Fourth pass: the givens locked to the right in the same row. */
  method ExcludeRowAfterGivens(givens: Grid, locked: seq<seq<bool>>, row: int, column: int, cell: Cell) returns (c: Cell)
    requires IsGrid(givens) && IsGrid(locked) && GivensFilled(givens, locked)
    requires InRange(row, column) && cell.Valid()
    ensures c.Valid() && c.digit == cell.digit
    ensures forall k :: 0 <= k < 9 ==> (c.free[k] <==> cell.free[k] && !GivenInRow(givens, locked, row, column + 1, 9, k + 1))
  {
    c := cell;
    var tmpColumn := column + 1;
    while tmpColumn < 9
      invariant column + 1 <= tmpColumn <= 9
      invariant c.Valid() && c.digit == cell.digit
      invariant forall k :: 0 <= k < 9 ==> (c.free[k] <==> cell.free[k] && !GivenInRow(givens, locked, row, column + 1, tmpColumn, k + 1))
    {
      if locked[row][tmpColumn] {
        c := c.RemoveFD(givens[row][tmpColumn]);
      }
      tmpColumn := tmpColumn + 1;
    }
  }

  /** Fifth pass: the givens locked below in the same column. */
  method ExcludeColumnAfterGivens(givens: Grid, locked: seq<seq<bool>>, row: int, column: int, cell: Cell) returns (c: Cell)
    requires IsGrid(givens) && IsGrid(locked) && GivensFilled(givens, locked)
    requires InRange(row, column) && cell.Valid()
    ensures c.Valid() && c.digit == cell.digit
    ensures forall k :: 0 <= k < 9 ==> (c.free[k] <==> cell.free[k] && !GivenInColumn(givens, locked, column, row + 1, 9, k + 1))
  {
    c := cell;
    var tmpRow := row + 1;
    while tmpRow < 9
      invariant row + 1 <= tmpRow <= 9
      invariant c.Valid() && c.digit == cell.digit
      invariant forall k :: 0 <= k < 9 ==> (c.free[k] <==> cell.free[k] && !GivenInColumn(givens, locked, column, row + 1, tmpRow, k + 1))
    {
      if locked[tmpRow][column] {
        c := c.RemoveFD(givens[tmpRow][column]);
      }
      tmpRow := tmpRow + 1;
    }
  }

  /** One step of the backward box walk, from `(tr, tc)` to the previous
      cell of the box, adds exactly the cell `(tr, tc)` to the cells passed. */
  lemma BoxAfterStep(givens: Grid, locked: seq<seq<bool>>, row: int, column: int, tr: int, tc: int, nr: int, nc: int)
    requires IsGrid(givens) && IsGrid(locked) && InRange(row, column)
    requires row <= tr <= row / 3 * 3 + 2 && column / 3 * 3 <= tc < column / 3 * 3 + 3
    requires (nr, nc) == if tc - 1 < column / 3 * 3 then (tr - 1, column / 3 * 3 + 2) else (tr, tc - 1)
    ensures forall d :: GivenInBoxAfter(givens, locked, row, column, nr, nc, d) <==>
      GivenInBoxAfter(givens, locked, row, column, tr, tc, d) || (locked[tr][tc] && givens[tr][tc] == d)
  {
    forall d | GivenInBoxAfter(givens, locked, row, column, nr, nc, d) && !GivenInBoxAfter(givens, locked, row, column, tr, tc, d)
      ensures locked[tr][tc] && givens[tr][tc] == d
    {
      var i, j :| 0 <= i <= row / 3 * 3 + 2 && column / 3 * 3 <= j < column / 3 * 3 + 3 && Before(nr, nc, i, j)
        && locked[i][j] && givens[i][j] == d;
      assert i == tr && j == tc;
    }
  }

  /** Sixth pass, as the evident intent of sudoku.cpp:343-359: walk the box
      backwards from its bottom-right corner down to `(row, column)`, dropping
      the given of every LOCKED cell met, read from the board. */
  method ExcludeBoxAfterGivens(givens: Grid, locked: seq<seq<bool>>, row: int, column: int, cell: Cell) returns (c: Cell)
    requires IsGrid(givens) && IsGrid(locked) && GivensFilled(givens, locked)
    requires InRange(row, column) && cell.Valid()
    ensures c.Valid() && c.digit == cell.digit
    ensures forall k :: 0 <= k < 9 ==> (c.free[k] <==> cell.free[k] && !GivenInBoxAfter(givens, locked, row, column, row, column, k + 1))
  {
    c := cell;
    var tmpRow := row / 3 * 3 + 2;
    var tmpColumn := column / 3 * 3 + 2;
    while !(tmpRow == row && tmpColumn == column)
      invariant row <= tmpRow <= row / 3 * 3 + 2
      invariant column / 3 * 3 <= tmpColumn < column / 3 * 3 + 3
      invariant tmpRow > row || tmpColumn >= column
      invariant c.Valid() && c.digit == cell.digit
      invariant forall k :: 0 <= k < 9 ==> (c.free[k] <==> cell.free[k] && !GivenInBoxAfter(givens, locked, row, column, tmpRow, tmpColumn, k + 1))
      decreases tmpRow - row, tmpColumn
    {
      if locked[tmpRow][tmpColumn] {
        c := c.RemoveFD(givens[tmpRow][tmpColumn]);
      }
      ghost var tr, tc := tmpRow, tmpColumn;
      tmpColumn := tmpColumn - 1;
      if tmpColumn < column / 3 * 3 {
        tmpRow := tmpRow - 1;
        tmpColumn := column / 3 * 3 + 2;
      }
      BoxAfterStep(givens, locked, row, column, tr, tc, tmpRow, tmpColumn);
    }
  }

  /** Every locked cell of `(row, column)`'s box after it in scan order
      holds a digit 1..9 in `g`. */
  ghost predicate LaterBoxFilled(g: Grid, locked: seq<seq<bool>>, row: int, column: int)
    requires IsGrid(g) && IsGrid(locked) && InRange(row, column)
  {
    forall i, j :: 0 <= i <= row / 3 * 3 + 2 && column / 3 * 3 <= j < column / 3 * 3 + 3 && Before(row, column, i, j) && locked[i][j]
      ==> 1 <= g[i][j] <= 9
  }

  /** Sixth pass as sudoku.cpp:343-359 is written: the backward box walk
      drops, for every LOCKED cell met, the digit of that cell's SCRATCH
      copy (line 350), not the board's. `RemoveFD` needs that digit to be
      1..9; a locked cell the search has not reached yet still has scratch
      digit 0 (see `FirstVisitReadsEmpty`). */
  method ExcludeBoxAfterAsWritten(sdk: array2<Cell>, locked: seq<seq<bool>>, row: int, column: int, cell: Cell) returns (c: Cell)
    requires Shaped(sdk) && IsGrid(locked) && InRange(row, column) && cell.Valid()
    requires LaterBoxFilled(DigitsOf(sdk), locked, row, column)
    ensures c.Valid() && c.digit == cell.digit
    ensures forall k :: 0 <= k < 9 ==> (c.free[k] <==> cell.free[k] && !GivenInBoxAfter(DigitsOf(sdk), locked, row, column, row, column, k + 1))
  {
    c := cell;
    var tmpRow := row / 3 * 3 + 2;
    var tmpColumn := column / 3 * 3 + 2;
    while !(tmpRow == row && tmpColumn == column)
      invariant row <= tmpRow <= row / 3 * 3 + 2
      invariant column / 3 * 3 <= tmpColumn < column / 3 * 3 + 3
      invariant tmpRow > row || tmpColumn >= column
      invariant c.Valid() && c.digit == cell.digit
      invariant forall k :: 0 <= k < 9 ==> (c.free[k] <==> cell.free[k] && !GivenInBoxAfter(DigitsOf(sdk), locked, row, column, tmpRow, tmpColumn, k + 1))
      decreases tmpRow - row, tmpColumn
    {
      if locked[tmpRow][tmpColumn] {
        c := c.RemoveFD(sdk[tmpRow, tmpColumn].digit);
      }
      ghost var tr, tc := tmpRow, tmpColumn;
      tmpColumn := tmpColumn - 1;
      if tmpColumn < column / 3 * 3 {
        tmpRow := tmpRow - 1;
        tmpColumn := column / 3 * 3 + 2;
      }
      BoxAfterStep(DigitsOf(sdk), locked, row, column, tr, tc, tmpRow, tmpColumn);
    }
  }

  /** Where the scratch copies of the later locked box cells already hold
      their givens, the pass as written and the corrected pass drop the same
      digits: the two differ only on locked cells the search has not reached. */
  lemma AsWrittenOnceCopied(scratch: Grid, givens: Grid, locked: seq<seq<bool>>, row: int, column: int, d: int)
    requires IsGrid(scratch) && IsGrid(givens) && IsGrid(locked) && InRange(row, column)
    requires forall i, j ::
               0 <= i <= row / 3 * 3 + 2 && column / 3 * 3 <= j < column / 3 * 3 + 3 && Before(row, column, i, j) && locked[i][j]
               ==> scratch[i][j] == givens[i][j]
    ensures GivenInBoxAfter(scratch, locked, row, column, row, column, d) <==> GivenInBoxAfter(givens, locked, row, column, row, column, d)
  {
    if GivenInBoxAfter(scratch, locked, row, column, row, column, d) {
      var i, j :| 0 <= i <= row / 3 * 3 + 2 && column / 3 * 3 <= j < column / 3 * 3 + 3 && Before(row, column, i, j)
        && locked[i][j] && scratch[i][j] == d;
      assert givens[i][j] == d;
    }
    if GivenInBoxAfter(givens, locked, row, column, row, column, d) {
      var i, j :| 0 <= i <= row / 3 * 3 + 2 && column / 3 * 3 <= j < column / 3 * 3 + 3 && Before(row, column, i, j)
        && locked[i][j] && givens[i][j] == d;
      assert scratch[i][j] == d;
    }
  }

  /** The scratch digits before the search moves: `Cell()` leaves every digit 0. */
  const EmptyRow: seq<int> := [0, 0, 0, 0, 0, 0, 0, 0, 0]
  const EmptyDigits: Grid := [EmptyRow, EmptyRow, EmptyRow, EmptyRow, EmptyRow, EmptyRow, EmptyRow, EmptyRow, EmptyRow]
  const NoLocks: seq<bool> := [false, false, false, false, false, false, false, false, false]
  const SecondLocked: seq<bool> := [false, true, false, false, false, false, false, false, false]

  /** A board whose only locked cell is `(1, 1)`. */
  const OneLocked: seq<seq<bool>> := [NoLocks, SecondLocked, NoLocks, NoLocks, NoLocks, NoLocks, NoLocks, NoLocks, NoLocks]

  /** The solver's very first step, at `(0, 0)` with every scratch digit
      still 0, already breaks the as-written pass's requirement when `(1, 1)`
      is locked: line 350 then calls `RemoveFD(0)`, which writes
      `_free_digits[-1]`. */
  lemma FirstVisitReadsEmpty()
    ensures IsGrid(EmptyDigits) && IsGrid(OneLocked)
    ensures !LaterBoxFilled(EmptyDigits, OneLocked, 0, 0)
  {
    assert OneLocked[1][1] && EmptyDigits[1][1] == 0;
  }

  /** The scratch grid as both searches allocate it, every cell made by
      `Cell()`, has exactly the digits `EmptyDigits`; so on such a grid with
      only `(1, 1)` locked the as-written pass cannot run at `(0, 0)`, the
      solver's first unlocked cell. */
  lemma FreshScratchReadsEmpty(sdk: array2<Cell>)
    requires Shaped(sdk) && forall i, j :: InRange(i, j) ==> sdk[i, j] == Fresh
    ensures DigitsOf(sdk) == EmptyDigits
    ensures !LaterBoxFilled(DigitsOf(sdk), OneLocked, 0, 0)
  {
    assert forall i, j :: InRange(i, j) ==> EmptyDigits[i][j] == 0;
    SameCellsSameGrid(DigitsOf(sdk), EmptyDigits);
    FirstVisitReadsEmpty();
  }

  /** The three look-ahead passes together remove exactly the givens of the
      later locked cells that share a row, column or box. */
  lemma LaterPassesCover(givens: Grid, locked: seq<seq<bool>>, row: int, column: int, d: int)
    requires IsGrid(givens) && IsGrid(locked) && InRange(row, column)
    ensures GivenLater(givens, locked, row, column, d) <==>
      GivenInRow(givens, locked, row, column + 1, 9, d) || GivenInColumn(givens, locked, column, row + 1, 9, d)
      || GivenInBoxAfter(givens, locked, row, column, row, column, d)
  {
    if GivenLater(givens, locked, row, column, d) {
      var i, j :| InRange(i, j) && Before(row, column, i, j) && SameUnit(i, j, row, column) && locked[i][j] && givens[i][j] == d;
      if i == row {
        assert GivenInRow(givens, locked, row, column + 1, 9, d);
      } else if j == column {
        assert GivenInColumn(givens, locked, column, row + 1, 9, d);
      } else {
        assert GivenInBoxAfter(givens, locked, row, column, row, column, d);
      }
    }
    if GivenInRow(givens, locked, row, column + 1, 9, d) {
      var t :| column + 1 <= t < 9 && locked[row][t] && givens[row][t] == d;
      assert SameUnit(row, t, row, column);
    }
    if GivenInColumn(givens, locked, column, row + 1, 9, d) {
      var t :| row + 1 <= t < 9 && locked[t][column] && givens[t][column] == d;
      assert SameUnit(t, column, row, column);
    }
    if GivenInBoxAfter(givens, locked, row, column, row, column, d) {
      var i, j :| 0 <= i <= row / 3 * 3 + 2 && column / 3 * 3 <= j < column / 3 * 3 + 3 && Before(row, column, i, j)
        && locked[i][j] && givens[i][j] == d;
      assert SameUnit(i, j, row, column);
    }
  }
}
