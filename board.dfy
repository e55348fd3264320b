/** The game board (class `Sudoku` of sudoku.cpp with its widgets left out).
    Each of the 81 `CellBtn` buttons contributes two fields: its digit
    `_digit` (0 meaning empty) and its lock state, here `locked[r, c]` for
    `!_is_open`. They are kept in two 9x9 arrays; the button operations are
    methods taking the button's position. */
module Board {
  import opened Wrappers
  import opened Counting
  import opened Geometry
  import opened Generation
  import opened Candidates
  import opened Solving

  /** `g` with every unlocked cell blanked: all of the board that the solver reads. */
  function OnlyLocked(g: Grid, locked: seq<seq<bool>>): (h: Grid)
    requires IsGrid(g) && IsGrid(locked)
    ensures IsGrid(h)
    ensures forall i, j :: InRange(i, j) ==> h[i][j] == if locked[i][j] then g[i][j] else 0
  {
    seq(9, i requires 0 <= i < 9 => seq(9, j requires 0 <= j < 9 => if locked[i][j] then g[i][j] else 0))
  }

  /** Boards that agree on their locked cells give the solver the same input,
      whatever their unlocked cells hold. */
  lemma GivensIgnoreOpenCells(g1: Grid, g2: Grid, locked: seq<seq<bool>>)
    requires IsGrid(g1) && IsGrid(g2) && IsGrid(locked)
    requires forall i, j :: InRange(i, j) && locked[i][j] ==> g1[i][j] == g2[i][j]
    ensures OnlyLocked(g1, locked) == OnlyLocked(g2, locked)
  {
    SameCellsSameGrid(OnlyLocked(g1, locked), OnlyLocked(g2, locked));
  }

  /** The solutions around the locked cells of `OnlyLocked(g, locked)` are
      exactly those around the locked cells of `g` itself. */
  lemma SolvesAroundBoard(g: Grid, locked: seq<seq<bool>>)
    requires IsGrid(g) && IsGrid(locked)
    ensures forall sol :: SolvesAround(sol, OnlyLocked(g, locked), locked) <==> SolvesAround(sol, g, locked)
  {
  }

  /** The first cell in column-major order that is empty or repeats a digit
      of an earlier cell (in the same order) of its row, column or box. */
  ghost predicate ErrorAt(g: Grid, row: int, column: int)
    requires IsGrid(g) && InRange(row, column)
  {
    g[row][column] == 0
    || exists i, j :: InRange(i, j) && ColumnBefore(i, j, row, column) && SameUnit(i, j, row, column) && g[i][j] == g[row][column]
  }

  /** Some cell before `(row, column)` in column-major order, in column `c`, holds `d`. */
  ghost predicate ColumnSeen(g: Grid, c: int, d: int, row: int, column: int)
    requires IsGrid(g) && 0 <= c < 9
  {
    exists i :: 0 <= i < 9 && ColumnBefore(i, c, row, column) && g[i][c] == d
  }

  /** Some cell before `(row, column)` in column-major order, in row `r`, holds `d`. */
  ghost predicate RowSeen(g: Grid, r: int, d: int, row: int, column: int)
    requires IsGrid(g) && 0 <= r < 9
  {
    exists j :: 0 <= j < 9 && ColumnBefore(r, j, row, column) && g[r][j] == d
  }

  /** Some cell before `(row, column)` in column-major order, in the box numbered `b`, holds `d`. */
  ghost predicate BoxSeen(g: Grid, b: int, d: int, row: int, column: int)
    requires IsGrid(g)
  {
    exists i, j :: InRange(i, j) && ColumnBefore(i, j, row, column) && BoxIndex(i, j) == b && g[i][j] == d
  }

  /** The tables of `FindError` after the cells before `(row, column)` in
      column-major order: an entry is true while its digit is unseen in its
      column, row or box. */
  ghost predicate TablesAt(g: Grid, columns: array2<bool>, rows: array2<bool>, squares: array2<bool>, row: int, column: int)
    reads columns, rows, squares
    requires IsGrid(g)
    requires columns.Length0 == 9 && columns.Length1 == 9 && rows.Length0 == 9 && rows.Length1 == 9
    requires squares.Length0 == 9 && squares.Length1 == 9
  {
    (forall c, k :: 0 <= c < 9 && 0 <= k < 9 ==> (columns[c, k] <==> !ColumnSeen(g, c, k + 1, row, column)))
    && (forall r, k :: 0 <= r < 9 && 0 <= k < 9 ==> (rows[r, k] <==> !RowSeen(g, r, k + 1, row, column)))
    && (forall b, k :: 0 <= b < 9 && 0 <= k < 9 ==> (squares[b, k] <==> !BoxSeen(g, b, k + 1, row, column)))
  }

  /** The column-major successor of `(row, column)`. */
  function NextInColumn(row: int, column: int): (int, int)
  {
    if row == 8 then (0, column + 1) else (row + 1, column)
  }

  /** The scan position once `row` cells of `column` are done: after the
      ninth, the top of the next column. */
  function AtColumn(row: int, column: int): (int, int)
  {
    if row == 9 then (0, column + 1) else (row, column)
  }

  /** Passing a cell that is not an error records its digit in the three tables. */
  lemma TablesStep(g: Grid, row: int, column: int, d: int)
    requires IsGrid(g) && InRange(row, column) && d == g[row][column]
    ensures forall c, e :: 0 <= c < 9 ==>
      (ColumnSeen(g, c, e, NextInColumn(row, column).0, NextInColumn(row, column).1) <==> ColumnSeen(g, c, e, row, column) || (c == column && e == d))
    ensures forall r, e :: 0 <= r < 9 ==>
      (RowSeen(g, r, e, NextInColumn(row, column).0, NextInColumn(row, column).1) <==> RowSeen(g, r, e, row, column) || (r == row && e == d))
    ensures forall b, e ::
      (BoxSeen(g, b, e, NextInColumn(row, column).0, NextInColumn(row, column).1) <==> BoxSeen(g, b, e, row, column) || (b == BoxIndex(row, column) && e == d))
  {
    var nr, nc := NextInColumn(row, column).0, NextInColumn(row, column).1;
    forall c, e | 0 <= c < 9 && ColumnSeen(g, c, e, nr, nc) && !ColumnSeen(g, c, e, row, column)
      ensures c == column && e == d
    {
      var i :| 0 <= i < 9 && ColumnBefore(i, c, nr, nc) && g[i][c] == e;
    }
    forall r, e | 0 <= r < 9 && RowSeen(g, r, e, nr, nc) && !RowSeen(g, r, e, row, column)
      ensures r == row && e == d
    {
      var j :| 0 <= j < 9 && ColumnBefore(r, j, nr, nc) && g[r][j] == e;
    }
    forall b, e | BoxSeen(g, b, e, nr, nc) && !BoxSeen(g, b, e, row, column)
      ensures b == BoxIndex(row, column) && e == d
    {
      var i, j :| InRange(i, j) && ColumnBefore(i, j, nr, nc) && BoxIndex(i, j) == b && g[i][j] == e;
    }
    assert ColumnBefore(row, column, nr, nc);
  }

  /** The test of one non-empty cell (sudoku.cpp:468-481): when its digit
      is still unseen in its column, row and box it is marked as seen in all
      three and the scan goes on; otherwise the cell is the error. */
  method CheckCell(ghost g: Grid, columns: array2<bool>, rows: array2<bool>, squares: array2<bool>, row: int, column: int, d: int)
    returns (unseen: bool)
    requires IsGrid(g) && InRange(row, column) && 1 <= d <= 9 && d == g[row][column]
    requires columns.Length0 == 9 && columns.Length1 == 9 && rows.Length0 == 9 && rows.Length1 == 9
    requires squares.Length0 == 9 && squares.Length1 == 9
    requires columns != rows && rows != squares && columns != squares
    requires TablesAt(g, columns, rows, squares, row, column)
    modifies columns, rows, squares
    ensures unseen <==> !ErrorAt(g, row, column)
    ensures unseen ==> TablesAt(g, columns, rows, squares, NextInColumn(row, column).0, NextInColumn(row, column).1)
  {
    ErrorAtSeen(g, row, column);
    unseen := columns[column, d - 1] && rows[row, d - 1] && squares[BoxIndex(row, column), d - 1];
    if unseen {
      columns[column, d - 1] := false;
      rows[row, d - 1] := false;
      squares[BoxIndex(row, column), d - 1] := false;
      TablesStep(g, row, column, d);
    }
  }

  /** A non-empty cell is an error exactly when one of the tables has seen its digit. */
  lemma ErrorAtSeen(g: Grid, row: int, column: int)
    requires IsGrid(g) && InRange(row, column) && 1 <= g[row][column] <= 9
    ensures ErrorAt(g, row, column) <==>
      ColumnSeen(g, column, g[row][column], row, column) || RowSeen(g, row, g[row][column], row, column)
      || BoxSeen(g, BoxIndex(row, column), g[row][column], row, column)
  {
    var d := g[row][column];
    if ErrorAt(g, row, column) {
      var i, j :| InRange(i, j) && ColumnBefore(i, j, row, column) && SameUnit(i, j, row, column) && g[i][j] == d;
      BoxIndexSameBox(i, j, row, column);
      if j == column {
        assert ColumnSeen(g, column, d, row, column);
      } else if i == row {
        assert RowSeen(g, row, d, row, column);
      } else {
        assert BoxSeen(g, BoxIndex(row, column), d, row, column);
      }
    }
    if BoxSeen(g, BoxIndex(row, column), d, row, column) {
      var i, j :| InRange(i, j) && ColumnBefore(i, j, row, column) && BoxIndex(i, j) == BoxIndex(row, column) && g[i][j] == d;
      BoxIndexSameBox(i, j, row, column);
    }
  }

  /** With no cell an error, the grid is solved, and conversely: of two
      cells sharing a unit, the later one in column-major order repeats the
      earlier one. */
  lemma NoErrorSolved(g: Grid)
    requires Digits(g)
    ensures (forall i, j :: InRange(i, j) ==> !ErrorAt(g, i, j)) <==> Solved(g)
  {
    if forall i, j :: InRange(i, j) ==> !ErrorAt(g, i, j) {
      forall r1, c1, r2, c2 | InRange(r1, c1) && InRange(r2, c2) && (r1 != r2 || c1 != c2) && SameUnit(r1, c1, r2, c2)
        ensures g[r1][c1] != g[r2][c2]
      {
        if ColumnBefore(r1, c1, r2, c2) {
          assert !ErrorAt(g, r2, c2);
        } else {
          assert ColumnBefore(r2, c2, r1, c1) && !ErrorAt(g, r1, c1);
        }
      }
    }
  }

  class Sudoku {
    /** `_cells[r][c]->_digit`, 0 meaning empty. */
    var digit: array2<int>
    /** `!_cells[r][c]->_is_open`. */
    var locked: array2<bool>

    predicate Shape()
      reads this
    {
      digit.Length0 == 9 && digit.Length1 == 9 && locked.Length0 == 9 && locked.Length1 == 9
    }

    /** The board's invariant: 81 cells, each digit 0..9. */
    ghost predicate Valid()
      reads this, digit
    {
      Shape() && forall i, j :: InRange(i, j) ==> 0 <= digit[i, j] <= 9
    }

    /** The digits, row by row. */
    function Grid(): (g: Grid)
      reads this, digit
      requires Shape()
      ensures IsGrid(g)
      ensures forall i, j :: InRange(i, j) ==> g[i][j] == digit[i, j]
    {
      var a := digit;
      seq(9, i requires 0 <= i < 9 reads a => seq(9, j requires 0 <= j < 9 reads a => a[i, j]))
    }

    /** The lock flags, row by row. */
    function Locks(): (l: seq<seq<bool>>)
      reads this, locked
      requires Shape()
      ensures IsGrid(l)
      ensures forall i, j :: InRange(i, j) ==> l[i][j] == locked[i, j]
    {
      var a := locked;
      seq(9, i requires 0 <= i < 9 reads a => seq(9, j requires 0 <= j < 9 reads a => a[i, j]))
    }

    /** The lock flags in scan order, position `row * 9 + column`. */
    function LockFlags(): (f: seq<bool>)
      reads this, locked
      requires Shape()
      ensures |f| == 81
      ensures forall i, j :: InRange(i, j) ==> f[i * 9 + j] == locked[i, j]
    {
      var a := locked;
      seq(81, q requires 0 <= q < 81 reads a => a[q / 9, q % 9])
    }

    /** `CellBtn()` for each of the 81 buttons: digit 0, open. */
    constructor ()
      ensures Valid() && fresh(digit) && fresh(locked)
      ensures forall i, j :: InRange(i, j) ==> digit[i, j] == 0 && !locked[i, j]
    {
      digit := new int[9, 9]((_, _) => 0);
      locked := new bool[9, 9]((_, _) => false);
    }

    /** `CellBtn::GetDigit`. */
    function GetDigit(row: int, column: int): (d: int)
      reads this, digit
      requires Valid() && InRange(row, column)
      ensures 0 <= d <= 9
    {
      digit[row, column]
    }

    /** `CellBtn::SetDigit` (sudoku.cpp:22-27): only the digit changes. */
    method SetDigit(row: int, column: int, d: int)
      requires Valid() && InRange(row, column) && 0 <= d <= 9
      modifies digit
      ensures Valid()
      ensures digit[row, column] == d
      ensures forall i, j :: InRange(i, j) && (i != row || j != column) ==> digit[i, j] == old(digit[i, j])
    {
      digit[row, column] := d;
    }

    /** `CellBtn::Lock` (sudoku.cpp:29-37): an open button is locked; a
        locked one stays as it is. Only the lock flag changes. */
    method Lock(row: int, column: int)
      requires Shape() && InRange(row, column)
      modifies locked
      ensures locked[row, column]
      ensures forall i, j :: InRange(i, j) && (i != row || j != column) ==> locked[i, j] == old(locked[i, j])
    {
      if !locked[row, column] {
        locked[row, column] := true;
      }
    }

    /** `CellBtn::Open` (sudoku.cpp:39-47): a locked button is opened; an
        open one stays as it is. Only the lock flag changes. */
    method Open(row: int, column: int)
      requires Shape() && InRange(row, column)
      modifies locked
      ensures !locked[row, column]
      ensures forall i, j :: InRange(i, j) && (i != row || j != column) ==> locked[i, j] == old(locked[i, j])
    {
      if locked[row, column] {
        locked[row, column] := false;
      }
    }

    /** `CellBtn::ChangeDigit` (sudoku.cpp:49-58), the button's click: the
        digit goes round 0, 1, ..., 9, 0. It runs only as the button's
        `clicked` slot (sudoku.cpp:8), and `Lock` disables the button
        (sudoku.cpp:34), so a locked cell never sees it: a click leaves the
        givens as they were. */
    method ChangeDigit(row: int, column: int)
      requires Valid() && InRange(row, column)
      requires !locked[row, column]
      modifies digit
      ensures Valid()
      ensures digit[row, column] == (old(digit[row, column]) + 1) % 10
      ensures forall i, j :: InRange(i, j) && (i != row || j != column) ==> digit[i, j] == old(digit[i, j])
      ensures Locks() == old(Locks())
      ensures old(GivensFilled(Grid(), Locks())) ==> GivensFilled(Grid(), Locks())
    {
      digit[row, column] := digit[row, column] + 1;
      if digit[row, column] == 10 {
        digit[row, column] := 0;
      }
    }
  
    /** One column of `FindError`'s scan (sudoku.cpp:464-482), top to
        bottom: `-1` when every cell of the column passes, else the row of
        the first cell that is empty or repeats a digit seen before it. */
    method ScanColumn(ghost g: Grid, columns: array2<bool>, rows: array2<bool>, squares: array2<bool>, column: int) returns (errRow: int)
      requires Valid() && IsGrid(g) && (forall i, j :: InRange(i, j) ==> g[i][j] == digit[i, j]) && 0 <= column < 9
      requires columns.Length0 == 9 && columns.Length1 == 9 && rows.Length0 == 9 && rows.Length1 == 9
      requires squares.Length0 == 9 && squares.Length1 == 9
      requires columns != rows && rows != squares && columns != squares
      requires TablesAt(g, columns, rows, squares, 0, column)
      modifies columns, rows, squares
      ensures -1 <= errRow < 9
      ensures errRow == -1 ==> TablesAt(g, columns, rows, squares, 0, column + 1)
      ensures errRow == -1 ==> forall i :: 0 <= i < 9 ==> !ErrorAt(g, i, column)
      ensures errRow >= 0 ==> ErrorAt(g, errRow, column) && forall i :: 0 <= i < errRow ==> !ErrorAt(g, i, column)
    {
      var row := 0;
      while row < 9
        invariant 0 <= row <= 9
        invariant TablesAt(g, columns, rows, squares, AtColumn(row, column).0, AtColumn(row, column).1)
        invariant forall i :: 0 <= i < row ==> !ErrorAt(g, i, column)
      {
        var d := digit[row, column];
        if d == 0 {
          return row;
        }
        var unseen := CheckCell(g, columns, rows, squares, row, column, d);
        if !unseen {
          return row;
        }
        assert NextInColumn(row, column) == AtColumn(row + 1, column);
        row := row + 1;
      }
      return -1;
    }

    /** The column loop of `FindError` (sudoku.cpp:462-483) over the board
        `g`: `(-1, -1)` when no cell is an error, else `(column, row)` of the
        first error in column-major order. */
    method ScanBoard(ghost g: Grid, columns: array2<bool>, rows: array2<bool>, squares: array2<bool>) returns (err: (int, int))
      requires Valid() && IsGrid(g) && forall i, j :: InRange(i, j) ==> g[i][j] == digit[i, j]
      requires columns.Length0 == 9 && columns.Length1 == 9 && rows.Length0 == 9 && rows.Length1 == 9
      requires squares.Length0 == 9 && squares.Length1 == 9
      requires columns != rows && rows != squares && columns != squares
      requires TablesAt(g, columns, rows, squares, 0, 0)
      modifies columns, rows, squares
      ensures err == (-1, -1) ==> forall i, j :: InRange(i, j) ==> !ErrorAt(g, i, j)
      ensures err != (-1, -1) ==> InRange(err.1, err.0) && ErrorAt(g, err.1, err.0)
      ensures err != (-1, -1) ==> forall i, j :: InRange(i, j) && ColumnBefore(i, j, err.1, err.0) ==> !ErrorAt(g, i, j)
    {
      var column := 0;
      while column < 9
        invariant 0 <= column <= 9
        invariant TablesAt(g, columns, rows, squares, 0, column)
        invariant forall i, j :: InRange(i, j) && j < column ==> !ErrorAt(g, i, j)
      {
        var errRow := ScanColumn(g, columns, rows, squares, column);
        if errRow >= 0 {
          return (column, errRow);
        }
        column := column + 1;
      }
      return (-1, -1);
    }

    /** `Sudoku::FindError` (sudoku.cpp:447-486): scan the board column by
        column, top to bottom, keeping for each column, row and box the
        digits not yet seen there. The answer is `(column, row)` of the first
        cell that is empty or holds a digit already seen in its column, row
        or box, or `(-1, -1)` when there is none, which is exactly when the
        board is solved. Boxes are numbered `row / 3 + column / 3 * 3`. */
    method FindError() returns (err: (int, int))
      requires Valid()
      ensures err == (-1, -1) <==> Solved(Grid())
      ensures err != (-1, -1) ==> InRange(err.1, err.0) && ErrorAt(Grid(), err.1, err.0)
      ensures err != (-1, -1) ==> forall i, j :: InRange(i, j) && ColumnBefore(i, j, err.1, err.0) ==> !ErrorAt(Grid(), i, j)
    {
      ghost var g := Grid();
      var columns := new bool[9, 9]((_, _) => true);
      var rows := new bool[9, 9]((_, _) => true);
      var squares := new bool[9, 9]((_, _) => true);
      err := ScanBoard(g, columns, rows, squares);
      NoErrorSolved(g);
    }

    /** One cell of Generate's write-out (sudoku.cpp:266-282): a marked
        position becomes a locked given holding the full grid's digit,
        any other becomes an empty open cell. The test sits inside a loop
        of `count` rounds, so with `count <= 0` no position is locked. */
    method WriteCell(row: int, column: int, full: Grid, marked: seq<bool>, count: int)
      requires Valid() && InRange(row, column) && Digits(full) && |marked| == 81
      modifies digit, locked
      ensures Valid()
      ensures locked[row, column] == (count > 0 && marked[row * 9 + column])
      ensures digit[row, column] == if locked[row, column] then full[row][column] else 0
      ensures forall i, j :: InRange(i, j) && (i != row || j != column) ==>
                digit[i, j] == old(digit[i, j]) && locked[i, j] == old(locked[i, j])
    {
      var t := true;
      var i := 0;
      while i < count
        invariant Valid() && 0 <= i && t
        invariant i == 0 || !marked[row * 9 + column]
        invariant digit[row, column] == old(digit[row, column]) && locked[row, column] == old(locked[row, column])
        invariant forall i2, j2 :: InRange(i2, j2) && (i2 != row || j2 != column) ==>
                    digit[i2, j2] == old(digit[i2, j2]) && locked[i2, j2] == old(locked[i2, j2])
        decreases count - i
      {
        if marked[column + row * 9] {
          SetDigit(row, column, full[row][column]);
          Lock(row, column);
          t := false;
          break;
        }
        i := i + 1;
      }
      if t {
        SetDigit(row, column, 0);
        Open(row, column);
      }
    }

    /** Generate's write-out over the whole board (sudoku.cpp:262-284). */
    method WriteBoard(full: Grid, marked: seq<bool>, count: int)
      requires Valid() && Digits(full) && |marked| == 81
      modifies digit, locked
      ensures Valid()
      ensures forall i, j :: InRange(i, j) ==> locked[i, j] == (count > 0 && marked[i * 9 + j])
      ensures forall i, j :: InRange(i, j) ==> digit[i, j] == if locked[i, j] then full[i][j] else 0
    {
      var row := 0;
      while row < 9
        invariant Valid() && 0 <= row <= 9
        invariant forall i, j :: InRange(i, j) && i < row ==>
                    locked[i, j] == (count > 0 && marked[i * 9 + j]) && digit[i, j] == if locked[i, j] then full[i][j] else 0
      {
        var column := 0;
        while column < 9
          invariant Valid() && 0 <= column <= 9
          invariant forall i, j :: InRange(i, j) && (i < row || (i == row && j < column)) ==>
                      locked[i, j] == (count > 0 && marked[i * 9 + j]) && digit[i, j] == if locked[i, j] then full[i][j] else 0
        {
          WriteCell(row, column, full, marked, count);
          column := column + 1;
        }
        row := row + 1;
      }
    }

    /** `Sudoku::Generate` (sudoku.cpp:186-285): fill a complete grid at
        random, mark `openSlotsCount` positions at random and write the
        board: exactly the marked positions become locked givens holding
        the full grid's digit, every other cell is empty and open. When
        the fill gives up (the `exit(-1)` of sudoku.cpp:222) the board is
        left as it was. `rand` stands for the C library's `rand()`, its
        `n`-th call answering `rand(n)`; `calls` and `next` count the calls. */
    method Generate(openSlotsCount: int, rand: nat -> nat, calls: nat) returns (ok: bool, ghost full: Grid, ghost marked: seq<bool>, next: nat)
      requires Valid() && openSlotsCount <= 81
      modifies digit, locked
      ensures Valid() && next >= calls
      ensures !ok ==> unchanged(digit) && unchanged(locked)
      ensures ok ==> Solved(full) && |marked| == 81
      ensures ok ==> LockFlags() == marked && CountTrue(marked) == if openSlotsCount < 0 then 0 else openSlotsCount
      ensures ok ==> forall i, j :: InRange(i, j) ==> digit[i, j] == if locked[i, j] then full[i][j] else 0
      ensures ok ==> GivensFilled(Grid(), Locks())
    {
      var filled;
      filled, next := FillGrid(rand, calls);
      if filled.None? {
        return false, [], [], next;
      }
      var f := filled.value;
      var m;
      m, next := SelectOpened(openSlotsCount, rand, next);
      full, marked := f, m;
      WriteBoard(f, m, openSlotsCount);
      ok := true;
      forall k | 0 <= k < 81
        ensures LockFlags()[k] == marked[k]
      {
        assert k == k / 9 * 9 + k % 9;
        if openSlotsCount <= 0 {
          CountTrueExtremes(marked);
        }
      }
    }

    /** The write-back of a solution into the board (sudoku.cpp:404-410). */
    method WriteDigits(sol: Grid)
      requires Valid() && Digits(sol)
      modifies digit
      ensures Valid() && Grid() == sol
    {
      var row := 0;
      while row < 9
        invariant Valid() && 0 <= row <= 9
        invariant forall i, j :: InRange(i, j) && i < row ==> digit[i, j] == sol[i][j]
      {
        var column := 0;
        while column < 9
          invariant Valid() && 0 <= column <= 9
          invariant forall i, j :: InRange(i, j) && (i < row || (i == row && j < column)) ==> digit[i, j] == sol[i][j]
        {
          SetDigit(row, column, sol[row][column]);
          column := column + 1;
        }
        row := row + 1;
      }
      SameCellsSameGrid(Grid(), sol);
    }

    /** `Sudoku::Solve` (sudoku.cpp:287-411): search a solution around the
        locked cells, which stay as they are, and write it into the board
        only when one is found. The search reads nothing of the unlocked
        cells (see `GivensIgnoreOpenCells`); on "no solutions" the board
        is untouched. A board whose every cell is locked is reported solved
        and left unchanged, whatever its givens. */
    method Solve(rand: nat -> nat, calls: nat) returns (solved: bool, next: nat)
      requires Valid() && GivensFilled(Grid(), Locks())
      modifies digit
      ensures Valid() && next >= calls
      ensures Locks() == old(Locks())
      ensures solved ==> SolvesAround(Grid(), old(Grid()), Locks())
      ensures !solved ==> Grid() == old(Grid()) && exists i, j :: InRange(i, j) && !locked[i, j]
      ensures !solved ==> !exists g :: SolvesAround(g, old(Grid()), Locks())
      ensures (forall i, j :: InRange(i, j) ==> locked[i, j]) ==> solved && Grid() == old(Grid())
    {
      var before := Grid();
      var locks := Locks();
      var givens := OnlyLocked(before, locks);
      var r;
      r, next := SolveSearch(givens, locks, rand, calls);
      if r.None? {
        SolvesAroundBoard(before, locks);
        return false, next;
      }
      SolvesAroundBoard(before, locks);
      WriteDigits(r.value);
      solved := true;
      if forall i, j :: InRange(i, j) ==> locked[i, j] {
        SameCellsSameGrid(givens, before);
      }
    }
  }
}
