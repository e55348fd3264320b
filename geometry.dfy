/** The 9x9 board's geometry and the Sudoku rule, shared by the generator,
    the solver and the validator. Rows and columns run 0..8; cells are
    visited by the backtracking searches in row-major scan order and by the
    validator in column-major order. */
module Geometry {

  /** A grid of digits, `g[row][column]`, 0 meaning empty. */
  type Grid = seq<seq<int>>

  predicate InRange(row: int, column: int)
  {
    0 <= row < 9 && 0 <= column < 9
  }

  /** Row-major scan order: `(r1, c1)` is visited before `(r2, c2)`. */
  predicate Before(r1: int, c1: int, r2: int, c2: int)
  {
    r1 < r2 || (r1 == r2 && c1 < c2)
  }

  /** Column-major order, the order of the validator's scan. */
  predicate ColumnBefore(r1: int, c1: int, r2: int, c2: int)
  {
    c1 < c2 || (c1 == c2 && r1 < r2)
  }

  predicate SameBox(r1: int, c1: int, r2: int, c2: int)
  {
    r1 / 3 == r2 / 3 && c1 / 3 == c2 / 3
  }

  /** Two positions constrain each other: same row, same column or same box. */
  predicate SameUnit(r1: int, c1: int, r2: int, c2: int)
  {
    r1 == r2 || c1 == c2 || SameBox(r1, c1, r2, c2)
  }

  predicate IsGrid<T>(g: seq<seq<T>>)
  {
    |g| == 9 && forall r :: 0 <= r < 9 ==> |g[r]| == 9
  }

  /** Every cell holds a digit 0..9. */
  ghost predicate Digits(g: Grid)
  {
    IsGrid(g) && forall r, c :: InRange(r, c) ==> 0 <= g[r][c] <= 9
  }

  /** Every cell holds a digit 1..9. */
  ghost predicate Filled(g: Grid)
  {
    IsGrid(g) && forall r, c :: InRange(r, c) ==> 1 <= g[r][c] <= 9
  }

  /** No row, column or box holds a digit twice. */
  ghost predicate NoRepeats(g: Grid)
    requires IsGrid(g)
  {
    forall r1, c1, r2, c2 ::
      InRange(r1, c1) && InRange(r2, c2) && (r1 != r2 || c1 != c2) && SameUnit(r1, c1, r2, c2)
      ==> g[r1][c1] != g[r2][c2]
  }

  /** A complete, rule-valid Sudoku grid. */
  ghost predicate Solved(g: Grid)
  {
    Filled(g) && NoRepeats(g)
  }

  /** Box numbering of the validator's table, `row / 3 + column / 3 * 3`
      (sudoku.cpp:472); it is column-major over the boxes, unlike the
      row-major `(row / 3) * 3 + column / 3`, but it still names each box
      by exactly one number. */
  function BoxIndex(row: int, column: int): (b: int)
    requires InRange(row, column)
    ensures 0 <= b < 9
  {
    row / 3 + column / 3 * 3
  }

  lemma BoxIndexSameBox(r1: int, c1: int, r2: int, c2: int)
    requires InRange(r1, c1) && InRange(r2, c2)
    ensures BoxIndex(r1, c1) == BoxIndex(r2, c2) <==> SameBox(r1, c1, r2, c2)
  {
  }

  /** Grids are equal when their cells are. */
  lemma SameCellsSameGrid<T>(g: seq<seq<T>>, h: seq<seq<T>>)
    requires IsGrid(g) && IsGrid(h)
    requires forall r, c :: InRange(r, c) ==> g[r][c] == h[r][c]
    ensures g == h
  {
    forall r | 0 <= r < 9
      ensures g[r] == h[r]
    {
      assert forall c :: 0 <= c < 9 ==> g[r][c] == h[r][c];
    }
  }
}
