/** The two search phases of `Sudoku::Generate` (sudoku.cpp:186-261): the
    randomized backtracking fill of a complete grid, and the random choice of
    the positions that become locked givens. Writing the board from their
    results is `Sudoku.Generate` in board.dfy. `rand()` is the parameter
    `rand`: its i-th call returns `rand(i)`, and the counter is threaded
    through both phases. */
module Generation {
  import opened Wrappers
  import opened Counting
  import opened Geometry
  import opened ScratchCell
  import opened Candidates
  import opened Progress

  /** Every scratch cell before `(row, column)` differs from every earlier
      scratch cell that shares its row, column or box. */
  ghost predicate ConsistentBefore(s: Scratch, row: int, column: int)
    requires IsGrid(s)
  {
    forall i, j, i2, j2 ::
      InRange(i, j) && InRange(i2, j2) && Before(i, j, row, column) && Before(i2, j2, i, j) && SameUnit(i2, j2, i, j)
      ==> s[i2][j2].digit != s[i][j].digit
  }

  /** Every scratch cell after `(row, column)` is as `Cell()` or `Reset` leaves it. */
  ghost predicate FreshAfter(s: Scratch, row: int, column: int)
    requires IsGrid(s)
  {
    forall i, j :: InRange(i, j) && Before(row, column, i, j) ==> s[i][j] == Fresh
  }

  /** What holds each time the fill loop tests its condition. */
  ghost predicate FillInvariant(s: Scratch, row: int, column: int)
  {
    IsGrid(s) && 0 <= row <= 9 && 0 <= column < 9 && (row == 9 ==> column == 0)
    && (forall i, j :: InRange(i, j) ==> s[i][j].Valid())
    && PlacedBefore(s, row, column) && ConsistentBefore(s, row, column) && FreshAfter(s, row, column)
  }

  /** Placing a digit that no earlier cell of its units holds keeps the
      invariant at the next cell. */
  lemma {:induction false} PlaceKeeps(s: Scratch, row: int, column: int, c: Cell)
    requires FillInvariant(s, row, column) && row < 9
    requires c.Valid() && 1 <= c.digit <= 9 && !SeenEarlier(s, row, column, c.digit)
    ensures FillInvariant(Put(s, row, column, c), Next(row, column).0, Next(row, column).1)
  {
    var t: Scratch := Put(s, row, column, c);
    var nr, nc := Next(row, column).0, Next(row, column).1;
    forall i, j, i2, j2 |
      InRange(i, j) && InRange(i2, j2) && Before(i, j, nr, nc) && Before(i2, j2, i, j) && SameUnit(i2, j2, i, j)
      ensures t[i2][j2].digit != t[i][j].digit
    {
      if i == row && j == column {
        assert !(InRange(i2, j2) && Before(i2, j2, row, column) && SameUnit(i2, j2, row, column) && s[i2][j2].digit == c.digit);
      }
    }
  }

  /** Resetting the cell under the pointer and stepping back keeps the invariant. */
  lemma {:induction false} BackKeeps(s: Scratch, row: int, column: int)
    requires FillInvariant(s, row, column) && row < 9 && (row != 0 || column != 0)
    ensures FillInvariant(Put(s, row, column, Fresh), Prev(row, column).0, Prev(row, column).1)
  {
  }

  /** Once the pointer has passed every cell, the scratch digits form a
      complete valid grid: of two cells sharing a unit, the later one was
      checked against the earlier. */
  lemma FilledGridSolved(s: Scratch, g: Grid)
    requires FillInvariant(s, 9, 0) && IsGrid(g)
    requires forall i, j :: InRange(i, j) ==> g[i][j] == s[i][j].digit
    ensures Solved(g)
  {
    forall r1, c1, r2, c2 | InRange(r1, c1) && InRange(r2, c2) && (r1 != r2 || c1 != c2) && SameUnit(r1, c1, r2, c2)
      ensures g[r1][c1] != g[r2][c2]
    {
      assert Before(r1, c1, 9, 0) && Before(r2, c2, 9, 0);
      if Before(r1, c1, r2, c2) {
        assert SameUnit(r1, c1, r2, c2);
      } else {
        assert Before(r2, c2, r1, c1) && SameUnit(r2, c2, r1, c1);
      }
    }
  }

  /** A placement followed by a step forward keeps the invariant and makes progress. */
  lemma ForwardStep(s: Scratch, row: int, column: int, c: Cell)
    requires FillInvariant(s, row, column) && row < 9
    requires c.Valid() && 1 <= c.digit <= 9 && !SeenEarlier(s, row, column, c.digit)
    requires CountTrue(c.free) < CountTrue(s[row][column].free)
    ensures FillInvariant(Put(s, row, column, c), Next(row, column).0, Next(row, column).1)
    ensures Progressed(s, NoneLocked, row, column, Put(s, row, column, c), Next(row, column).0, Next(row, column).1)
  {
    PlaceKeeps(s, row, column, c);
    WeightsForward(s, NoneLocked, row, column, c);
  }

  /** A reset followed by a step back keeps the invariant and makes progress. */
  lemma BackStep(s: Scratch, row: int, column: int)
    requires FillInvariant(s, row, column) && row < 9 && (row != 0 || column != 0)
    ensures FillInvariant(Put(s, row, column, Fresh), Prev(row, column).0, Prev(row, column).1)
    ensures Progressed(s, NoneLocked, row, column, Put(s, row, column, Fresh), Prev(row, column).0, Prev(row, column).1)
  {
    BackKeeps(s, row, column);
    WeightsBack(s, NoneLocked, row, column, Fresh, Prev(row, column).0, Prev(row, column).1);
  }

  method FillGrid(rand: nat -> nat, calls: nat) returns (full: Option<Grid>, next: nat)
    ensures full.Some? ==> Solved(full.value)
    ensures next >= calls
  {
    var sdk := new Cell[9, 9]((_, _) => Fresh);
    ghost var s := Snap(sdk);
    next := calls;
    var row, column := 0, 0;
    while row < 9
      invariant FillInvariant(s, row, column)
      invariant s == Snap(sdk)
      invariant next >= calls
      decreases Measure(s, NoneLocked, Pos(row, column)), 81 - Pos(row, column)
    {
      var c0 := sdk[row, column];
      var c3 := ExcludeEarlier(sdk, row, column, c0);
      var ok, c4 := GenerateDigit(c3, rand(next));
      if !ok {
        if row == 0 && column == 0 {
          return None, next;
        }
        BackStep(s, row, column);
        Store(sdk, row, column, sdk[row, column].Reset());
        s := Put(s, row, column, Fresh);
        row, column := Prev(row, column).0, Prev(row, column).1;
      } else {
        next := next + 1;
        CountTrueMono(c0.free, c3.free);
        ForwardStep(s, row, column, c4);
        Store(sdk, row, column, c4);
        s := Put(s, row, column, c4);
        row, column := Next(row, column).0, Next(row, column).1;
      }
    }
    full := Some(DigitsOf(sdk));
    FilledGridSolved(s, full.value);
  }

  /** The selection phase (sudoku.cpp:238-261): `count` rounds, each marking
      the `(rand() % (81 - i))`-th still unmarked slot (0-based, in scan
      order) for the i-th round. A count above 81 would divide by zero in the
      source; a count of 0 or less marks nothing. Exactly `count` distinct
      slots end up marked, one `rand()` call each. */
  method SelectOpened(count: int, rand: nat -> nat, calls: nat) returns (marked: seq<bool>, next: nat)
    requires count <= 81
    ensures |marked| == 81
    ensures CountTrue(marked) == (if count < 0 then 0 else count)
    ensures next == calls + (if count < 0 then 0 else count)
  {
    var marks := new bool[81](_ => false);
    CountTrueExtremes(marks[..]);
    next := calls;
    var i := 0;
    while i < count
      invariant 0 <= i <= (if count < 0 then 0 else count)
      invariant CountTrue(marks[..]) == i
      invariant next == calls + i
    {
      var tmp := rand(next) % (81 - i);
      next := next + 1;
      ghost var target := tmp;
      ghost var before := marks[..];
      var trueNum := 0;
      while true
        invariant 0 <= trueNum < 81
        invariant 0 <= tmp && tmp + (trueNum - CountTrue(marks[..trueNum])) == target
        invariant marks[..] == before && target < 81 - CountTrue(before)
        decreases 81 - trueNum
      {
        CountTruePrefixStep(marks[..], trueNum);
        assert marks[..][..trueNum + 1] == marks[..trueNum + 1];
        if !marks[trueNum] {
          if tmp == 0 {
            break;
          }
          tmp := tmp - 1;
        }
        trueNum := trueNum + 1;
      }
      CountTrueUpdate(before, trueNum, true);
      marks[trueNum] := true;
      assert marks[..] == before[trueNum := true];
      i := i + 1;
    }
    marked := marks[..];
  }
}
