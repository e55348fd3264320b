/** The search of `Sudoku::Solve` (sudoku.cpp:291-402). It reads only the
    locked cells of the board: `givens[i][j]` is the digit of a locked cell
    and `locked[i][j]` its lock flag. Writing the result back to the board
    is `Sudoku.Solve` in board.dfy. `rand()` is the parameter `rand`, as in
    the generator. */
module Solving {
  import opened Wrappers
  import opened Counting
  import opened Geometry
  import opened ScratchCell
  import opened Candidates
  import opened Progress

  /** Every unlocked scratch cell before `(row, column)` differs from every
      earlier scratch cell of its units. */
  ghost predicate OpenFitsEarlier(s: Scratch, locked: seq<seq<bool>>, row: int, column: int)
    requires IsGrid(s) && IsGrid(locked)
  {
    forall i, j, i2, j2 ::
      InRange(i, j) && InRange(i2, j2) && Before(i, j, row, column) && !locked[i][j]
      && Before(i2, j2, i, j) && SameUnit(i2, j2, i, j)
      ==> s[i2][j2].digit != s[i][j].digit
  }

  /** Every unlocked scratch cell before `(row, column)` differs from the
      given of every later locked cell of its units. */
  ghost predicate OpenFitsLater(s: Scratch, givens: Grid, locked: seq<seq<bool>>, row: int, column: int)
    requires IsGrid(s) && IsGrid(givens) && IsGrid(locked)
  {
    forall i, j, i2, j2 ::
      InRange(i, j) && InRange(i2, j2) && Before(i, j, row, column) && !locked[i][j]
      && Before(i, j, i2, j2) && SameUnit(i2, j2, i, j) && locked[i2][j2]
      ==> givens[i2][j2] != s[i][j].digit
  }

  /** Every locked scratch cell before `(row, column)` holds its given. */
  ghost predicate GivensCopied(s: Scratch, givens: Grid, locked: seq<seq<bool>>, row: int, column: int)
    requires IsGrid(s) && IsGrid(givens) && IsGrid(locked)
  {
    forall i, j :: InRange(i, j) && Before(i, j, row, column) && locked[i][j] ==> s[i][j].digit == givens[i][j]
  }

  /** What holds each time the solver's loop tests its condition. */
  ghost predicate SolveInvariant(s: Scratch, givens: Grid, locked: seq<seq<bool>>, row: int, column: int)
  {
    IsGrid(s) && IsGrid(givens) && IsGrid(locked) && GivensFilled(givens, locked)
    && 0 <= row <= 9 && 0 <= column < 9 && (row == 9 ==> column == 0)
    && (forall i, j :: InRange(i, j) ==> s[i][j].Valid())
    && PlacedBefore(s, row, column) && GivensCopied(s, givens, locked, row, column)
    && OpenFitsEarlier(s, locked, row, column) && OpenFitsLater(s, givens, locked, row, column)
  }

  /** What a successful search returns: every locked cell holds its given,
      every unlocked cell a digit 1..9 that no other cell of its row, column
      or box holds. Two locked cells are never compared. */
  ghost predicate SolvesAround(g: Grid, givens: Grid, locked: seq<seq<bool>>)
    requires IsGrid(givens) && IsGrid(locked)
  {
    IsGrid(g)
    && (forall i, j :: InRange(i, j) && locked[i][j] ==> g[i][j] == givens[i][j])
    && (forall i, j :: InRange(i, j) && !locked[i][j] ==> 1 <= g[i][j] <= 9)
    && (forall i, j, i2, j2 ::
          InRange(i, j) && InRange(i2, j2) && !locked[i][j] && (i != i2 || j != j2) && SameUnit(i, j, i2, j2)
          ==> g[i][j] != g[i2][j2])
  }

  /** A locked cell copied from the board, then a step forward. */
  lemma LockedStep(s: Scratch, givens: Grid, locked: seq<seq<bool>>, row: int, column: int)
    requires SolveInvariant(s, givens, locked, row, column) && row < 9 && locked[row][column]
    ensures SolveInvariant(Put(s, row, column, s[row][column].SetDigit(givens[row][column])), givens, locked, Next(row, column).0, Next(row, column).1)
    ensures Progressed(s, locked, row, column, Put(s, row, column, s[row][column].SetDigit(givens[row][column])), Next(row, column).0, Next(row, column).1)
  {
    var c := s[row][column].SetDigit(givens[row][column]);
    WeightsForward(s, locked, row, column, c);
  }

  /** Placing at an unlocked cell a digit no earlier cell of its units
      holds keeps every unlocked cell fitting the earlier ones. */
  lemma PlaceFitsEarlier(s: Scratch, locked: seq<seq<bool>>, row: int, column: int, c: Cell)
    requires IsGrid(s) && IsGrid(locked) && InRange(row, column)
    requires OpenFitsEarlier(s, locked, row, column)
    requires !SeenEarlier(s, row, column, c.digit)
    ensures OpenFitsEarlier(Put(s, row, column, c), locked, Next(row, column).0, Next(row, column).1)
  {
    var t: Scratch := Put(s, row, column, c);
    var nr, nc := Next(row, column).0, Next(row, column).1;
    forall i, j, i2, j2 |
      InRange(i, j) && InRange(i2, j2) && Before(i, j, nr, nc) && !locked[i][j]
      && Before(i2, j2, i, j) && SameUnit(i2, j2, i, j)
      ensures t[i2][j2].digit != t[i][j].digit
    {
      if i == row && j == column {
        assert !(InRange(i2, j2) && Before(i2, j2, row, column) && SameUnit(i2, j2, row, column) && s[i2][j2].digit == c.digit);
      }
    }
  }

  /** Placing at an unlocked cell a digit no later given of its units holds
      keeps every unlocked cell fitting the later givens. */
  lemma PlaceFitsLater(s: Scratch, givens: Grid, locked: seq<seq<bool>>, row: int, column: int, c: Cell)
    requires IsGrid(s) && IsGrid(givens) && IsGrid(locked) && InRange(row, column)
    requires OpenFitsLater(s, givens, locked, row, column)
    requires !GivenLater(givens, locked, row, column, c.digit)
    ensures OpenFitsLater(Put(s, row, column, c), givens, locked, Next(row, column).0, Next(row, column).1)
  {
    var t: Scratch := Put(s, row, column, c);
    var nr, nc := Next(row, column).0, Next(row, column).1;
    forall i, j, i2, j2 |
      InRange(i, j) && InRange(i2, j2) && Before(i, j, nr, nc) && !locked[i][j]
      && Before(i, j, i2, j2) && SameUnit(i2, j2, i, j) && locked[i2][j2]
      ensures givens[i2][j2] != t[i][j].digit
    {
      if i == row && j == column {
        assert !(InRange(i2, j2) && Before(row, column, i2, j2) && SameUnit(i2, j2, row, column) && locked[i2][j2] && givens[i2][j2] == c.digit);
      }
    }
  }

  /** An unlocked cell given a digit that no earlier cell and no later given
      of its units holds, having lost a candidate, then a step forward. */
  lemma PlaceStep(s: Scratch, givens: Grid, locked: seq<seq<bool>>, row: int, column: int, c: Cell)
    requires SolveInvariant(s, givens, locked, row, column) && row < 9 && !locked[row][column]
    requires c.Valid() && 1 <= c.digit <= 9
    requires !SeenEarlier(s, row, column, c.digit) && !GivenLater(givens, locked, row, column, c.digit)
    requires CountTrue(c.free) < CountTrue(s[row][column].free)
    ensures SolveInvariant(Put(s, row, column, c), givens, locked, Next(row, column).0, Next(row, column).1)
    ensures Progressed(s, locked, row, column, Put(s, row, column, c), Next(row, column).0, Next(row, column).1)
  {
    PlaceFitsEarlier(s, locked, row, column, c);
    PlaceFitsLater(s, givens, locked, row, column, c);
    WeightsForward(s, locked, row, column, c);
  }

  /** The cell under the pointer reset, and the pointer moved back to an
      earlier unlocked cell. */
  lemma BackStep(s: Scratch, givens: Grid, locked: seq<seq<bool>>, row: int, column: int, qr: int, qc: int)
    requires SolveInvariant(s, givens, locked, row, column) && row < 9
    requires InRange(qr, qc) && Before(qr, qc, row, column) && !locked[qr][qc]
    ensures SolveInvariant(Put(s, row, column, Fresh), givens, locked, qr, qc)
    ensures Progressed(s, locked, row, column, Put(s, row, column, Fresh), qr, qc)
  {
    WeightsBack(s, locked, row, column, Fresh, qr, qc);
  }

  /** Once the pointer has passed every cell, the scratch digits solve
      around the givens. */
  lemma FinishedSolves(s: Scratch, givens: Grid, locked: seq<seq<bool>>, g: Grid)
    requires SolveInvariant(s, givens, locked, 9, 0) && IsGrid(g)
    requires forall i, j :: InRange(i, j) ==> g[i][j] == s[i][j].digit
    ensures SolvesAround(g, givens, locked)
  {
    forall i, j, i2, j2 |
      InRange(i, j) && InRange(i2, j2) && !locked[i][j] && (i != i2 || j != j2) && SameUnit(i, j, i2, j2)
      ensures g[i][j] != g[i2][j2]
    {
      assert Before(i, j, 9, 0) && Before(i2, j2, 9, 0);
      if Before(i2, j2, i, j) {
        assert SameUnit(i2, j2, i, j);
      } else if !locked[i2][j2] {
        assert Before(i, j, i2, j2) && SameUnit(i, j, i2, j2);
      } else {
        assert Before(i, j, i2, j2) && SameUnit(i2, j2, i, j) && g[i2][j2] == givens[i2][j2];
      }
    }
  }

  // ---- no solution is passed over

  /** `d` is still a candidate of the scratch cell `c`. */
  predicate IsCandidate(c: Cell, d: int)
  {
    1 <= d <= 9 && |c.free| == 9 && c.free[d - 1]
  }

  /** `g` agrees with the scratch grid on every unlocked cell before `(row, column)`. */
  ghost predicate AgreesBefore(s: Scratch, locked: seq<seq<bool>>, g: Grid, row: int, column: int)
    requires IsGrid(s) && IsGrid(locked) && IsGrid(g)
  {
    forall i, j :: InRange(i, j) && Before(i, j, row, column) && !locked[i][j] ==> s[i][j].digit == g[i][j]
  }

  /** Every unlocked scratch cell after `(row, column)` is as `Cell()` made it. */
  ghost predicate UnvisitedAfter(s: Scratch, locked: seq<seq<bool>>, row: int, column: int)
    requires IsGrid(s) && IsGrid(locked)
  {
    forall i, j :: InRange(i, j) && Before(row, column, i, j) && !locked[i][j] ==> s[i][j] == Fresh
  }

  /** No solution has been passed over: for a solution `g` that agrees with
      the scratch grid on the unlocked cells before an unlocked cell `q` up
      to the pointer, `g`'s digit at `q` is still a candidate there, or is
      the digit `q` now holds (for `q` before the pointer). */
  ghost predicate NoneMissed(s: Scratch, givens: Grid, locked: seq<seq<bool>>, row: int, column: int)
    requires IsGrid(s) && IsGrid(givens) && IsGrid(locked)
  {
    forall g, i, j ::
      SolvesAround(g, givens, locked) && InRange(i, j) && !locked[i][j]
      && (Before(i, j, row, column) || (i == row && j == column)) && AgreesBefore(s, locked, g, i, j)
      ==> IsCandidate(s[i][j], g[i][j]) || (Before(i, j, row, column) && s[i][j].digit == g[i][j])
  }

  /** The search's second invariant, about the solutions it has not yet reached. */
  ghost predicate Searched(s: Scratch, givens: Grid, locked: seq<seq<bool>>, row: int, column: int)
    requires IsGrid(s) && IsGrid(givens) && IsGrid(locked)
  {
    UnvisitedAfter(s, locked, row, column) && NoneMissed(s, givens, locked, row, column)
  }

  /** The candidate passes never exclude the digit of a solution that agrees
      with the scratch grid on the unlocked cells before the current one. */
  lemma SolutionSurvives(s: Scratch, givens: Grid, locked: seq<seq<bool>>, row: int, column: int, g: Grid)
    requires SolveInvariant(s, givens, locked, row, column) && InRange(row, column) && !locked[row][column]
    requires SolvesAround(g, givens, locked) && AgreesBefore(s, locked, g, row, column)
    ensures !SeenEarlier(s, row, column, g[row][column]) && !GivenLater(givens, locked, row, column, g[row][column])
  {
    var d := g[row][column];
    forall i, j | InRange(i, j) && Before(i, j, row, column) && SameUnit(i, j, row, column)
      ensures s[i][j].digit != d
    {
      assert SameUnit(row, column, i, j) && (i != row || j != column);
      if locked[i][j] {
        assert s[i][j].digit == givens[i][j];
      }
    }
    forall i, j | InRange(i, j) && Before(row, column, i, j) && SameUnit(i, j, row, column) && locked[i][j]
      ensures givens[i][j] != d
    {
      assert SameUnit(row, column, i, j) && (i != row || j != column);
    }
  }

  /** Before the first step, every cell is fresh. */
  lemma SearchStarts(s: Scratch, givens: Grid, locked: seq<seq<bool>>)
    requires IsGrid(s) && IsGrid(givens) && IsGrid(locked)
    requires forall i, j :: InRange(i, j) ==> s[i][j] == Fresh
    ensures Searched(s, givens, locked, 0, 0)
  {
    forall g, i, j |
      SolvesAround(g, givens, locked) && InRange(i, j) && !locked[i][j]
      && (Before(i, j, 0, 0) || (i == 0 && j == 0)) && AgreesBefore(s, locked, g, i, j)
      ensures IsCandidate(s[i][j], g[i][j])
    {
      assert s[i][j] == Fresh;
    }
  }

  /** Passing a locked cell keeps the search invariant. */
  lemma SearchLocked(s: Scratch, givens: Grid, locked: seq<seq<bool>>, row: int, column: int)
    requires SolveInvariant(s, givens, locked, row, column) && Searched(s, givens, locked, row, column)
    requires row < 9 && locked[row][column]
    ensures Searched(Put(s, row, column, s[row][column].SetDigit(givens[row][column])), givens, locked, Next(row, column).0, Next(row, column).1)
  {
    var t := Put(s, row, column, s[row][column].SetDigit(givens[row][column]));
    var nr, nc := Next(row, column).0, Next(row, column).1;
    forall g, i, j |
      SolvesAround(g, givens, locked) && InRange(i, j) && !locked[i][j]
      && (Before(i, j, nr, nc) || (i == nr && j == nc)) && AgreesBefore(t, locked, g, i, j)
      ensures IsCandidate(t[i][j], g[i][j]) || (Before(i, j, nr, nc) && t[i][j].digit == g[i][j])
    {
      if Before(i, j, row, column) {
        assert AgreesBefore(s, locked, g, i, j);
      } else {
        assert t[i][j] == Fresh;
      }
    }
  }

  /** Placing a candidate that survived the passes keeps the search invariant. */
  lemma SearchPlaces(s: Scratch, givens: Grid, locked: seq<seq<bool>>, row: int, column: int, c1: Cell, c2: Cell)
    requires SolveInvariant(s, givens, locked, row, column) && Searched(s, givens, locked, row, column)
    requires row < 9 && !locked[row][column]
    requires c1.Valid() && forall k :: 0 <= k < 9 ==>
      (c1.free[k] <==> s[row][column].free[k] && !SeenEarlier(s, row, column, k + 1) && !GivenLater(givens, locked, row, column, k + 1))
    requires c2.Valid() && 1 <= c2.digit <= 9 && c2.free == c1.free[c2.digit - 1 := false]
    ensures Searched(Put(s, row, column, c2), givens, locked, Next(row, column).0, Next(row, column).1)
  {
    var t := Put(s, row, column, c2);
    var nr, nc := Next(row, column).0, Next(row, column).1;
    forall g, i, j |
      SolvesAround(g, givens, locked) && InRange(i, j) && !locked[i][j]
      && (Before(i, j, nr, nc) || (i == nr && j == nc)) && AgreesBefore(t, locked, g, i, j)
      ensures IsCandidate(t[i][j], g[i][j]) || (Before(i, j, nr, nc) && t[i][j].digit == g[i][j])
    {
      if i == row && j == column {
        assert AgreesBefore(s, locked, g, row, column);
        SolutionSurvives(s, givens, locked, row, column, g);
        assert IsCandidate(s[row][column], g[row][column]);
        assert c1.free[g[row][column] - 1];
      } else if Before(i, j, row, column) {
        assert AgreesBefore(s, locked, g, i, j);
      } else {
        assert t[i][j] == Fresh;
      }
    }
  }

  /** Resetting an exhausted cell and stepping back over locked cells keeps
      the search invariant. */
  lemma SearchBacks(s: Scratch, givens: Grid, locked: seq<seq<bool>>, row: int, column: int, c1: Cell, qr: int, qc: int)
    requires SolveInvariant(s, givens, locked, row, column) && Searched(s, givens, locked, row, column)
    requires row < 9 && !locked[row][column]
    requires c1.Valid() && forall k :: 0 <= k < 9 ==>
      (c1.free[k] <==> s[row][column].free[k] && !SeenEarlier(s, row, column, k + 1) && !GivenLater(givens, locked, row, column, k + 1))
    requires CountTrue(c1.free) == 0
    requires InRange(qr, qc) && Before(qr, qc, row, column) && !locked[qr][qc]
    requires forall i, j :: InRange(i, j) && Before(qr, qc, i, j) && Before(i, j, row, column) ==> locked[i][j]
    ensures Searched(Put(s, row, column, Fresh), givens, locked, qr, qc)
  {
    var t := Put(s, row, column, Fresh);
    forall g, i, j |
      SolvesAround(g, givens, locked) && InRange(i, j) && !locked[i][j]
      && (Before(i, j, qr, qc) || (i == qr && j == qc)) && AgreesBefore(t, locked, g, i, j)
      ensures IsCandidate(t[i][j], g[i][j]) || (Before(i, j, qr, qc) && t[i][j].digit == g[i][j])
    {
      assert AgreesBefore(s, locked, g, i, j);
      if i == qr && j == qc && !IsCandidate(s[i][j], g[i][j]) {
        assert s[qr][qc].digit == g[qr][qc];
        assert AgreesBefore(s, locked, g, row, column);
        SolutionSurvives(s, givens, locked, row, column, g);
        assert IsCandidate(s[row][column], g[row][column]);
        CountTrueExtremes(c1.free);
      }
    }
  }

  /** Exhausting the first unlocked cell means that there is no solution. */
  lemma SearchFails(s: Scratch, givens: Grid, locked: seq<seq<bool>>, row: int, column: int, c1: Cell)
    requires SolveInvariant(s, givens, locked, row, column) && Searched(s, givens, locked, row, column)
    requires row < 9 && !locked[row][column]
    requires c1.Valid() && forall k :: 0 <= k < 9 ==>
      (c1.free[k] <==> s[row][column].free[k] && !SeenEarlier(s, row, column, k + 1) && !GivenLater(givens, locked, row, column, k + 1))
    requires CountTrue(c1.free) == 0
    requires forall i, j :: InRange(i, j) && Before(i, j, row, column) ==> locked[i][j]
    ensures !exists g :: SolvesAround(g, givens, locked)
  {
    forall g | SolvesAround(g, givens, locked)
      ensures false
    {
      SolutionSurvives(s, givens, locked, row, column, g);
      assert IsCandidate(s[row][column], g[row][column]);
      CountTrueExtremes(c1.free);
    }
  }

  /** The six candidate passes of one unlocked cell, in the source's order
      (sudoku.cpp:305-359): earlier cells of the row and column, later
      givens of the row and column, earlier cells of the box, later givens
      of the box, the last with line 350 read as the board's digit rather
      than the scratch copy (see `ExcludeBoxAfterAsWritten` for the pass as
      written). The survivors are exactly the candidates held by no
      earlier cell and no later given of the cell's units. */
  method SolverCandidates(sdk: array2<Cell>, givens: Grid, locked: seq<seq<bool>>, row: int, column: int, cell: Cell) returns (c: Cell)
    requires Shaped(sdk) && InRange(row, column) && cell.Valid()
    requires IsGrid(givens) && IsGrid(locked) && GivensFilled(givens, locked)
    requires PlacedBefore(Snap(sdk), row, column)
    ensures c.Valid() && c.digit == cell.digit
    ensures forall k :: 0 <= k < 9 ==>
      (c.free[k] <==> cell.free[k] && !SeenEarlier(Snap(sdk), row, column, k + 1) && !GivenLater(givens, locked, row, column, k + 1))
  {
    var c1 := ExcludeRowBefore(sdk, row, column, cell);
    var c2 := ExcludeColumnBefore(sdk, row, column, c1);
    var c3 := ExcludeRowAfterGivens(givens, locked, row, column, c2);
    var c4 := ExcludeColumnAfterGivens(givens, locked, row, column, c3);
    var c5 := ExcludeBoxBefore(sdk, row, column, c4);
    c := ExcludeBoxAfterGivens(givens, locked, row, column, c5);
    forall k | 0 <= k < 9
      ensures c.free[k] <==> cell.free[k] && !SeenEarlier(Snap(sdk), row, column, k + 1) && !GivenLater(givens, locked, row, column, k + 1)
    {
      EarlierPassesCover(Snap(sdk), row, column, k + 1);
      LaterPassesCover(givens, locked, row, column, k + 1);
    }
  }

  /** The step back after a reset (sudoku.cpp:366-394): one cell back, then
      further back while the cell is locked. Falling off the front, `found`
      is false and every cell before `(row, column)` is locked; otherwise
      `(qr, qc)` is the nearest earlier unlocked cell. */
  method BackOverLocked(locked: seq<seq<bool>>, row: int, column: int) returns (found: bool, qr: int, qc: int)
    requires IsGrid(locked) && InRange(row, column)
    ensures found ==> InRange(qr, qc) && Before(qr, qc, row, column) && !locked[qr][qc]
    ensures found ==> forall i, j :: InRange(i, j) && Before(qr, qc, i, j) && Before(i, j, row, column) ==> locked[i][j]
    ensures !found ==> forall i, j :: InRange(i, j) && Before(i, j, row, column) ==> locked[i][j]
  {
    qr, qc := Prev(row, column).0, Prev(row, column).1;
    if qr < 0 {
      return false, qr, qc;
    }
    while locked[qr][qc]
      invariant InRange(qr, qc) && Before(qr, qc, row, column)
      invariant forall i, j :: InRange(i, j) && Before(qr, qc, i, j) && Before(i, j, row, column) ==> locked[i][j]
      decreases Pos(qr, qc)
    {
      qr, qc := Prev(qr, qc).0, Prev(qr, qc).1;
      if qr < 0 {
        return false, qr, qc;
      }
    }
    found := true;
  }

  /** The solver's search (sudoku.cpp:291-402). Locked cells are copied into
      the scratch grid and passed over; each unlocked cell takes a random
      surviving candidate. With none left the cell is reset and the pointer
      steps back over locked cells to the previous unlocked one; falling off
      the front is "there are no solutions", here `None`, which can only
      happen with some cell unlocked. A board whose every cell is locked
      comes back unchanged, whatever its givens. */
  method SolveSearch(givens: Grid, locked: seq<seq<bool>>, rand: nat -> nat, calls: nat) returns (r: Option<Grid>, next: nat)
    requires IsGrid(givens) && IsGrid(locked) && GivensFilled(givens, locked)
    ensures r.Some? ==> SolvesAround(r.value, givens, locked)
    ensures r.None? ==> exists i, j :: InRange(i, j) && !locked[i][j]
    ensures r.None? ==> !exists g :: SolvesAround(g, givens, locked)
    ensures (forall i, j :: InRange(i, j) ==> locked[i][j]) ==> r == Some(givens)
    ensures next >= calls
  {
    var sdk := new Cell[9, 9]((_, _) => Fresh);
    ghost var s := Snap(sdk);
    SearchStarts(s, givens, locked);
    next := calls;
    var row, column := 0, 0;
    while row < 9
      invariant SolveInvariant(s, givens, locked, row, column)
      invariant Searched(s, givens, locked, row, column)
      invariant s == Snap(sdk)
      invariant next >= calls
      decreases Measure(s, locked, Pos(row, column)), 81 - Pos(row, column)
    {
      if locked[row][column] {
        LockedStep(s, givens, locked, row, column);
        SearchLocked(s, givens, locked, row, column);
        Store(sdk, row, column, sdk[row, column].SetDigit(givens[row][column]));
        s := Put(s, row, column, s[row][column].SetDigit(givens[row][column]));
        row, column := Next(row, column).0, Next(row, column).1;
      } else {
        var c0 := sdk[row, column];
        var c1 := SolverCandidates(sdk, givens, locked, row, column, c0);
        var ok, c2 := GenerateDigit(c1, rand(next));
        if !ok {
          Store(sdk, row, column, sdk[row, column].Reset());
          var found, qr, qc := BackOverLocked(locked, row, column);
          if !found {
            SearchFails(s, givens, locked, row, column, c1);
            assert InRange(row, column) && !locked[row][column];
            return None, next;
          }
          SearchBacks(s, givens, locked, row, column, c1, qr, qc);
          BackStep(s, givens, locked, row, column, qr, qc);
          s := Put(s, row, column, Fresh);
          row, column := qr, qc;
        } else {
          next := next + 1;
          CountTrueMono(c0.free, c1.free);
          PlaceStep(s, givens, locked, row, column, c2);
          SearchPlaces(s, givens, locked, row, column, c1, c2);
          Store(sdk, row, column, c2);
          s := Put(s, row, column, c2);
          row, column := Next(row, column).0, Next(row, column).1;
        }
      }
    }
    r := Some(DigitsOf(sdk));
    FinishedSolves(s, givens, locked, r.value);
    if forall i, j :: InRange(i, j) ==> locked[i][j] {
      SameCellsSameGrid(r.value, givens);
    }
  }
}
