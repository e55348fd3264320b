/** Termination of the two backtracking searches. Each step of a search
    either moves the pointer forward without raising any cell's weight, or
    steps back and strictly lowers the weight of the cell it returns to,
    leaving every earlier cell's weight alone. The weights, read in scan
    order as the digits of a base-11 number, therefore give a measure that
    never grows and falls on every step back. */
module Progress {
  import opened Counting
  import opened Geometry
  import opened ScratchCell
  import opened Candidates

  /** The scan-order position of `(row, column)`, 0..80. */
  function Pos(row: int, column: int): int
  {
    row * 9 + column
  }

  /** The scan-order successor of `(row, column)`, the source's
      `column += 1`, then `row += 1` when the inner loop ends. */
  function Next(row: int, column: int): (int, int)
  {
    if column == 8 then (row + 1, 0) else (row, column + 1)
  }

  /** The scan-order predecessor, as the source steps back on failure. */
  function Prev(row: int, column: int): (int, int)
  {
    if column == 0 then (row - 1, 8) else (row, column - 1)
  }

  lemma PosCoordinates(q: int, row: int, column: int)
    requires 0 <= q < 81 && InRange(row, column)
    ensures InRange(q / 9, q % 9) && Pos(q / 9, q % 9) == q
    ensures Before(q / 9, q % 9, row, column) <==> q < Pos(row, column)
    ensures (q / 9 == row && q % 9 == column) <==> q == Pos(row, column)
  {
  }

  /** The weight of the cell at scan position `q`: a locked cell weighs 0;
      an unlocked cell weighs one more than its candidate count once the
      pointer `p` has passed it, its candidate count while the pointer is on
      it, and 10 while the pointer has not reached it. */
  function Weight(s: Scratch, locked: seq<seq<bool>>, p: int, q: int): (w: nat)
    requires IsGrid(s) && IsGrid(locked) && 0 <= q < 81
    ensures w <= 10
  {
    if locked[q / 9][q % 9] then 0
    else if q < p then Cap(CountTrue(s[q / 9][q % 9].free)) + 1
    else if q == p then Cap(CountTrue(s[q / 9][q % 9].free))
    else 10
  }

  function Cap(n: nat): (m: nat)
    ensures m <= 9 && (n <= 9 ==> m == n)
  {
    if n <= 9 then n else 9
  }

  /** The weights of the first `n` positions read as a base-11 numeral,
      most significant first. */
  function Rank(s: Scratch, locked: seq<seq<bool>>, p: int, n: nat): nat
    requires IsGrid(s) && IsGrid(locked) && n <= 81
  {
    if n == 0 then 0 else Rank(s, locked, p, n - 1) * 11 + Weight(s, locked, p, n - 1)
  }

  /** The termination measure of both searches, the pointer being at `p`. */
  function Measure(s: Scratch, locked: seq<seq<bool>>, p: int): nat
    requires IsGrid(s) && IsGrid(locked)
  {
    Rank(s, locked, p, 81)
  }

  /** Lowering weights never raises the numeral. */
  lemma {:induction false} RankMono(s: Scratch, p: int, t: Scratch, p2: int, locked: seq<seq<bool>>, n: nat)
    requires IsGrid(s) && IsGrid(t) && IsGrid(locked) && n <= 81
    requires forall q :: 0 <= q < n ==> Weight(t, locked, p2, q) <= Weight(s, locked, p, q)
    ensures Rank(t, locked, p2, n) <= Rank(s, locked, p, n)
  {
    if n > 0 {
      RankMono(s, p, t, p2, locked, n - 1);
    }
  }

  /** A smaller weight at position `k` after equal weights before it gives a
      smaller numeral, whatever follows, since no weight exceeds 10. */
  lemma {:induction false} RankLess(s: Scratch, p: int, t: Scratch, p2: int, locked: seq<seq<bool>>, n: nat, k: nat)
    requires IsGrid(s) && IsGrid(t) && IsGrid(locked) && k < n <= 81
    requires forall q :: 0 <= q < k ==> Weight(t, locked, p2, q) == Weight(s, locked, p, q)
    requires Weight(t, locked, p2, k) < Weight(s, locked, p, k)
    ensures Rank(t, locked, p2, n) < Rank(s, locked, p, n)
  {
    var a, b := Rank(t, locked, p2, n - 1), Rank(s, locked, p, n - 1);
    if k == n - 1 {
      RankMono(s, p, t, p2, locked, n - 1);
      RankMono(t, p2, s, p, locked, n - 1);
    } else {
      RankLess(s, p, t, p2, locked, n - 1, k);
      assert a * 11 + 10 < b * 11;
    }
  }

  /** A step forward: the cell under the pointer is placed (a locked one
      keeps weight 0; an unlocked one must have lost a candidate) and the
      pointer moves to the next cell. No weight grows. */
  lemma WeightsForward(s: Scratch, locked: seq<seq<bool>>, row: int, column: int, c: Cell)
    requires IsGrid(s) && IsGrid(locked) && InRange(row, column)
    requires locked[row][column] || Cap(CountTrue(c.free)) + 1 <= Cap(CountTrue(s[row][column].free))
    ensures Measure(Put(s, row, column, c), locked, Pos(row, column) + 1) <= Measure(s, locked, Pos(row, column))
  {
    var t := Put(s, row, column, c);
    forall q | 0 <= q < 81
      ensures Weight(t, locked, Pos(row, column) + 1, q) <= Weight(s, locked, Pos(row, column), q)
    {
      PosCoordinates(q, row, column);
    }
    RankMono(s, Pos(row, column), t, Pos(row, column) + 1, locked, 81);
  }

  /** A step back: the cell under the pointer is replaced by `c` and the
      pointer returns to the earlier unlocked cell `(qr, qc)`, which goes
      from placed to current. The measure falls. */
  lemma WeightsBack(s: Scratch, locked: seq<seq<bool>>, row: int, column: int, c: Cell, qr: int, qc: int)
    requires IsGrid(s) && IsGrid(locked) && InRange(row, column) && InRange(qr, qc)
    requires Before(qr, qc, row, column) && !locked[qr][qc]
    ensures Measure(Put(s, row, column, c), locked, Pos(qr, qc)) < Measure(s, locked, Pos(row, column))
  {
    var t := Put(s, row, column, c);
    forall q | 0 <= q <= Pos(qr, qc)
      ensures q < Pos(qr, qc) ==> Weight(t, locked, Pos(qr, qc), q) == Weight(s, locked, Pos(row, column), q)
      ensures q == Pos(qr, qc) ==> Weight(t, locked, Pos(qr, qc), q) < Weight(s, locked, Pos(row, column), q)
    {
      PosCoordinates(q, row, column);
      PosCoordinates(q, qr, qc);
    }
    RankLess(s, Pos(row, column), t, Pos(qr, qc), locked, 81, Pos(qr, qc));
  }

  /** One step of a search, from pointer `(row, column)` over scratch `s`
      to pointer `(nr, nc)` over scratch `t`, lowers the measure, or keeps
      it and moves the pointer forward. */
  ghost predicate Progressed(s: Scratch, locked: seq<seq<bool>>, row: int, column: int, t: Scratch, nr: int, nc: int)
    requires IsGrid(s) && IsGrid(t) && IsGrid(locked)
  {
    Measure(t, locked, Pos(nr, nc)) < Measure(s, locked, Pos(row, column))
    || (Measure(t, locked, Pos(nr, nc)) == Measure(s, locked, Pos(row, column)) && Pos(row, column) < Pos(nr, nc))
  }

  /** The generator's search is the solver's with no cell locked. */
  const NoneLocked: seq<seq<bool>> := [NoLocks, NoLocks, NoLocks, NoLocks, NoLocks, NoLocks, NoLocks, NoLocks, NoLocks]
}
