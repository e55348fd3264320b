/** The scratch cell used while generating and solving (class `Cell` of
    sudoku.cpp). In the source it is a value type stored inline in the local
    grid `Cell sdk[9][9]`; here it is a datatype, and each member that
    mutates it yields the updated value that is stored back into its slot. */
module ScratchCell {
  import opened Counting

  /** `free[k]` says that digit `k + 1` is still a candidate; `digit` 0 means empty. */
  datatype Cell = Cell(free: seq<bool>, digit: int)
  {
    predicate Valid()
    {
      |free| == 9 && 0 <= digit <= 9
    }

    /** `Cell::Reset`: every digit becomes a candidate again and the cell is emptied. */
    function Reset(): (c: Cell)
      ensures c.Valid() && c.digit == 0 && c == Fresh
      ensures forall k :: 0 <= k < 9 ==> c.free[k]
      ensures CountTrue(c.free) == 9
    {
      CountTrueExtremes(Fresh.free);
      Fresh
    }

    /** `Cell::RemoveFD`: the candidate `d` is dropped. The source writes
        `_free_digits[d - 1]`, so `d` must be a digit 1..9. */
    function RemoveFD(d: int): (c: Cell)
      requires Valid()
      requires 1 <= d <= 9
      ensures c.Valid() && c.digit == digit
      ensures !c.free[d - 1]
      ensures forall k :: 0 <= k < 9 && k != d - 1 ==> c.free[k] == free[k]
      ensures CountTrue(c.free) == CountTrue(free) - (if free[d - 1] then 1 else 0)
    {
      CountTrueUpdate(free, d - 1, false);
      Cell(free[d - 1 := false], digit)
    }

    /** `Cell::SetDigit`: only the digit changes; the candidates stay. */
    function SetDigit(d: int): (c: Cell)
      requires Valid()
      requires 0 <= d <= 9
      ensures c.Valid() && c.digit == d && c.free == free
    {
      this.(digit := d)
    }
  }

  /** What `Cell()` constructs: empty, all nine digits candidates. */
  const Fresh: Cell := Cell([true, true, true, true, true, true, true, true, true], 0)

  /** `Cell::GenerateDigit`: count the candidates; with none left, report
      failure and change nothing; otherwise take the `(r % count)`-th
      remaining candidate (0-based, in increasing order), make it the digit
      and drop it from the candidates. `r` stands for the value of `rand()`,
      which the source draws only when a candidate remains. */
  method GenerateDigit(cell: Cell, r: nat) returns (ok: bool, c: Cell)
    requires cell.Valid()
    ensures ok <==> CountTrue(cell.free) > 0
    ensures !ok ==> c == cell
    ensures ok ==> c.Valid() && 1 <= c.digit <= 9 && cell.free[c.digit - 1]
    ensures ok ==> CountTrue(cell.free[..c.digit - 1]) == r % CountTrue(cell.free)
    ensures ok ==> c.free == cell.free[c.digit - 1 := false]
    ensures ok ==> CountTrue(c.free) == CountTrue(cell.free) - 1
  {
    var free := cell.free;
    var fdCount := 0;
    var i := 0;
    while i < 9
      invariant 0 <= i <= 9
      invariant fdCount == CountTrue(free[..i])
    {
      CountTruePrefixStep(free, i);
      fdCount := fdCount + if free[i] then 1 else 0;
      i := i + 1;
    }
    assert free[..9] == free;
    if fdCount == 0 {
      return false, cell;
    }

    var tmp := r % fdCount;
    var trueNum := 0;
    while true
      invariant 0 <= trueNum < 9
      invariant 0 <= tmp && tmp + CountTrue(free[..trueNum]) == r % fdCount
      decreases 9 - trueNum
    {
      CountTruePrefixStep(free, trueNum);
      if free[trueNum] {
        if tmp == 0 {
          break;
        }
        tmp := tmp - 1;
      }
      if trueNum == 8 {
        assert free[..9] == free;
      }
      trueNum := trueNum + 1;
    }

    c := Cell(free[trueNum := false], trueNum + 1);
    CountTrueUpdate(free, trueNum, false);
    ok := true;
  }
}
