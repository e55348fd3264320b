/** Counting the set entries of a flag sequence: the candidate mask of a
    scratch cell and the `opened` marks of the generator are both counted
    this way. */
module Counting {

  /** Number of `true` entries of `s`. */
  function CountTrue(s: seq<bool>): (n: nat)
    ensures n <= |s|
  {
    if s == [] then 0 else CountTrue(s[..|s| - 1]) + (if s[|s| - 1] then 1 else 0)
  }

  /** Overwriting one entry changes the count by exactly what was lost and gained. */
  lemma {:induction false} CountTrueUpdate(s: seq<bool>, k: nat, b: bool)
    requires k < |s|
    ensures CountTrue(s[k := b]) == CountTrue(s) - (if s[k] then 1 else 0) + (if b then 1 else 0)
  {
    var n := |s| - 1;
    if k == n {
      assert s[k := b][..n] == s[..n];
    } else {
      assert s[k := b][..n] == s[..n][k := b];
      CountTrueUpdate(s[..n], k, b);
    }
  }

  /** Clearing entries never raises the count. */
  lemma {:induction false} CountTrueMono(s: seq<bool>, t: seq<bool>)
    requires |s| == |t|
    requires forall k :: 0 <= k < |t| && t[k] ==> s[k]
    ensures CountTrue(t) <= CountTrue(s)
  {
    if s != [] {
      CountTrueMono(s[..|s| - 1], t[..|t| - 1]);
    }
  }

  /** A count of zero means no entry is set; a full count means every entry is. */
  lemma {:induction false} CountTrueExtremes(s: seq<bool>)
    ensures CountTrue(s) == 0 <==> forall k :: 0 <= k < |s| ==> !s[k]
    ensures CountTrue(s) == |s| <==> forall k :: 0 <= k < |s| ==> s[k]
  {
    if s != [] {
      var n := |s| - 1;
      CountTrueExtremes(s[..n]);
      assert forall k :: 0 <= k < n ==> s[..n][k] == s[k];
    }
  }

  /** The count of the prefix `s[..i + 1]` in terms of the prefix `s[..i]`. */
  lemma CountTruePrefixStep(s: seq<bool>, i: nat)
    requires i < |s|
    ensures CountTrue(s[..i + 1]) == CountTrue(s[..i]) + (if s[i] then 1 else 0)
  {
    assert s[..i + 1][..i] == s[..i];
  }
}
