/** Totals of lists of counts. */
module Totals {
  function Total(counts: seq<nat>): (n: nat) {
    if counts == [] then 0 else Total(counts[..|counts| - 1]) + counts[|counts| - 1]
  }

  /** Changing one count changes the total by as much. */
  lemma {:induction false} TotalUpdated(counts: seq<nat>, i: nat, count: nat)
    requires i < |counts|
    ensures counts[i] <= Total(counts) && Total(counts[i := count]) + counts[i] == Total(counts) + count
  {
    var n := |counts| - 1;
    if i == n {
      assert counts[i := count][..n] == counts[..n];
    } else {
      assert counts[i := count][..n] == counts[..n][i := count];
      TotalUpdated(counts[..n], i, count);
    }
  }

  lemma TotalAppended(counts: seq<nat>, count: nat)
    ensures Total(counts + [count]) == Total(counts) + count
  {
    assert (counts + [count])[..|counts|] == counts;
  }

  lemma {:induction false} TotalOfZeros(counts: seq<nat>)
    requires forall i :: 0 <= i < |counts| ==> counts[i] == 0
    ensures Total(counts) == 0
  {
    if counts != [] { TotalOfZeros(counts[..|counts| - 1]); }
  }
}
