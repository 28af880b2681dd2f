/** Sorted rearrangements, of which the C library's qsort returns some one, and runs of equal keys in them. */
module Sorting {
  ghost predicate TotalOrder<T(!new)>(leq: (T, T) -> bool) {
    (forall x, y :: leq(x, y) || leq(y, x)) && (forall x, y, z :: leq(x, y) && leq(y, z) ==> leq(x, z))
  }

  ghost predicate SortedBy<T>(xs: seq<T>, leq: (T, T) -> bool) {
    forall i, j :: 0 <= i < j < |xs| ==> leq(xs[i], xs[j])
  }

  /** Any rearrangement that the comparison accepts: ties may fall either way. */
  ghost predicate IsSortOf<T>(ys: seq<T>, xs: seq<T>, leq: (T, T) -> bool) {
    SortedBy(ys, leq) && multiset(ys) == multiset(xs)
  }

  /** Where an element goes among sorted ones. */
  method Place<T(!new)>(xs: seq<T>, x: T, leq: (T, T) -> bool) returns (ys: seq<T>)
    requires TotalOrder(leq) && SortedBy(xs, leq)
    ensures SortedBy(ys, leq) && multiset(ys) == multiset(xs) + multiset{x}
  {
    var i := |xs|;
    while i > 0 && !leq(xs[i - 1], x)
      invariant 0 <= i <= |xs|
      invariant forall k :: i <= k < |xs| ==> leq(x, xs[k])
    {
      i := i - 1;
    }
    assert i > 0 ==> leq(xs[i - 1], x);
    assert forall k :: 0 <= k < i ==> leq(xs[k], x);
    ys := xs[..i] + [x] + xs[i..];
    InsertedIsSorted(xs, i, x, leq);
    InsertedElements(xs, i, x);
  }

  lemma InsertedIsSorted<T>(xs: seq<T>, i: nat, x: T, leq: (T, T) -> bool)
    requires i <= |xs| && SortedBy(xs, leq)
    requires (forall k :: 0 <= k < i ==> leq(xs[k], x)) && (forall k :: i <= k < |xs| ==> leq(x, xs[k]))
    ensures SortedBy(xs[..i] + [x] + xs[i..], leq)
  {
    var ys := xs[..i] + [x] + xs[i..];
    forall a, b | 0 <= a < b < |ys| ensures leq(ys[a], ys[b]) {
      var p, q := if a < i then a else a - 1, if b < i then b else b - 1;
      assert a != i ==> ys[a] == xs[p];
      assert b != i ==> ys[b] == xs[q];
    }
  }

  lemma InsertedElements<T>(xs: seq<T>, i: nat, x: T)
    requires i <= |xs|
    ensures multiset(xs[..i] + [x] + xs[i..]) == multiset(xs) + multiset{x}
  {
    assert multiset(xs[..i] + [x] + xs[i..]) == multiset(xs[..i]) + multiset{x} + multiset(xs[i..]);
    assert xs == xs[..i] + xs[i..];
  }

  /** Stands for qsort: callers rely on its contract alone. */
  method Sort<T(!new)>(xs: seq<T>, leq: (T, T) -> bool) returns (ys: seq<T>)
    requires TotalOrder(leq)
    ensures IsSortOf(ys, xs, leq)
  {
    ys := [];
    var i := 0;
    while i < |xs|
      invariant 0 <= i <= |xs| && SortedBy(ys, leq) && multiset(ys) == multiset(xs[..i])
    {
      ys := Place(ys, xs[i], leq);
      assert xs[..i + 1] == xs[..i] + [xs[i]];
      i := i + 1;
    }
    assert xs[..i] == xs;
  }

  // ----- Runs of equal keys -----------------------------------------------------------------------

  ghost predicate Ascending(keys: seq<nat>) {
    forall i, j :: 0 <= i < j < |keys| ==> keys[i] <= keys[j]
  }

  /** A stretch of equal keys that cannot be extended to either side. */
  ghost predicate Run(keys: seq<nat>, i: nat, j: nat) {
    && i < j <= |keys| && (forall k :: i <= k < j ==> keys[k] == keys[i])
    && (i > 0 ==> keys[i - 1] != keys[i]) && (j < |keys| ==> keys[j] != keys[i])
  }

  lemma {:induction false} CountAbsent(keys: seq<nat>, k: nat)
    requires forall i :: 0 <= i < |keys| ==> keys[i] != k
    ensures multiset(keys)[k] == 0
  {
  }

  lemma {:induction false} CountConstant(keys: seq<nat>, k: nat)
    requires forall i :: 0 <= i < |keys| ==> keys[i] == k
    ensures multiset(keys)[k] == |keys|
  {
    if keys != [] {
      assert keys == keys[..|keys| - 1] + [keys[|keys| - 1]];
      CountConstant(keys[..|keys| - 1], k);
    }
  }

  /** In ascending keys, a run holds every occurrence of its key. */
  lemma RunCountsKey(keys: seq<nat>, i: nat, j: nat)
    requires Ascending(keys) && Run(keys, i, j)
    ensures multiset(keys)[keys[i]] == j - i
    ensures forall k :: 0 <= k < |keys| && keys[k] == keys[i] ==> i <= k < j
  {
    if i > 0 { assert keys[i - 1] < keys[i]; }
    if j < |keys| { assert keys[j] > keys[i]; }
    assert forall k :: 0 <= k < i ==> keys[k] <= keys[i - 1];
    assert forall k :: j < k < |keys| ==> keys[k] >= keys[j];
    CountOutside(keys, i, j, keys[i]);
  }

  lemma CountOutside(keys: seq<nat>, i: nat, j: nat, key: nat)
    requires i <= j <= |keys|
    requires forall k :: 0 <= k < |keys| ==> (keys[k] == key <==> i <= k < j)
    ensures multiset(keys)[key] == j - i
  {
    var a, b, c := keys[..i], keys[i..j], keys[j..];
    CountAbsent(a, key);
    CountConstant(b, key);
    CountAbsent(c, key);
    assert keys == a + b + c;
    assert multiset(a + b + c) == multiset(a) + multiset(b) + multiset(c);
  }

  /** The end of the run that starts at i. */
  method RunEnd(keys: seq<nat>, i: nat) returns (j: nat)
    requires Ascending(keys) && i < |keys| && (i > 0 ==> keys[i - 1] != keys[i])
    ensures Run(keys, i, j)
  {
    j := i + 1;
    while j < |keys| && keys[j] == keys[i]
      invariant i < j <= |keys| && forall k :: i <= k < j ==> keys[k] == keys[i]
    {
      j := j + 1;
    }
  }
}
