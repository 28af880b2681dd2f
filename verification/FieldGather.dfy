/** Gathering field tuples by id: sort the source ids, then find each target id by bisection. */
module FieldGather {
  import opened Sorting

  datatype Entry = Entry(id: nat, tuple: nat)

  /** What to do with a target id that no source carries: report it, or put a default tuple in its place. */
  datatype Policy<T> = Strict | Fill(tuple: T)

  datatype Outcome<T> = Gathered(values: seq<T>, mask: seq<nat>) | InvalidArgument | NotFound

  ghost predicate NonNegative(ids: seq<int>) {
    forall k :: 0 <= k < |ids| ==> ids[k] >= 0
  }

  ghost predicate Unique(ids: seq<int>) {
    forall i, j :: 0 <= i < j < |ids| ==> ids[i] != ids[j]
  }

  /** Sources the gather accepts: one tuple for each id, ids neither negative nor repeated. */
  ghost predicate Usable<T>(values: seq<T>, ids: seq<int>) {
    |values| == |ids| && NonNegative(ids) && Unique(ids)
  }

  /** The target at k carries the tuple of its id, or the default when no source has that id. */
  ghost predicate Right<T>(values: seq<T>, ids: seq<int>, target: int, policy: Policy<T>, value: T, mask: nat)
    requires |values| == |ids|
  {
    && (forall i :: 0 <= i < |ids| && ids[i] == target ==> value == values[i])
    && (target in ids ==> mask == 1)
    && (target !in ids ==> mask == 0 && policy == Fill(value))
  }

  /** Every target is right. */
  ghost predicate Gathers<T>(values: seq<T>, ids: seq<int>, targets: seq<int>, policy: Policy<T>,
                             r: seq<T>, mask: seq<nat>)
    requires |values| == |ids|
  {
    |r| == |mask| == |targets| && forall k :: 0 <= k < |targets| ==> Right(values, ids, targets[k], policy, r[k], mask[k])
  }

  /** The first target that cannot be served is one whose id is missing, rather than one that is negative. */
  ghost predicate MissingFirst(ids: seq<int>, targets: seq<int>) {
    exists k :: 0 <= k < |targets| && targets[k] !in ids && NonNegative(targets[..k + 1])
  }

  // ----- The sorted table ---------------------------------------------------------------------------

  ghost predicate ById(entries: seq<Entry>) {
    forall i, j :: 0 <= i < j < |entries| ==> entries[i].id <= entries[j].id
  }

  /** The entries list each source once, in some order. */
  ghost predicate Lists(entries: seq<Entry>, ids: seq<int>) {
    && (forall e <- entries :: e.tuple < |ids| && ids[e.tuple] == e.id)
    && (forall i :: 0 <= i < |ids| ==> ids[i] >= 0 && Entry(ids[i], i) in entries)
  }

  /** Reads the source ids, failing at the first negative one. */
  method ReadEntries(ids: seq<int>) returns (ok: bool, entries: seq<Entry>)
    ensures ok <==> NonNegative(ids)
    ensures ok ==> |entries| == |ids| && forall i :: 0 <= i < |ids| ==> ids[i] >= 0 && entries[i] == Entry(ids[i], i)
  {
    entries := [];
    while |entries| < |ids|
      invariant |entries| <= |ids|
      invariant forall i :: 0 <= i < |entries| ==> ids[i] >= 0 && entries[i] == Entry(ids[i], i)
    {
      if ids[|entries|] < 0 { return false, entries; }
      entries := entries + [Entry(ids[|entries|], |entries|)];
    }
    ok := true;
  }

  lemma SortedLists(entries: seq<Entry>, sorted: seq<Entry>, ids: seq<int>)
    requires multiset(sorted) == multiset(entries) && |entries| == |ids|
    requires forall i :: 0 <= i < |ids| ==> ids[i] >= 0 && entries[i] == Entry(ids[i], i)
    ensures Lists(sorted, ids) && |sorted| == |ids|
  {
    assert |sorted| == |multiset(sorted)| == |multiset(entries)| == |entries|;
    forall e | e in sorted ensures e.tuple < |ids| && ids[e.tuple] == e.id {
      assert e in multiset(entries);
    }
    forall i | 0 <= i < |ids| ensures Entry(ids[i], i) in sorted {
      assert entries[i] in multiset(sorted);
    }
  }

  /** Two sources share an id exactly when two neighbours in the sorted table do. */
  lemma {:induction false} RepeatsAreAdjacent(entries: seq<Entry>, sorted: seq<Entry>, ids: seq<int>)
    requires multiset(sorted) == multiset(entries) && |entries| == |ids| && ById(sorted)
    requires forall i :: 0 <= i < |ids| ==> ids[i] >= 0 && entries[i] == Entry(ids[i], i)
    ensures Unique(ids) <==> forall t :: 0 < t < |sorted| ==> sorted[t - 1].id != sorted[t].id
  {
    SortedLists(entries, sorted, ids);
    if Unique(ids) {
      forall t | 0 < t < |sorted| ensures sorted[t - 1].id != sorted[t].id {
        EntriesAreDistinct(entries, sorted, t - 1, t);
      }
    }
    if forall t :: 0 < t < |sorted| ==> sorted[t - 1].id != sorted[t].id {
      AscendingStrictly(sorted);
      forall i, j | 0 <= i < j < |ids| ensures ids[i] != ids[j] {
        var p :| 0 <= p < |sorted| && sorted[p] == Entry(ids[i], i);
        var q :| 0 <= q < |sorted| && sorted[q] == Entry(ids[j], j);
      }
    }
  }

  lemma {:induction false} AscendingStrictly(sorted: seq<Entry>)
    requires ById(sorted) && forall t :: 0 < t < |sorted| ==> sorted[t - 1].id != sorted[t].id
    ensures forall p, q :: 0 <= p < q < |sorted| ==> sorted[p].id < sorted[q].id
  {
    forall p, q | 0 <= p < q < |sorted| ensures sorted[p].id < sorted[q].id {
      assert p < q - 1 ==> sorted[p].id <= sorted[q - 1].id;
      assert sorted[q - 1].id != sorted[q].id;
    }
  }

  /** An entry that fixes its own place is listed at most once. */
  lemma {:induction false} ListedOnce(entries: seq<Entry>, e: Entry)
    requires forall i :: 0 <= i < |entries| ==> entries[i].tuple == i
    ensures multiset(entries)[e] <= 1
  {
    if entries != [] {
      var n := |entries| - 1;
      assert entries == entries[..n] + [entries[n]];
      if e == entries[n] {
        assert e !in entries[..n];
        assert multiset(entries[..n])[e] == 0;
      } else {
        ListedOnce(entries[..n], e);
      }
    }
  }

  lemma {:induction false} RepeatedTwice(sorted: seq<Entry>, a: nat, b: nat)
    requires a < b < |sorted| && sorted[a] == sorted[b]
    ensures multiset(sorted)[sorted[a]] >= 2
  {
    var e := sorted[a];
    assert sorted == sorted[..b] + [e] + sorted[b + 1..];
    assert e == sorted[..b][a];
    assert e in multiset(sorted[..b]);
  }

  /** A rearrangement of entries with distinct tuple numbers repeats none of them. */
  lemma {:induction false} EntriesAreDistinct(entries: seq<Entry>, sorted: seq<Entry>, a: nat, b: nat)
    requires multiset(sorted) == multiset(entries) && a < b < |sorted|
    requires forall i :: 0 <= i < |entries| ==> entries[i].tuple == i
    ensures sorted[a] != sorted[b]
  {
    ListedOnce(entries, sorted[a]);
    if sorted[a] == sorted[b] { RepeatedTwice(sorted, a, b); }
  }

  /** Bisection for the first entry whose id is not below the wanted one. */
  method FindId(entries: seq<Entry>, id: nat) returns (at: nat, found: bool)
    requires ById(entries)
    ensures found ==> at < |entries| && entries[at].id == id
    ensures !found ==> forall e <- entries :: e.id != id
  {
    var first, last := 0, |entries|;
    while first < last
      invariant 0 <= first <= last <= |entries|
      invariant forall k :: 0 <= k < first ==> entries[k].id < id
      invariant forall k :: last <= k < |entries| ==> entries[k].id >= id
    {
      var middle := first + (last - first) / 2;
      if entries[middle].id < id {
        first := middle + 1;
      } else {
        last := middle;
      }
    }
    at, found := first, first < |entries| && entries[first].id == id;
  }

  /** One served target is right. */
  lemma ServedIsRight<T>(values: seq<T>, ids: seq<int>, entries: seq<Entry>, target: nat, at: nat, policy: Policy<T>)
    requires Usable(values, ids) && Lists(entries, ids) && at < |entries| && entries[at].id == target
    ensures entries[at].tuple < |values| && Right(values, ids, target, policy, values[entries[at].tuple], 1)
  {
    assert entries[at] in entries;
  }

  lemma AbsentIsMissing(ids: seq<int>, entries: seq<Entry>, target: nat)
    requires Lists(entries, ids) && forall e <- entries :: e.id != target
    ensures target !in ids
  {
    forall i | 0 <= i < |ids| ensures ids[i] != target {
      var e := Entry(ids[i], i);
      assert e in entries;
    }
  }

  // ----- The gather ---------------------------------------------------------------------------------

  /**
   * Succeeds exactly when the sources are usable, no target is negative and, under the strict policy, no target is
   * missing; every target then carries its own id's tuple, or the default with a zero in the mask.
   */
  method Gather<T>(values: seq<T>, ids: seq<int>, targets: seq<int>, policy: Policy<T>) returns (r: Outcome<T>)
    ensures r.Gathered? <==>
            Usable(values, ids) && NonNegative(targets) && (policy.Strict? ==> forall t <- targets :: t in ids)
    ensures r.NotFound? <==> Usable(values, ids) && policy.Strict? && MissingFirst(ids, targets)
    ensures r.Gathered? ==> Gathers(values, ids, targets, policy, r.values, r.mask)
  {
    if |values| != |ids| { return InvalidArgument; }
    var ok, read := ReadEntries(ids);
    if !ok { return InvalidArgument; }
    var entries := Sort(read, (a: Entry, b: Entry) => a.id <= b.id);
    SortedLists(read, entries, ids);
    RepeatsAreAdjacent(read, entries, ids);
    var t := 1;
    while t < |entries|
      invariant 1 <= t && (|entries| > 0 ==> t <= |entries|)
      invariant forall k :: 0 < k < t && k < |entries| ==> entries[k - 1].id != entries[k].id
    {
      if entries[t - 1].id == entries[t].id { return InvalidArgument; }
      t := t + 1;
    }
    assert Usable(values, ids);
    r := Serve(values, ids, entries, targets, policy);
  }

  /** After a negative target whose predecessors all have sources, no missing target counts as the first. */
  lemma NegativeComesFirst(ids: seq<int>, targets: seq<int>, k: nat)
    requires k < |targets| && targets[k] < 0
    requires forall j :: 0 <= j < k ==> targets[j] >= 0
    ensures !NonNegative(targets)
    ensures (forall j :: 0 <= j < k ==> targets[j] in ids) ==> !MissingFirst(ids, targets)
  {
    if forall j :: 0 <= j < k ==> targets[j] in ids {
      forall m | 0 <= m < |targets| && targets[m] !in ids ensures !NonNegative(targets[..m + 1]) {
        assert m >= k && targets[..m + 1][k] == targets[k];
      }
    }
  }

  /** The loop over the targets. */
  method Serve<T>(values: seq<T>, ids: seq<int>, entries: seq<Entry>, targets: seq<int>, policy: Policy<T>)
    returns (r: Outcome<T>)
    requires Usable(values, ids) && ById(entries) && Lists(entries, ids)
    ensures r.Gathered? <==> NonNegative(targets) && (policy.Strict? ==> forall t <- targets :: t in ids)
    ensures r.NotFound? <==> policy.Strict? && MissingFirst(ids, targets)
    ensures r.Gathered? ==> Gathers(values, ids, targets, policy, r.values, r.mask)
  {
    var out, mask := [], [];
    while |out| < |targets|
      invariant |out| == |mask| <= |targets|
      invariant forall k :: 0 <= k < |out| ==> targets[k] >= 0 && Right(values, ids, targets[k], policy, out[k], mask[k])
    {
      var k := |out|;
      if targets[k] < 0 {
        NegativeComesFirst(ids, targets, k);
        return InvalidArgument;
      }
      var at, found := FindId(entries, targets[k]);
      if found {
        ServedIsRight(values, ids, entries, targets[k], at, policy);
        out, mask := out + [values[entries[at].tuple]], mask + [1];
      } else {
        AbsentIsMissing(ids, entries, targets[k]);
        match policy
        case Strict =>
          assert targets[k] in targets;
          assert targets[..k + 1] == targets[..k] + [targets[k]];
          return NotFound;
        case Fill(tuple) =>
          out, mask := out + [tuple], mask + [0];
      }
    }
    r := Gathered(out, mask);
  }

  // ----- What gathering means -----------------------------------------------------------------------

  /** The result depends only on which id carries which tuple, so neither source order nor tie-breaking shows. */
  lemma SourceOrderDoesNotShow<T>(values: seq<T>, ids: seq<int>, values': seq<T>, ids': seq<int>, targets: seq<int>,
                                  policy: Policy<T>, r: seq<T>, mask: seq<nat>, r': seq<T>, mask': seq<nat>)
    requires Usable(values, ids) && Usable(values', ids')
    requires forall i :: 0 <= i < |ids| ==> exists j :: 0 <= j < |ids'| && ids'[j] == ids[i] && values'[j] == values[i]
    requires forall j :: 0 <= j < |ids'| ==> ids'[j] in ids
    requires Gathers(values, ids, targets, policy, r, mask) && Gathers(values', ids', targets, policy, r', mask')
    ensures r == r' && mask == mask'
  {
    forall k | 0 <= k < |targets| ensures r[k] == r'[k] && mask[k] == mask'[k] {
      assert Right(values, ids, targets[k], policy, r[k], mask[k]);
      assert Right(values', ids', targets[k], policy, r'[k], mask'[k]);
      if targets[k] in ids {
        var i :| 0 <= i < |ids| && ids[i] == targets[k];
        var j :| 0 <= j < |ids'| && ids'[j] == ids[i] && values'[j] == values[i];
      }
    }
  }

  /** Gathering out to new places and gathering back returns every source tuple that some target asked for. */
  lemma GatherBack<T>(values: seq<T>, ids: seq<int>, targets: seq<int>, policy: Policy<T>, r: seq<T>, mask: seq<nat>,
                      back: seq<T>, backMask: seq<nat>)
    requires Usable(values, ids) && Unique(targets) && Gathers(values, ids, targets, policy, r, mask)
    requires Gathers(r, targets, ids, policy, back, backMask)
    ensures forall i :: 0 <= i < |ids| && ids[i] in targets ==> back[i] == values[i]
    ensures (forall id <- ids :: id in targets) ==> back == values
  {
    forall i | 0 <= i < |ids| && ids[i] in targets ensures back[i] == values[i] {
      var k :| 0 <= k < |targets| && targets[k] == ids[i];
      assert Right(values, ids, targets[k], policy, r[k], mask[k]);
      assert Right(r, targets, ids[i], policy, back[i], backMask[i]);
    }
  }
}
