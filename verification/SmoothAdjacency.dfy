/** Point adjacency of a triangle list by counting sort, and the points on its boundary. */
module SmoothAdjacency {
  import opened Geometry
  import opened Chains
  import opened EdgeKeys
  import opened Sorting

  type Triangle = Tri<nat>

  // ----- Who neighbours whom ----------------------------------------------------------------------

  /** One corner of a triangle seen from another. */
  datatype Arc = Arc(from: nat, to: nat)

  function ArcsOf(t: Triangle): (r: seq<Arc>) {
    [Arc(t.a, t.b), Arc(t.a, t.c), Arc(t.b, t.a), Arc(t.b, t.c), Arc(t.c, t.a), Arc(t.c, t.b)]
  }

  function Arcs(ts: seq<Triangle>): (r: seq<Arc>) {
    if ts == [] then [] else Arcs(ts[..|ts| - 1]) + ArcsOf(ts[|ts| - 1])
  }

  /** The other corners met from a point, in order of triangle and corner. */
  function Targets(arcs: seq<Arc>, p: nat): (r: seq<nat>) {
    if arcs == [] then []
    else Targets(arcs[..|arcs| - 1], p) + (if arcs[|arcs| - 1].from == p then [arcs[|arcs| - 1].to] else [])
  }

  lemma {:induction false} TargetsConcat(a: seq<Arc>, b: seq<Arc>, p: nat)
    ensures Targets(a + b, p) == Targets(a, p) + Targets(b, p)
  {
    if b == [] {
      assert a + b == a;
    } else {
      assert (a + b)[..|a + b| - 1] == a + b[..|b| - 1];
      TargetsConcat(a, b[..|b| - 1], p);
    }
  }

  /** How many corners of a triangle are a given point. */
  function Corners(t: Triangle, p: nat): (r: nat) {
    (if t.a == p then 1 else 0) + (if t.b == p then 1 else 0) + (if t.c == p then 1 else 0)
  }

  function CornerCount(ts: seq<Triangle>, p: nat): (r: nat) {
    if ts == [] then 0 else CornerCount(ts[..|ts| - 1], p) + Corners(ts[|ts| - 1], p)
  }

  lemma TargetsOfTriangle(t: Triangle, p: nat)
    ensures |Targets(ArcsOf(t), p)| == 2 * Corners(t, p)
  {
    var xs := ArcsOf(t);
    assert xs[..5][..4] == xs[..4] && xs[..4][..3] == xs[..3] && xs[..3][..2] == xs[..2] && xs[..2][..1] == xs[..1];
    assert xs[..1][..0] == [] && |Targets(xs[..1], p)| == (if t.a == p then 1 else 0);
    assert |Targets(xs[..2], p)| == 2 * (if t.a == p then 1 else 0);
    assert |Targets(xs[..4], p)| == |Targets(xs[..2], p)| + 2 * (if t.b == p then 1 else 0);
    assert |Targets(xs, p)| == |Targets(xs[..4], p)| + 2 * (if t.c == p then 1 else 0);
  }

  /** Every corner at a point adds the triangle's two other corners, repeated corners included. */
  lemma {:induction false} DegreeCountsCorners(ts: seq<Triangle>, p: nat)
    ensures |Targets(Arcs(ts), p)| == 2 * CornerCount(ts, p)
  {
    if ts != [] {
      DegreeCountsCorners(ts[..|ts| - 1], p);
      TargetsConcat(Arcs(ts[..|ts| - 1]), ArcsOf(ts[|ts| - 1]), p);
      TargetsOfTriangle(ts[|ts| - 1], p);
    }
  }

  function ArcCount(arcs: seq<Arc>, p: nat, q: nat): (r: nat) {
    if arcs == [] then 0
    else ArcCount(arcs[..|arcs| - 1], p, q) + (if arcs[|arcs| - 1] == Arc(p, q) then 1 else 0)
  }

  lemma {:induction false} TargetsCountArcs(arcs: seq<Arc>, p: nat, q: nat)
    ensures multiset(Targets(arcs, p))[q] == ArcCount(arcs, p, q)
  {
    if arcs != [] { TargetsCountArcs(arcs[..|arcs| - 1], p, q); }
  }

  lemma {:induction false} ArcCountConcat(a: seq<Arc>, b: seq<Arc>, p: nat, q: nat)
    ensures ArcCount(a + b, p, q) == ArcCount(a, p, q) + ArcCount(b, p, q)
  {
    if b == [] {
      assert a + b == a;
    } else {
      assert (a + b)[..|a + b| - 1] == a + b[..|b| - 1];
      ArcCountConcat(a, b[..|b| - 1], p, q);
    }
  }

  function Is(x: Arc, p: nat, q: nat): (r: nat) { if x == Arc(p, q) then 1 else 0 }

  lemma ArcCountOfTriangle(t: Triangle, p: nat, q: nat)
    ensures ArcCount(ArcsOf(t), p, q) ==
            Is(Arc(t.a, t.b), p, q) + Is(Arc(t.a, t.c), p, q) + Is(Arc(t.b, t.a), p, q)
            + Is(Arc(t.b, t.c), p, q) + Is(Arc(t.c, t.a), p, q) + Is(Arc(t.c, t.b), p, q)
  {
    var xs := ArcsOf(t);
    assert xs[..5][..4] == xs[..4] && xs[..4][..3] == xs[..3] && xs[..3][..2] == xs[..2] && xs[..2][..1] == xs[..1];
    assert ArcCount(xs[..1], p, q) == Is(xs[0], p, q);
    assert ArcCount(xs[..2], p, q) == ArcCount(xs[..1], p, q) + Is(xs[1], p, q);
    assert ArcCount(xs[..3], p, q) == ArcCount(xs[..2], p, q) + Is(xs[2], p, q);
    assert ArcCount(xs[..4], p, q) == ArcCount(xs[..3], p, q) + Is(xs[3], p, q);
    assert ArcCount(xs[..5], p, q) == ArcCount(xs[..4], p, q) + Is(xs[4], p, q);
  }

  lemma {:induction false} ArcsAreSymmetric(ts: seq<Triangle>, p: nat, q: nat)
    ensures ArcCount(Arcs(ts), p, q) == ArcCount(Arcs(ts), q, p)
  {
    if ts != [] {
      var n := |ts| - 1;
      ArcsAreSymmetric(ts[..n], p, q);
      ArcCountConcat(Arcs(ts[..n]), ArcsOf(ts[n]), p, q);
      ArcCountConcat(Arcs(ts[..n]), ArcsOf(ts[n]), q, p);
      ArcCountOfTriangle(ts[n], p, q);
      ArcCountOfTriangle(ts[n], q, p);
    }
  }

  /** Adjacency is symmetric: q is listed for p as often as p is for q. */
  lemma NeighboursAreMutual(ts: seq<Triangle>, p: nat, q: nat)
    ensures multiset(Targets(Arcs(ts), p))[q] == multiset(Targets(Arcs(ts), q))[p]
  {
    TargetsCountArcs(Arcs(ts), p, q);
    TargetsCountArcs(Arcs(ts), q, p);
    ArcsAreSymmetric(ts, p, q);
  }

  // ----- Slices -----------------------------------------------------------------------------------

  /** Where the slice of a point begins: after every arc of a smaller point. */
  function Offset(arcs: seq<Arc>, p: nat): (r: nat) {
    if arcs == [] then 0 else Offset(arcs[..|arcs| - 1], p) + (if arcs[|arcs| - 1].from < p then 1 else 0)
  }

  lemma {:induction false} OffsetsAscend(arcs: seq<Arc>, p: nat, q: nat)
    requires p <= q
    ensures Offset(arcs, p) <= Offset(arcs, q)
  {
    if arcs != [] { OffsetsAscend(arcs[..|arcs| - 1], p, q); }
  }

  /** Slices follow one another without gaps. */
  lemma {:induction false} OffsetNext(arcs: seq<Arc>, p: nat)
    ensures Offset(arcs, p + 1) == Offset(arcs, p) + |Targets(arcs, p)|
  {
    if arcs != [] { OffsetNext(arcs[..|arcs| - 1], p); }
  }

  lemma {:induction false} FirstOffset(arcs: seq<Arc>)
    ensures Offset(arcs, 0) == 0
  {
    if arcs != [] { FirstOffset(arcs[..|arcs| - 1]); }
  }

  ghost predicate WithinPoints(arcs: seq<Arc>, n: nat) {
    forall i :: 0 <= i < |arcs| ==> arcs[i].from < n && arcs[i].to < n
  }

  /** The slices fill the neighbour list exactly. */
  lemma {:induction false} SlicesFill(arcs: seq<Arc>, n: nat)
    requires WithinPoints(arcs, n)
    ensures Offset(arcs, n) == |arcs|
  {
    if arcs != [] { SlicesFill(arcs[..|arcs| - 1], n); }
  }

  lemma {:induction false} ArcsWithin(ts: seq<Triangle>, n: nat)
    requires forall i :: 0 <= i < |ts| ==> ts[i].a < n && ts[i].b < n && ts[i].c < n
    ensures WithinPoints(Arcs(ts), n)
  {
    if ts != [] { ArcsWithin(ts[..|ts| - 1], n); }
  }

  // ----- Counting -----------------------------------------------------------------------------------

  ghost predicate Counted(degree: seq<nat>, arcs: seq<Arc>) {
    forall p: nat :: p < |degree| ==> degree[p] == |Targets(arcs, p)|
  }

  function Raised(degree: seq<nat>, p: nat): (r: seq<nat>)
    requires p < |degree|
  {
    degree[p := degree[p] + 2]
  }

  lemma CountedNext(degree: seq<nat>, arcs: seq<Arc>, t: Triangle)
    requires Counted(degree, arcs) && t.a < |degree| && t.b < |degree| && t.c < |degree|
    ensures Counted(Raised(Raised(Raised(degree, t.a), t.b), t.c), arcs + ArcsOf(t))
  {
    forall p: nat | p < |degree|
      ensures Raised(Raised(Raised(degree, t.a), t.b), t.c)[p] == |Targets(arcs + ArcsOf(t), p)|
    {
      TargetsConcat(arcs, ArcsOf(t), p);
      TargetsOfTriangle(t, p);
    }
  }

  method CountDegrees(ts: seq<Triangle>, n: nat) returns (valid: bool, degree: array<nat>)
    ensures fresh(degree) && degree.Length == n
    ensures valid <==> forall i :: 0 <= i < |ts| ==> ts[i].a < n && ts[i].b < n && ts[i].c < n
    ensures valid ==> Counted(degree[..], Arcs(ts))
  {
    degree := new nat[n](_ => 0);
    var i := 0;
    assert ts[..0] == [];
    while i < |ts|
      invariant 0 <= i <= |ts| && Counted(degree[..], Arcs(ts[..i]))
      invariant forall j :: 0 <= j < i ==> ts[j].a < n && ts[j].b < n && ts[j].c < n
    {
      var t := ts[i];
      if t.a >= n || t.b >= n || t.c >= n { return false, degree; }
      ghost var before := degree[..];
      degree[t.a] := degree[t.a] + 2;
      assert degree[..] == Raised(before, t.a);
      degree[t.b] := degree[t.b] + 2;
      assert degree[..] == Raised(Raised(before, t.a), t.b);
      degree[t.c] := degree[t.c] + 2;
      assert degree[..] == Raised(Raised(Raised(before, t.a), t.b), t.c);
      CountedNext(before, Arcs(ts[..i]), t);
      assert ts[..i + 1][..i] == ts[..i];
      i := i + 1;
    }
    assert ts[..i] == ts;
    return true, degree;
  }

  ghost predicate Offsets(offsets: seq<nat>, arcs: seq<Arc>, n: nat) {
    n <= |offsets| && forall p: nat :: p < n ==> offsets[p] == Offset(arcs, p)
  }

  lemma OffsetsNext(offsets: seq<nat>, arcs: seq<Arc>, n: nat, degree: nat)
    requires Offsets(offsets, arcs, n) && 0 < n < |offsets| && degree == |Targets(arcs, n - 1)|
    ensures Offsets(offsets[n := offsets[n - 1] + degree], arcs, n + 1)
  {
    OffsetNext(arcs, n - 1);
    assert offsets[n - 1] == Offset(arcs, n - 1);
  }

  method PrefixSums(degree: array<nat>, ghost arcs: seq<Arc>) returns (offsets: array<nat>)
    requires Counted(degree[..], arcs)
    ensures fresh(offsets) && offsets.Length == degree.Length + 1 && Offsets(offsets[..], arcs, offsets.Length)
  {
    offsets := new nat[degree.Length + 1];
    ghost var counts := degree[..];
    offsets[0] := 0;
    FirstOffset(arcs);
    var i := 0;
    while i < degree.Length
      invariant 0 <= i <= degree.Length && degree[..] == counts && Offsets(offsets[..], arcs, i + 1)
    {
      ghost var before := offsets[..];
      assert counts[i] == degree[i];
      OffsetsNext(before, arcs, i + 1, degree[i]);
      offsets[i + 1] := offsets[i] + degree[i];
      assert offsets[..] == before[i + 1 := before[i] + degree[i]];
      i := i + 1;
    }
  }

  // ----- Scattering -----------------------------------------------------------------------------------

  /** A stretch of the list that has been filled up to a cursor and has room up to `high`. */
  ghost predicate Filled(neighbors: seq<nat>, low: nat, end: nat, high: nat, targets: seq<nat>) {
    end == low + |targets| && end <= high <= |neighbors| && neighbors[low..end] == targets
  }

  lemma FilledMore(neighbors: seq<nat>, low: nat, end: nat, high: nat, targets: seq<nat>, v: nat)
    requires Filled(neighbors, low, end, high, targets) && end < high
    ensures Filled(neighbors[end := v], low, end + 1, high, targets + [v])
  {
    assert neighbors[end := v][low..end + 1] == neighbors[low..end] + [v];
  }

  lemma FilledElsewhere(neighbors: seq<nat>, low: nat, end: nat, high: nat, targets: seq<nat>, slot: nat, v: nat)
    requires Filled(neighbors, low, end, high, targets) && slot < |neighbors| && (slot < low || high <= slot)
    ensures Filled(neighbors[slot := v], low, end, high, targets)
  {
    assert neighbors[slot := v][low..end] == neighbors[low..end];
  }

  /** After the first k arcs, each point's slice holds their targets, up to its cursor. */
  ghost predicate Scattered(all: seq<Arc>, k: nat, offsets: seq<nat>, cursor: seq<nat>, neighbors: seq<nat>) {
    && k <= |all| && |offsets| == |cursor| + 1
    && forall p: nat :: p < |cursor| ==> SliceDone(all, k, offsets, cursor[p], neighbors, p)
  }

  ghost predicate SliceDone(all: seq<Arc>, k: nat, offsets: seq<nat>, end: nat, neighbors: seq<nat>, p: nat)
    requires k <= |all| && p + 1 < |offsets|
  {
    Filled(neighbors, offsets[p], end, offsets[p + 1], Targets(all[..k], p))
  }

  lemma TargetsUpTo(all: seq<Arc>, k: nat, p: nat)
    requires k < |all|
    ensures Targets(all[..k + 1], p) == if all[k].from == p then Targets(all[..k], p) + [all[k].to] else Targets(all[..k], p)
    ensures |Targets(all[..k + 1], p)| <= |Targets(all, p)|
  {
    assert all[..k + 1][..k] == all[..k] && all[..k + 1] + all[k + 1..] == all;
    TargetsConcat(all[..k + 1], all[k + 1..], p);
  }

  lemma SlicesApart(all: seq<Arc>, offsets: seq<nat>, p: nat, q: nat)
    requires Offsets(offsets, all, |offsets|) && p != q && p + 1 < |offsets| && q + 1 < |offsets|
    ensures offsets[p + 1] <= offsets[q] || offsets[q + 1] <= offsets[p]
  {
    if p < q { OffsetsAscend(all, p + 1, q); } else { OffsetsAscend(all, q + 1, p); }
  }

  /** There is room for the next target of a point. */
  lemma RoomLeft(all: seq<Arc>, k: nat, offsets: seq<nat>, end: nat, neighbors: seq<nat>)
    requires k < |all| && all[k].from + 1 < |offsets| && Offsets(offsets, all, |offsets|)
    requires SliceDone(all, k, offsets, end, neighbors, all[k].from)
    ensures end < offsets[all[k].from + 1]
  {
    var s := all[k].from;
    TargetsUpTo(all, k, s);
    OffsetNext(all, s);
    assert offsets[s + 1] == Offset(all, s + 1) && offsets[s] == Offset(all, s);
  }

  lemma SliceStep(all: seq<Arc>, k: nat, offsets: seq<nat>, end: nat, neighbors: seq<nat>, p: nat, slot: nat)
    requires k < |all| && p + 1 < |offsets| && all[k].from + 1 < |offsets| && Offsets(offsets, all, |offsets|)
    requires SliceDone(all, k, offsets, end, neighbors, p)
    requires offsets[all[k].from] <= slot < offsets[all[k].from + 1] && slot < |neighbors|
    requires p == all[k].from ==> slot == end
    ensures SliceDone(all, k + 1, offsets, if p == all[k].from then end + 1 else end, neighbors[slot := all[k].to], p)
  {
    TargetsUpTo(all, k, p);
    if p == all[k].from {
      FilledMore(neighbors, offsets[p], end, offsets[p + 1], Targets(all[..k], p), all[k].to);
    } else {
      SlicesApart(all, offsets, p, all[k].from);
      FilledElsewhere(neighbors, offsets[p], end, offsets[p + 1], Targets(all[..k], p), slot, all[k].to);
    }
  }

  lemma ScatterStep(all: seq<Arc>, k: nat, offsets: seq<nat>, cursor: seq<nat>, neighbors: seq<nat>)
    requires k < |all| && Scattered(all, k, offsets, cursor, neighbors) && all[k].from < |cursor|
    requires Offsets(offsets, all, |offsets|)
    ensures cursor[all[k].from] < |neighbors|
    ensures Scattered(all, k + 1, offsets, cursor[all[k].from := cursor[all[k].from] + 1],
                      neighbors[cursor[all[k].from] := all[k].to])
  {
    var s := all[k].from;
    var slot := cursor[s];
    assert SliceDone(all, k, offsets, slot, neighbors, s);
    RoomLeft(all, k, offsets, slot, neighbors);
    var cursor' := cursor[s := slot + 1];
    forall p: nat | p < |cursor'|
      ensures SliceDone(all, k + 1, offsets, cursor'[p], neighbors[slot := all[k].to], p)
    {
      SliceStep(all, k, offsets, cursor[p], neighbors, p, slot);
    }
  }

  lemma ScatterStarts(all: seq<Arc>, offsets: seq<nat>, cursor: seq<nat>, neighbors: seq<nat>)
    requires Offsets(offsets, all, |offsets|) && |offsets| == |cursor| + 1 && |neighbors| == offsets[|cursor|]
    requires cursor == offsets[..|cursor|]
    ensures Scattered(all, 0, offsets, cursor, neighbors)
  {
    assert all[..0] == [];
    forall p: nat | p < |cursor| ensures SliceDone(all, 0, offsets, cursor[p], neighbors, p) {
      OffsetsAscend(all, p, p + 1);
      OffsetsAscend(all, p + 1, |cursor|);
      assert offsets[p] == Offset(all, p) && offsets[p + 1] == Offset(all, p + 1);
    }
  }

  /** Writes one neighbour at the cursor of a point; the slot is always within that point's slice. */
  method Put(cursor: array<nat>, neighbors: array<nat>, from: nat, to: nat,
             ghost all: seq<Arc>, ghost k: nat, ghost offsets: seq<nat>)
    requires cursor != neighbors && from < cursor.Length && Offsets(offsets, all, |offsets|)
    requires Scattered(all, k, offsets, cursor[..], neighbors[..]) && k < |all| && all[k] == Arc(from, to)
    modifies cursor, neighbors
    ensures Scattered(all, k + 1, offsets, cursor[..], neighbors[..])
  {
    ghost var c, s := cursor[..], neighbors[..];
    ScatterStep(all, k, offsets, c, s);
    Push(cursor, neighbors, from, to);
  }

  method Push(cursor: array<nat>, neighbors: array<nat>, from: nat, to: nat)
    requires cursor != neighbors && from < cursor.Length && cursor[from] < neighbors.Length
    modifies cursor, neighbors
    ensures cursor[..] == old(cursor[..])[from := old(cursor[from]) + 1]
    ensures neighbors[..] == old(neighbors[..])[old(cursor[from]) := to]
  {
    neighbors[cursor[from]] := to;
    cursor[from] := cursor[from] + 1;
  }

  lemma {:induction false} ArcsByIndex(ts: seq<Triangle>, i: nat)
    requires i < |ts|
    ensures ArcsAt(Arcs(ts), 6 * i, ts[i])
    decreases |ts|
  {
    var n := |ts| - 1;
    ArcsLength(ts[..n]);
    if i < n { ArcsByIndex(ts[..n], i); }
  }

  lemma {:induction false} ArcsLength(ts: seq<Triangle>)
    ensures |Arcs(ts)| == 6 * |ts|
  {
    if ts != [] { ArcsLength(ts[..|ts| - 1]); }
  }

  /** The six arcs of a triangle, from the k-th arc on. */
  ghost predicate ArcsAt(all: seq<Arc>, k: nat, t: Triangle) {
    && k + 6 <= |all| && all[k] == Arc(t.a, t.b) && all[k + 1] == Arc(t.a, t.c) && all[k + 2] == Arc(t.b, t.a)
    && all[k + 3] == Arc(t.b, t.c) && all[k + 4] == Arc(t.c, t.a) && all[k + 5] == Arc(t.c, t.b)
  }

  method ScatterTriangle(t: Triangle, cursor: array<nat>, neighbors: array<nat>,
                         ghost all: seq<Arc>, ghost k: nat, ghost offsets: seq<nat>)
    requires cursor != neighbors && t.a < cursor.Length && t.b < cursor.Length && t.c < cursor.Length
    requires Scattered(all, k, offsets, cursor[..], neighbors[..]) && ArcsAt(all, k, t)
    requires Offsets(offsets, all, |offsets|)
    modifies cursor, neighbors
    ensures Scattered(all, k + 6, offsets, cursor[..], neighbors[..])
  {
    Put(cursor, neighbors, t.a, t.b, all, k, offsets);
    Put(cursor, neighbors, t.a, t.c, all, k + 1, offsets);
    Put(cursor, neighbors, t.b, t.a, all, k + 2, offsets);
    Put(cursor, neighbors, t.b, t.c, all, k + 3, offsets);
    Put(cursor, neighbors, t.c, t.a, all, k + 4, offsets);
    Put(cursor, neighbors, t.c, t.b, all, k + 5, offsets);
  }

  /** The slice of each point holds exactly its neighbours. */
  ghost predicate Slices(offsets: seq<nat>, neighbors: seq<nat>, arcs: seq<Arc>) {
    forall p: nat :: p + 1 < |offsets| ==> SliceIs(offsets, neighbors, arcs, p)
  }

  ghost predicate SliceIs(offsets: seq<nat>, neighbors: seq<nat>, arcs: seq<Arc>, p: nat)
    requires p + 1 < |offsets|
  {
    offsets[p] <= offsets[p + 1] <= |neighbors| && neighbors[offsets[p]..offsets[p + 1]] == Targets(arcs, p)
  }

  lemma ScatterEnds(all: seq<Arc>, cursor: seq<nat>, neighbors: seq<nat>, offsets: seq<nat>)
    requires Scattered(all, |all|, offsets, cursor, neighbors) && Offsets(offsets, all, |offsets|)
    ensures Slices(offsets, neighbors, all)
  {
    assert all[..|all|] == all;
    forall p: nat | p + 1 < |offsets| ensures SliceIs(offsets, neighbors, all, p) {
      OffsetNext(all, p);
      assert SliceDone(all, |all|, offsets, cursor[p], neighbors, p);
      assert offsets[p + 1] == Offset(all, p + 1) && offsets[p] == Offset(all, p);
    }
  }

  method Scatter(ts: seq<Triangle>, offsets: array<nat>) returns (neighbors: array<nat>)
    requires offsets.Length > 0
    requires forall i :: 0 <= i < |ts| ==>
      ts[i].a < offsets.Length - 1 && ts[i].b < offsets.Length - 1 && ts[i].c < offsets.Length - 1
    requires Offsets(offsets[..], Arcs(ts), offsets.Length)
    ensures fresh(neighbors) && neighbors.Length == 6 * |ts| && Slices(offsets[..], neighbors[..], Arcs(ts))
  {
    var n := offsets.Length - 1;
    ghost var all, offs := Arcs(ts), offsets[..];
    ArcsWithin(ts, n);
    SlicesFill(all, n);
    ArcsLength(ts);
    neighbors := new nat[offsets[n]];
    var cursor := CopyFront(offsets, n);
    ScatterStarts(all, offs, cursor[..], neighbors[..]);
    ScatterAll(ts, cursor, neighbors, offs);
    ScatterEnds(all, cursor[..], neighbors[..], offs);
  }

  method ScatterAll(ts: seq<Triangle>, cursor: array<nat>, neighbors: array<nat>, ghost offsets: seq<nat>)
    requires cursor != neighbors && Offsets(offsets, Arcs(ts), |offsets|)
    requires forall i :: 0 <= i < |ts| ==> ts[i].a < cursor.Length && ts[i].b < cursor.Length && ts[i].c < cursor.Length
    requires Scattered(Arcs(ts), 0, offsets, cursor[..], neighbors[..])
    modifies cursor, neighbors
    ensures Scattered(Arcs(ts), |Arcs(ts)|, offsets, cursor[..], neighbors[..])
  {
    ghost var all, k := Arcs(ts), 0;
    ArcsLength(ts);
    var i := 0;
    while i < |ts|
      invariant 0 <= i <= |ts| && k == 6 * i && Scattered(all, k, offsets, cursor[..], neighbors[..])
    {
      ArcsByIndex(ts, i);
      ScatterTriangle(ts[i], cursor, neighbors, all, k, offsets);
      k := k + 6;
      i := i + 1;
    }
  }

  method CopyFront(offsets: array<nat>, n: nat) returns (cursor: array<nat>)
    requires n <= offsets.Length
    ensures fresh(cursor) && cursor[..] == offsets[..n]
  {
    cursor := new nat[n];
    var i := 0;
    while i < n
      invariant 0 <= i <= n && forall k :: 0 <= k < i ==> cursor[k] == offsets[k]
    {
      cursor[i] := offsets[i];
      i := i + 1;
    }
  }

  // ----- Boundary points ------------------------------------------------------------------------------

  function KeysOf(t: Triangle): (r: seq<nat>) {
    [EdgeKey(t.a, t.b), EdgeKey(t.b, t.c), EdgeKey(t.c, t.a)]
  }

  function Keys(ts: seq<Triangle>): (r: seq<nat>) {
    if ts == [] then [] else Keys(ts[..|ts| - 1]) + KeysOf(ts[|ts| - 1])
  }

  ghost predicate Narrow(ts: seq<Triangle>) {
    forall i :: 0 <= i < |ts| ==> ts[i].a < ID_LIMIT && ts[i].b < ID_LIMIT && ts[i].c < ID_LIMIT
  }

  /** A packed key occurs exactly as often as its edge is a side of a triangle. */
  lemma {:induction false} KeysCountSides(ts: seq<Triangle>, x: nat, y: nat)
    requires Narrow(ts) && x < ID_LIMIT && y < ID_LIMIT
    ensures multiset(Keys(ts))[EdgeKey(x, y)] == SideCount(ts, x, y)
  {
    if ts != [] {
      var n := |ts| - 1;
      KeysCountSides(ts[..n], x, y);
      assert multiset(Keys(ts)) == multiset(Keys(ts[..n])) + multiset(KeysOf(ts[n]));
      EdgeKeyInjective(ts[n].a, ts[n].b, x, y);
      EdgeKeyInjective(ts[n].b, ts[n].c, x, y);
      EdgeKeyInjective(ts[n].c, ts[n].a, x, y);
    }
  }

  ghost predicate Ends(key: nat, p: nat) {
    LowHalf(key) == p || HighHalf(key) == p
  }

  /** A point ends an edge whose key occurs once. */
  ghost predicate OnBoundary(keys: seq<nat>, p: nat) {
    exists i :: 0 <= i < |keys| && multiset(keys)[keys[i]] == 1 && Ends(keys[i], p)
  }

  ghost predicate Flagged(keys: seq<nat>, i: nat, boundary: seq<bool>) {
    forall p: nat :: p < |boundary| ==> (boundary[p] <==> FoundBefore(keys, i, p))
  }

  ghost predicate FoundBefore(keys: seq<nat>, i: nat, p: nat) {
    exists k :: 0 <= k < i && k < |keys| && multiset(keys)[keys[k]] == 1 && Ends(keys[k], p)
  }

  lemma FoundMore(keys: seq<nat>, i: nat, j: nat, p: nat)
    requires Ascending(keys) && Run(keys, i, j)
    ensures FoundBefore(keys, j, p) <==> FoundBefore(keys, i, p) || (j - i == 1 && Ends(keys[i], p))
  {
    RunCountsKey(keys, i, j);
    if FoundBefore(keys, j, p) {
      var k :| 0 <= k < j && k < |keys| && multiset(keys)[keys[k]] == 1 && Ends(keys[k], p);
      assert k >= i ==> keys[k] == keys[i];
    }
    if FoundBefore(keys, i, p) {
      var k :| 0 <= k < i && k < |keys| && multiset(keys)[keys[k]] == 1 && Ends(keys[k], p);
    }
  }

  /** Flags both ends of every key that stands alone among the sorted keys. */
  method FlagBoundary(keys: seq<nat>, boundary: array<bool>)
    requires Ascending(keys) && forall i :: 0 <= i < |keys| ==> LowHalf(keys[i]) < boundary.Length && HighHalf(keys[i]) < boundary.Length
    requires forall p :: 0 <= p < boundary.Length ==> !boundary[p]
    modifies boundary
    ensures forall p: nat :: p < boundary.Length ==> (boundary[p] <==> OnBoundary(keys, p))
  {
    var i := 0;
    while i < |keys|
      invariant 0 <= i <= |keys| && (0 < i < |keys| ==> keys[i - 1] != keys[i])
      invariant Flagged(keys, i, boundary[..])
    {
      var j := RunEnd(keys, i);
      forall p: nat | p < boundary.Length
        ensures FoundBefore(keys, j, p) <==> FoundBefore(keys, i, p) || (j - i == 1 && Ends(keys[i], p))
      {
        FoundMore(keys, i, j, p);
      }
      assert forall p: nat :: p < boundary.Length ==> boundary[..][p] == boundary[p];
      if j - i == 1 {
        boundary[LowHalf(keys[i])] := true;
        boundary[HighHalf(keys[i])] := true;
      }
      i := j;
    }
    assert forall p: nat :: p < boundary.Length ==> boundary[..][p] == boundary[p];
  }

  /** A point that ends a triangle side occurring once. */
  ghost predicate OnRim(ts: seq<Triangle>, n: nat, p: nat) {
    exists q: nat :: q < n && q < ID_LIMIT && SideCount(ts, p, q) == 1 && p < ID_LIMIT
  }

  /** A point is on the boundary exactly when one of its edges is a side once. */
  lemma BoundaryMeansOneSide(ts: seq<Triangle>, keys: seq<nat>, n: nat, p: nat)
    requires Narrow(ts) && multiset(keys) == multiset(Keys(ts)) && p < n
    requires forall i :: 0 <= i < |ts| ==> ts[i].a < n && ts[i].b < n && ts[i].c < n
    ensures OnBoundary(keys, p) <==> OnRim(ts, n, p)
  {
    if OnBoundary(keys, p) { FlaggedIsRim(ts, keys, n, p); }
    if OnRim(ts, n, p) { RimIsFlagged(ts, keys, n, p); }
  }

  lemma FlaggedIsRim(ts: seq<Triangle>, keys: seq<nat>, n: nat, p: nat)
    requires Narrow(ts) && multiset(keys) == multiset(Keys(ts)) && p < n
    requires forall i :: 0 <= i < |ts| ==> ts[i].a < n && ts[i].b < n && ts[i].c < n
    requires OnBoundary(keys, p)
    ensures OnRim(ts, n, p)
  {
    var i :| 0 <= i < |keys| && multiset(keys)[keys[i]] == 1 && Ends(keys[i], p);
    assert keys[i] in multiset(Keys(ts));
    var a, b := KeyIsSide(ts, n, keys[i]);
    Unpacked(a, b);
    KeysCountSides(ts, a, b);
    var q := if Lower(a, b) == p then Upper(a, b) else Lower(a, b);
    EdgeKeyInjective(a, b, p, q);
    KeysCountSides(ts, p, q);
    assert SideCount(ts, p, q) == 1;
  }

  lemma RimIsFlagged(ts: seq<Triangle>, keys: seq<nat>, n: nat, p: nat)
    requires Narrow(ts) && multiset(keys) == multiset(Keys(ts)) && OnRim(ts, n, p)
    ensures OnBoundary(keys, p)
  {
    var q: nat :| q < n && q < ID_LIMIT && SideCount(ts, p, q) == 1 && p < ID_LIMIT;
    KeysCountSides(ts, p, q);
    Unpacked(p, q);
    assert EdgeKey(p, q) in multiset(keys);
    var i :| 0 <= i < |keys| && keys[i] == EdgeKey(p, q);
  }

  lemma {:induction false} KeyIsSide(ts: seq<Triangle>, n: nat, key: nat) returns (a: nat, b: nat)
    requires Narrow(ts) && key in multiset(Keys(ts))
    requires forall i :: 0 <= i < |ts| ==> ts[i].a < n && ts[i].b < n && ts[i].c < n
    ensures a < n && b < n && a < ID_LIMIT && b < ID_LIMIT && key == EdgeKey(a, b)
  {
    var front, t := ts[..|ts| - 1], ts[|ts| - 1];
    assert multiset(Keys(ts)) == multiset(Keys(front)) + multiset(KeysOf(t));
    if key in multiset(Keys(front)) {
      a, b := KeyIsSide(front, n, key);
    } else if key == EdgeKey(t.a, t.b) {
      a, b := t.a, t.b;
    } else if key == EdgeKey(t.b, t.c) {
      a, b := t.b, t.c;
    } else {
      a, b := t.c, t.a;
    }
  }

  // ----- The whole build --------------------------------------------------------------------------------

  datatype Adjacency = Adjacency(offsets: seq<nat>, neighbors: seq<nat>, boundary: seq<bool>)

  /** Slices hold exactly the other corners, and flags mark exactly the ends of edges with one triangle side. */
  ghost predicate Exact(adj: Adjacency, ts: seq<Triangle>, n: nat) {
    && |adj.offsets| == n + 1 && |adj.boundary| == n && |adj.neighbors| == 6 * |ts|
    && adj.offsets[0] == 0 && adj.offsets[n] == |adj.neighbors|
    && Slices(adj.offsets, adj.neighbors, Arcs(ts))
    && forall p: nat :: p < n ==> (adj.boundary[p] <==> OnRim(ts, n, p))
  }

  method CollectKeys(ts: seq<Triangle>) returns (keys: seq<nat>)
    ensures keys == Keys(ts)
  {
    keys := [];
    var i := 0;
    assert ts[..0] == [];
    while i < |ts|
      invariant 0 <= i <= |ts| && keys == Keys(ts[..i])
    {
      keys := keys + KeysOf(ts[i]);
      assert ts[..i + 1][..i] == ts[..i];
      i := i + 1;
    }
    assert ts[..i] == ts;
  }

  predicate KeyLeq(x: nat, y: nat) { x <= y }

  /** Sorts the packed edges and flags the ends of those that occur once. */
  method FlagRims(ts: seq<Triangle>, n: nat) returns (boundary: array<bool>)
    requires Narrow(ts) && forall i :: 0 <= i < |ts| ==> ts[i].a < n && ts[i].b < n && ts[i].c < n
    ensures fresh(boundary) && boundary.Length == n
    ensures forall p: nat :: p < n ==> (boundary[p] <==> OnRim(ts, n, p))
  {
    var keys := CollectKeys(ts);
    keys := Sort(keys, KeyLeq);
    KeysWithin(ts, keys, n);
    boundary := new bool[n](_ => false);
    FlagBoundary(keys, boundary);
    forall p: nat | p < n ensures boundary[p] <==> OnRim(ts, n, p) {
      BoundaryMeansOneSide(ts, keys, n, p);
    }
  }

  /** Builds the adjacency of point ids below 2^32; fails without triangles or with a missing point. */
  method BuildAdjacency(ts: seq<Triangle>, n: nat) returns (r: Option<Adjacency>)
    requires Narrow(ts)
    ensures r.None? <==> ts == [] || exists i :: 0 <= i < |ts| && !(ts[i].a < n && ts[i].b < n && ts[i].c < n)
    ensures r.Some? ==> Exact(r.value, ts, n)
  {
    if ts == [] { return None; }
    var valid, degree := CountDegrees(ts, n);
    if !valid { return None; }
    var offsets := PrefixSums(degree, Arcs(ts));
    var neighbors := Scatter(ts, offsets);
    OffsetsSpan(ts, n, offsets[..]);
    var boundary := FlagRims(ts, n);
    r := Some(Adjacency(offsets[..], neighbors[..], boundary[..]));
  }

  lemma KeysWithin(ts: seq<Triangle>, keys: seq<nat>, n: nat)
    requires Narrow(ts) && multiset(keys) == multiset(Keys(ts))
    requires forall i :: 0 <= i < |ts| ==> ts[i].a < n && ts[i].b < n && ts[i].c < n
    ensures forall i :: 0 <= i < |keys| ==> LowHalf(keys[i]) < n && HighHalf(keys[i]) < n
  {
    forall i | 0 <= i < |keys| ensures LowHalf(keys[i]) < n && HighHalf(keys[i]) < n {
      assert keys[i] in multiset(keys);
      var a, b := KeyIsSide(ts, n, keys[i]);
      Unpacked(a, b);
    }
  }

  lemma {:induction false} OffsetsSpan(ts: seq<Triangle>, n: nat, offsets: seq<nat>)
    requires Offsets(offsets, Arcs(ts), |offsets|) && |offsets| == n + 1
    requires forall i :: 0 <= i < |ts| ==> ts[i].a < n && ts[i].b < n && ts[i].c < n
    ensures offsets[0] == 0 && offsets[n] == 6 * |ts|
  {
    ArcsWithin(ts, n);
    SlicesFill(Arcs(ts), n);
    ArcsLength(ts);
    FirstOffset(Arcs(ts));
  }
}
