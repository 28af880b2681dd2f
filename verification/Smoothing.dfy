/** Laplacian smoothing: Jacobi sweeps over two buffers. */
module Smoothing {
  import opened Geometry
  import opened Chains
  import opened Chunks
  import EdgeKeys
  import opened SmoothAdjacency

  /** Everything one sweep reads besides the points. */
  datatype Settings = Settings(adjacency: Adjacency, relaxation: real, boundarySmoothing: bool) {
    ghost predicate Fits(n: nat) {
      && |adjacency.offsets| == n + 1 && |adjacency.boundary| == n
      && (forall p: nat :: p < n ==> HasSlice(p))
      && forall j :: 0 <= j < |adjacency.neighbors| ==> adjacency.neighbors[j] < n
    }

    predicate HasSlice(p: nat) {
      p + 1 < |adjacency.offsets| && adjacency.offsets[p] <= adjacency.offsets[p + 1] <= |adjacency.neighbors|
    }

    function Slice(p: nat): (r: seq<nat>)
      requires HasSlice(p)
    {
      adjacency.neighbors[adjacency.offsets[p]..adjacency.offsets[p + 1]]
    }

    /** A point that no sweep may move: a kept boundary point, or one without neighbours. */
    predicate Pinned(p: nat)
      requires p + 1 < |adjacency.offsets| && p < |adjacency.boundary|
    {
      (!boundarySmoothing && adjacency.boundary[p]) || adjacency.offsets[p] == adjacency.offsets[p + 1]
    }
  }

  function Total(points: seq<Vec3>, ids: seq<nat>): (r: Vec3)
    requires forall j :: 0 <= j < |ids| ==> ids[j] < |points|
  {
    if ids == [] then ZERO else Total(points, ids[..|ids| - 1]).Plus(points[ids[|ids| - 1]])
  }

  function Mean(points: seq<Vec3>, ids: seq<nat>): (r: Vec3)
    requires ids != [] && forall j :: 0 <= j < |ids| ==> ids[j] < |points|
  {
    Total(points, ids).Scale(1.0 / |ids| as real)
  }

  /** Where a sweep puts a point: part of the way to the mean of its neighbours. */
  function Moved(s: Settings, points: seq<Vec3>, p: nat): (r: Vec3)
    requires s.Fits(|points|) && p < |points|
  {
    if s.Pinned(p) then points[p]
    else points[p].Plus(Mean(points, s.Slice(p)).Minus(points[p]).Scale(s.relaxation))
  }

  /** One sweep: every point moves by the positions before the sweep. */
  function Sweep(s: Settings, points: seq<Vec3>): (r: seq<Vec3>)
    requires s.Fits(|points|)
    ensures |r| == |points|
  {
    seq(|points|, (p: nat) requires p < |points| => Moved(s, points, p))
  }

  function Sweeps(s: Settings, points: seq<Vec3>, k: nat): (r: seq<Vec3>)
    requires s.Fits(|points|)
    ensures |r| == |points|
  {
    if k == 0 then points else Sweep(s, Sweeps(s, points, k - 1))
  }

  // ----- Staying within the bounds ------------------------------------------------------------------

  predicate InBox(p: Vec3, low: Vec3, high: Vec3) {
    low.x <= p.x <= high.x && low.y <= p.y <= high.y && low.z <= p.z <= high.z
  }

  ghost predicate AllInBox(points: seq<Vec3>, low: Vec3, high: Vec3) {
    forall i :: 0 <= i < |points| ==> InBox(points[i], low, high)
  }

  lemma {:induction false} TotalInBox(points: seq<Vec3>, ids: seq<nat>, low: Vec3, high: Vec3)
    requires AllInBox(points, low, high) && forall j :: 0 <= j < |ids| ==> ids[j] < |points|
    ensures InBox(Total(points, ids), low.Scale(|ids| as real), high.Scale(|ids| as real))
  {
    if ids != [] {
      var n := |ids| - 1;
      TotalInBox(points, ids[..n], low, high);
      assert InBox(points[ids[n]], low, high);
      OneMore(low, n);
      OneMore(high, n);
    }
  }

  lemma OneMore(v: Vec3, n: nat)
    ensures v.Scale((n + 1) as real) == v.Scale(n as real).Plus(v)
  {
  }

  lemma MultiplyOrdered(a: real, b: real, r: real)
    requires a <= b && r >= 0.0
    ensures a * r <= b * r
  {
  }

  lemma Regroup(a: real, n: real, r: real)
    requires n * r == 1.0
    ensures (a * n) * r == a
  {
    assert (a * n) * r == a * (n * r);
  }

  /** Dividing a total of n values between n * low and n * high leaves a value between low and high. */
  lemma Averaged(total: real, n: real, low: real, high: real)
    requires n > 0.0 && low * n <= total <= high * n
    ensures low <= total * (1.0 / n) <= high
  {
    var r := 1.0 / n;
    assert n * r == 1.0;
    MultiplyOrdered(low * n, total, r);
    MultiplyOrdered(total, high * n, r);
    Regroup(low, n, r);
    Regroup(high, n, r);
  }

  lemma PartOf(d: real, t: real)
    requires d >= 0.0 && 0.0 <= t <= 1.0
    ensures 0.0 <= Product(d, t) <= d
  {
    MultiplyOrdered(0.0, t, d);
    MultiplyOrdered(t, 1.0, d);
  }

  lemma PartOfNegative(d: real, t: real)
    requires d <= 0.0 && 0.0 <= t <= 1.0
    ensures d <= Product(d, t) <= 0.0
  {
    var e := -d;
    PartOf(e, t);
    assert e * t == -(d * t);
  }

  /** A step of at most the whole of d from a stays between bounds that hold a and a + d. */
  lemma Between(a: real, d: real, t: real, low: real, high: real)
    requires low <= a <= high && low <= a + d <= high && 0.0 <= t <= 1.0
    ensures low <= a + d * t <= high
  {
    var m := Product(d, t);
    if d >= 0.0 { PartOf(d, t); } else { PartOfNegative(d, t); }
    Squeezed(a, d, m, low, high);
  }

  lemma Squeezed(a: real, d: real, m: real, low: real, high: real)
    requires low <= a <= high && low <= a + d <= high && (0.0 <= m <= d || d <= m <= 0.0)
    ensures low <= a + m <= high
  {
  }

  lemma MovedInBox(s: Settings, points: seq<Vec3>, p: nat, low: Vec3, high: Vec3)
    requires s.Fits(|points|) && p < |points| && 0.0 <= s.relaxation <= 1.0 && AllInBox(points, low, high)
    ensures InBox(Moved(s, points, p), low, high)
  {
    assert InBox(points[p], low, high);
    if !s.Pinned(p) {
      assert s.HasSlice(p);
      MeanInBox(points, s.Slice(p), low, high);
      StepInBox(points[p], Mean(points, s.Slice(p)), s.relaxation, low, high);
    }
  }

  lemma MeanInBox(points: seq<Vec3>, ids: seq<nat>, low: Vec3, high: Vec3)
    requires AllInBox(points, low, high) && ids != [] && forall j :: 0 <= j < |ids| ==> ids[j] < |points|
    ensures InBox(Mean(points, ids), low, high)
  {
    TotalInBox(points, ids, low, high);
    var n := |ids| as real;
    AveragedInBox(Total(points, ids), n, low, high, low.Scale(n), high.Scale(n), Mean(points, ids));
  }

  lemma AveragedAlong(total: real, n: real, low: real, high: real, least: real, most: real, mean: real)
    requires n > 0.0 && least == low * n && most == high * n && least <= total <= most && mean == total * (1.0 / n)
    ensures low <= mean <= high
  {
    Averaged(total, n, low, high);
  }

  /** One vector is another times a factor. */
  predicate ScaledBy(w: Vec3, v: Vec3, k: real) { w == v.Scale(k) }

  lemma AveragedX(total: Vec3, n: real, low: Vec3, high: Vec3, least: Vec3, most: Vec3, mean: Vec3)
    requires n > 0.0 && ScaledBy(least, low, n) && ScaledBy(most, high, n) && ScaledBy(mean, total, 1.0 / n)
    requires least.x <= total.x <= most.x
    ensures low.x <= mean.x <= high.x
  {
    AveragedAlong(total.x, n, low.x, high.x, least.x, most.x, mean.x);
  }

  lemma AveragedY(total: Vec3, n: real, low: Vec3, high: Vec3, least: Vec3, most: Vec3, mean: Vec3)
    requires n > 0.0 && ScaledBy(least, low, n) && ScaledBy(most, high, n) && ScaledBy(mean, total, 1.0 / n)
    requires least.y <= total.y <= most.y
    ensures low.y <= mean.y <= high.y
  {
    AveragedAlong(total.y, n, low.y, high.y, least.y, most.y, mean.y);
  }

  lemma AveragedZ(total: Vec3, n: real, low: Vec3, high: Vec3, least: Vec3, most: Vec3, mean: Vec3)
    requires n > 0.0 && ScaledBy(least, low, n) && ScaledBy(most, high, n) && ScaledBy(mean, total, 1.0 / n)
    requires least.z <= total.z <= most.z
    ensures low.z <= mean.z <= high.z
  {
    AveragedAlong(total.z, n, low.z, high.z, least.z, most.z, mean.z);
  }

  lemma AveragedInBox(total: Vec3, n: real, low: Vec3, high: Vec3, least: Vec3, most: Vec3, mean: Vec3)
    requires n > 0.0 && ScaledBy(least, low, n) && ScaledBy(most, high, n) && ScaledBy(mean, total, 1.0 / n)
    requires InBox(total, least, most)
    ensures InBox(mean, low, high)
  {
    AveragedX(total, n, low, high, least, most, mean);
    AveragedY(total, n, low, high, least, most, mean);
    AveragedZ(total, n, low, high, least, most, mean);
  }

  lemma StepInBox(p: Vec3, mean: Vec3, t: real, low: Vec3, high: Vec3)
    requires InBox(p, low, high) && InBox(mean, low, high) && 0.0 <= t <= 1.0
    ensures InBox(p.Plus(mean.Minus(p).Scale(t)), low, high)
  {
    Between(p.x, mean.x - p.x, t, low.x, high.x);
    Between(p.y, mean.y - p.y, t, low.y, high.y);
    Between(p.z, mean.z - p.z, t, low.z, high.z);
  }

  /** However many sweeps: with a relaxation in [0, 1] no point leaves a box that held all points. */
  lemma {:induction false} SweepsStayInBox(s: Settings, points: seq<Vec3>, k: nat, low: Vec3, high: Vec3)
    requires s.Fits(|points|) && 0.0 <= s.relaxation <= 1.0 && AllInBox(points, low, high)
    ensures AllInBox(Sweeps(s, points, k), low, high)
  {
    if k > 0 {
      SweepsStayInBox(s, points, k - 1, low, high);
      var before := Sweeps(s, points, k - 1);
      forall p: nat | p < |points| ensures InBox(Sweep(s, before)[p], low, high) {
        MovedInBox(s, before, p, low, high);
      }
    }
  }

  lemma MeanOfOne(points: seq<Vec3>, q: nat)
    requires q < |points|
    ensures Mean(points, [q]) == points[q]
  {
    assert [q][..0] == [] && Total(points, [q]) == ZERO.Plus(points[q]) == points[q];
    assert 1.0 / 1 as real == 1.0;
  }

  /** Why the setter refuses a relaxation above one: a sweep past the mean can leave the box. */
  lemma OvershootLeavesBox() returns (s: Settings, points: seq<Vec3>, low: Vec3, high: Vec3)
    ensures s.Fits(|points|) && s.relaxation > 1.0 && AllInBox(points, low, high)
    ensures !AllInBox(Sweep(s, points), low, high)
  {
    s := Settings(Adjacency([0, 1, 2], [1, 0], [false, false]), 2.0, true);
    low, high := ZERO, Vec3(1.0, 0.0, 0.0);
    points := [low, high];
    assert s.HasSlice(0) && s.HasSlice(1) && s.Fits(|points|) && s.Slice(0) == [1];
    MeanOfOne(points, 1);
    assert !s.Pinned(0) && Sweep(s, points)[0] == low.Plus(high.Minus(low).Scale(2.0));
    assert !InBox(Sweep(s, points)[0], low, high);
  }

  /** Pinned points never move. */
  lemma {:induction false} PinnedStay(s: Settings, points: seq<Vec3>, k: nat, p: nat)
    requires s.Fits(|points|) && p < |points| && s.Pinned(p)
    ensures Sweeps(s, points, k)[p] == points[p]
  {
    if k > 0 { PinnedStay(s, points, k - 1, p); }
  }

  // ----- The sweeps in place ------------------------------------------------------------------------

  method Accumulate(points: array<Vec3>, neighbors: seq<nat>, start: nat, finish: nat) returns (sum: Vec3)
    requires start <= finish <= |neighbors| && forall j :: 0 <= j < |neighbors| ==> neighbors[j] < points.Length
    ensures sum == Total(points[..], neighbors[start..finish])
  {
    sum := ZERO;
    var j := start;
    while j < finish
      invariant start <= j <= finish && sum == Total(points[..], neighbors[start..j])
    {
      sum := sum.Plus(points[neighbors[j]]);
      assert neighbors[start..j + 1][..j - start] == neighbors[start..j];
      j := j + 1;
    }
  }

  method SmoothPoint(s: Settings, input: array<Vec3>, i: nat) returns (r: Vec3)
    requires s.Fits(input.Length) && i < input.Length
    ensures r == Moved(s, input[..], i)
  {
    assert s.HasSlice(i);
    var start, finish := s.adjacency.offsets[i], s.adjacency.offsets[i + 1];
    if (!s.boundarySmoothing && s.adjacency.boundary[i]) || start == finish { return input[i]; }
    var sum := Accumulate(input, s.adjacency.neighbors, start, finish);
    sum := sum.Scale(1.0 / (finish - start) as real);
    r := input[i].Plus(sum.Minus(input[i]).Scale(s.relaxation));
  }

  method SmoothRange(s: Settings, input: array<Vec3>, output: array<Vec3>, begin: nat, end: nat)
    requires s.Fits(input.Length) && input != output && output.Length == input.Length && begin <= end <= input.Length
    modifies output
    ensures forall p: nat :: begin <= p < end ==> output[p] == Moved(s, input[..], p)
    ensures forall p: nat :: p < output.Length && !(begin <= p < end) ==> output[p] == old(output[p])
  {
    var i := begin;
    while i < end
      invariant begin <= i <= end
      invariant forall p: nat :: begin <= p < i ==> output[p] == Moved(s, input[..], p)
      invariant forall p: nat :: p < output.Length && !(begin <= p < i) ==> output[p] == old(output[p])
    {
      var r := SmoothPoint(s, input, i);
      output[i] := r;
      i := i + 1;
    }
  }

  /** One sweep split over workers: the split does not show in the result. */
  method SmoothChunks(s: Settings, input: array<Vec3>, output: array<Vec3>, chunks: seq<Chunk>)
    requires s.Fits(input.Length) && input != output && output.Length == input.Length && Cover(chunks, input.Length)
    modifies output
    ensures output[..] == Sweep(s, input[..])
  {
    var i := 0;
    while i < |chunks|
      invariant 0 <= i <= |chunks|
      invariant forall p: nat :: p < output.Length && InSome(chunks[..i], p) ==> output[p] == Moved(s, input[..], p)
    {
      SmoothRange(s, input, output, chunks[i].0, chunks[i].1);
      forall p: nat ensures InSome(chunks[..i + 1], p) <==> InSome(chunks[..i], p) || chunks[i].0 <= p < chunks[i].1 {
        InSomeNext(chunks, i, p);
      }
      i := i + 1;
    }
    assert chunks[..i] == chunks;
  }

  /** The filter's loop: sweep from one buffer into the other, then swap them. */
  method Smooth(s: Settings, points: seq<Vec3>, iterations: nat, chunks: seq<Chunk>) returns (r: seq<Vec3>)
    requires s.Fits(|points|) && Cover(chunks, |points|)
    ensures r == Sweeps(s, points, iterations)
  {
    var current := new Vec3[|points|](i requires 0 <= i < |points| => points[i]);
    var next := new Vec3[|points|](_ => ZERO);
    assert current[..] == points;
    var iteration := 0;
    while iteration < iterations
      invariant 0 <= iteration <= iterations && current != next
      invariant fresh(current) && fresh(next) && current.Length == next.Length == |points|
      invariant current[..] == Sweeps(s, points, iteration)
    {
      SmoothChunks(s, current, next, chunks);
      current, next := next, current;
      iteration := iteration + 1;
    }
    r := current[..];
  }

  /** An adjacency as built fits the points, so the whole filter runs from triangles to smoothed points. */
  lemma BuiltFits(adjacency: Adjacency, ts: seq<Triangle>, n: nat, relaxation: real, boundarySmoothing: bool)
    requires Exact(adjacency, ts, n) && forall i :: 0 <= i < |ts| ==> ts[i].a < n && ts[i].b < n && ts[i].c < n
    ensures Settings(adjacency, relaxation, boundarySmoothing).Fits(n)
  {
    NeighborsWithin(adjacency, ts, n);
    forall p: nat | p < n ensures Settings(adjacency, relaxation, boundarySmoothing).HasSlice(p) {
      assert SliceIs(adjacency.offsets, adjacency.neighbors, Arcs(ts), p);
    }
  }

  lemma NeighborsWithin(adjacency: Adjacency, ts: seq<Triangle>, n: nat)
    requires Exact(adjacency, ts, n) && forall i :: 0 <= i < |ts| ==> ts[i].a < n && ts[i].b < n && ts[i].c < n
    ensures forall j :: 0 <= j < |adjacency.neighbors| ==> adjacency.neighbors[j] < n
  {
    ArcsWithin(ts, n);
    forall j: nat | j < |adjacency.neighbors| ensures adjacency.neighbors[j] < n {
      var p := SliceHolding(adjacency, ts, n, j, n);
      assert SliceIs(adjacency.offsets, adjacency.neighbors, Arcs(ts), p);
      var slice := adjacency.neighbors[adjacency.offsets[p]..adjacency.offsets[p + 1]];
      assert slice[j - adjacency.offsets[p]] == adjacency.neighbors[j];
      TargetsWithin(Arcs(ts), p, n);
    }
  }

  /** Every slot of the neighbour list lies in the slice of some point. */
  lemma {:induction false} SliceHolding(adjacency: Adjacency, ts: seq<Triangle>, n: nat, j: nat, m: nat) returns (p: nat)
    requires Exact(adjacency, ts, n) && m <= n && j < adjacency.offsets[m]
    ensures p < m && adjacency.offsets[p] <= j < adjacency.offsets[p + 1]
    decreases m
  {
    if j < adjacency.offsets[m - 1] { p := SliceHolding(adjacency, ts, n, j, m - 1); } else { p := m - 1; }
  }

  lemma {:induction false} TargetsWithin(arcs: seq<Arc>, p: nat, n: nat)
    requires WithinPoints(arcs, n)
    ensures forall k :: 0 <= k < |Targets(arcs, p)| ==> Targets(arcs, p)[k] < n
  {
    if arcs != [] { TargetsWithin(arcs[..|arcs| - 1], p, n); }
  }

  /** Every triangle joins points of the mesh. */
  ghost predicate InPoints(ts: seq<Triangle>, n: nat) {
    forall i :: 0 <= i < |ts| ==> ts[i].a < n && ts[i].b < n && ts[i].c < n
  }

  /** The mesh validation, as far as triangles go. */
  method Validate(ts: seq<Triangle>, n: nat) returns (valid: bool)
    ensures valid <==> InPoints(ts, n)
  {
    var i := 0;
    while i < |ts|
      invariant 0 <= i <= |ts| && forall k :: 0 <= k < i ==> ts[k].a < n && ts[k].b < n && ts[k].c < n
    {
      if !(ts[i].a < n && ts[i].b < n && ts[i].c < n) { return false; }
      i := i + 1;
    }
    valid := true;
  }

  /** The filter from mesh to mesh: nothing leaves the input's bounds, and kept rims and loose points stay put. */
  method SmoothMesh(points: seq<Vec3>, ts: seq<Triangle>, iterations: nat, relaxation: real, boundarySmoothing: bool,
                    chunks: seq<Chunk>)
    returns (r: Option<seq<Vec3>>)
    requires Narrow(ts) && 0.0 <= relaxation <= 1.0 && Cover(chunks, |points|)
    ensures r.None? <==> !InPoints(ts, |points|) || (points != [] && iterations != 0 && ts == [])
    ensures r.Some? ==> |r.value| == |points|
    ensures r.Some? ==> forall low, high :: AllInBox(points, low, high) ==> AllInBox(r.value, low, high)
    ensures r.Some? && !boundarySmoothing ==>
      forall p: nat :: p < |points| && OnRim(ts, |points|, p) ==> r.value[p] == points[p]
    ensures r.Some? ==> forall p: nat :: p < |points| && Targets(Arcs(ts), p) == [] ==> r.value[p] == points[p]
  {
    var valid := Validate(ts, |points|);
    if !valid { return None; }
    if points == [] || iterations == 0 { return Some(points); }
    var adjacency := BuildAdjacency(ts, |points|);
    if adjacency.None? { return None; }
    var s := Settings(adjacency.value, relaxation, boundarySmoothing);
    BuiltFits(adjacency.value, ts, |points|, relaxation, boundarySmoothing);
    var smoothed := Smooth(s, points, iterations, chunks);
    forall low, high | AllInBox(points, low, high) ensures AllInBox(smoothed, low, high) {
      SweepsStayInBox(s, points, iterations, low, high);
    }
    StayPut(s, ts, points, iterations);
    r := Some(smoothed);
  }

  lemma StayPut(s: Settings, ts: seq<Triangle>, points: seq<Vec3>, k: nat)
    requires s.Fits(|points|) && Exact(s.adjacency, ts, |points|)
    ensures !s.boundarySmoothing ==>
      forall p: nat :: p < |points| && OnRim(ts, |points|, p) ==> Sweeps(s, points, k)[p] == points[p]
    ensures forall p: nat :: p < |points| && Targets(Arcs(ts), p) == [] ==> Sweeps(s, points, k)[p] == points[p]
  {
    forall p: nat | p < |points| && !s.boundarySmoothing && OnRim(ts, |points|, p)
      ensures Sweeps(s, points, k)[p] == points[p]
    {
      PinnedStay(s, points, k, p);
    }
    forall p: nat | p < |points| && Targets(Arcs(ts), p) == [] ensures Sweeps(s, points, k)[p] == points[p] {
      assert SliceIs(s.adjacency.offsets, s.adjacency.neighbors, Arcs(ts), p);
      PinnedStay(s, points, k, p);
    }
  }
}
