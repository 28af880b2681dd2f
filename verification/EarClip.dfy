/**
 * Ear clipping of one projected cap loop.  Triangles are appended to the output in place; the
 * oriented boundary of what is appended is the loop turned to positive area.
 */
module EarClip {
  import opened Geometry
  import opened Chains
  import opened ClipOutputs

  datatype CapStatus = Done | NotSimpleLoop | OpenLoop | ZeroArea | NoEar | CapacityExceeded

  const MIN_AREA := 0.00000000000001
  const INSIDE_EPSILON := 0.000000000001

  function Cross2(a: Vec2, b: Vec2, c: Vec2): (r: real) {
    (b.x - a.x) * (c.y - a.y) - (b.y - a.y) * (c.x - a.x)
  }

  predicate InTriangle(p: Vec2, a: Vec2, b: Vec2, c: Vec2) {
    Cross2(a, b, p) >= -INSIDE_EPSILON && Cross2(b, c, p) >= -INSIDE_EPSILON && Cross2(c, a, p) >= -INSIDE_EPSILON
  }

  /** Planar coordinates of an output point along the two projection axes. */
  datatype Frame = Frame(axisU: Vec3, axisV: Vec3) {
    function Project(p: Vec3): (r: Vec2) { Vec2(p.Dot(axisU), p.Dot(axisV)) }
  }

  /** Twice the signed area swept from the origin along an edge; its flux is twice a signed area. */
  ghost function AreaForm(points: seq<Vec3>, frame: Frame): (w: Cochain)
    ensures Antisymmetric(w)
  {
    (p: nat, q: nat) =>
      if p < |points| && q < |points| then
        var a, b := frame.Project(points[p]), frame.Project(points[q]);
        a.x * b.y - b.x * a.y
      else 0.0
  }

  lemma CrossIsFlux(points: seq<Vec3>, frame: Frame, a: nat, b: nat, c: nat)
    requires a < |points| && b < |points| && c < |points|
    ensures var w := AreaForm(points, frame);
            Cross2(frame.Project(points[a]), frame.Project(points[b]), frame.Project(points[c]))
            == w(a, b) + w(b, c) + w(c, a)
  {
  }

  /**
   * Position `k` of the remaining polygon is an ear: the corner turns left by more than the
   * tolerance and no other remaining vertex lies in the corner triangle.
   */
  predicate IsEar(remaining: seq<nat>, k: nat, xy: seq<Vec2>)
    requires k < |remaining|
    requires forall i :: 0 <= i < |remaining| ==> remaining[i] < |xy|
  {
    var p, c, q := remaining[Before(k, |remaining|)], remaining[k], remaining[After(k, |remaining|)];
    && Cross2(xy[p], xy[c], xy[q]) > MIN_AREA
    && forall i :: 0 <= i < |remaining| ==> !Blocks(remaining[i], p, c, q, xy)
  }

  /** Another vertex that lies in the corner triangle. */
  predicate Blocks(v: nat, p: nat, c: nat, q: nat, xy: seq<Vec2>)
    requires v < |xy| && p < |xy| && c < |xy| && q < |xy|
  {
    v != p && v != c && v != q && InTriangle(xy[v], xy[p], xy[c], xy[q])
  }

  /** Scans for the first ear, as the inner loops of the triangulation do. */
  method FindEar(remaining: seq<nat>, xy: seq<Vec2>) returns (ear: nat)
    requires forall i :: 0 <= i < |remaining| ==> remaining[i] < |xy|
    ensures ear <= |remaining|
    ensures ear < |remaining| ==> IsEar(remaining, ear, xy)
    ensures forall k :: 0 <= k < ear ==> !IsEar(remaining, k, xy)
  {
    ear := 0;
    while ear < |remaining|
      invariant ear <= |remaining|
      invariant forall k :: 0 <= k < ear ==> !IsEar(remaining, k, xy)
    {
      var n := |remaining|;
      var p, c, q := remaining[(ear + n - 1) % n], remaining[ear], remaining[(ear + 1) % n];
      assert p == remaining[Before(ear, n)] && q == remaining[After(ear, n)];
      if Cross2(xy[p], xy[c], xy[q]) > MIN_AREA {
        var candidate, contains := 0, false;
        while candidate < n && !contains
          invariant candidate <= n
          invariant contains <==> exists i :: 0 <= i < candidate && Blocks(remaining[i], p, c, q, xy)
        {
          contains := Blocks(remaining[candidate], p, c, q, xy);
          candidate := candidate + 1;
        }
        if !contains {
          return;
        }
      }
      ear := ear + 1;
    }
  }

  function Ids(loop: seq<nat>, positions: seq<nat>): (ids: seq<nat>)
    requires forall i :: 0 <= i < |positions| ==> positions[i] < |loop|
    ensures |ids| == |positions| && forall i :: 0 <= i < |ids| ==> ids[i] == loop[positions[i]]
  {
    seq(|positions|, i requires 0 <= i < |positions| => loop[positions[i]])
  }

  ghost predicate InLoop(loop: seq<nat>, points: seq<Vec3>) {
    forall i :: 0 <= i < |loop| ==> loop[i] < |points|
  }

  /** Projects the loop and sums twice its signed area. */
  method MeasureLoop(points: seq<Vec3>, loop: seq<nat>, frame: Frame) returns (xy: array<Vec2>, area: real)
    requires loop != [] && InLoop(loop, points)
    ensures fresh(xy) && xy.Length == |loop|
    ensures forall i :: 0 <= i < |loop| ==> xy[i] == frame.Project(points[loop[i]])
    ensures area == CycleFlux(loop, AreaForm(points, frame))
  {
    xy := new Vec2[|loop|](_ => Vec2(0.0, 0.0));
    for i := 0 to |loop|
      invariant forall j :: 0 <= j < i ==> xy[j] == frame.Project(points[loop[j]])
    {
      xy[i] := frame.Project(points[loop[i]]);
    }
    area := SumArea(points, loop, frame, xy[..]);
  }

  method SumArea(points: seq<Vec3>, loop: seq<nat>, frame: Frame, xy: seq<Vec2>) returns (area: real)
    requires loop != [] && InLoop(loop, points) && |xy| == |loop|
    requires forall i :: 0 <= i < |loop| ==> xy[i] == frame.Project(points[loop[i]])
    ensures area == CycleFlux(loop, AreaForm(points, frame))
  {
    ghost var w := AreaForm(points, frame);
    var n := |loop|;
    area := 0.0;
    for i := 0 to n
      invariant i < n ==> area == PathFlux(loop[..i + 1], w)
      invariant i == n ==> area == CycleFlux(loop, w)
    {
      var next := (i + 1) % n;
      assert next == After(i, n);
      area := area + (xy[i].x * xy[next].y - xy[next].x * xy[i].y);
      AreaTerm(points, loop, frame, xy, i, next);
      if i + 1 < n {
        assert loop[..i + 2][..i + 1] == loop[..i + 1];
      } else {
        assert loop[..n] == loop;
      }
    }
  }

  lemma AreaTerm(points: seq<Vec3>, loop: seq<nat>, frame: Frame, xy: seq<Vec2>, i: nat, j: nat)
    requires InLoop(loop, points) && |xy| == |loop| && i < |loop| && j < |loop|
    requires forall i :: 0 <= i < |loop| ==> xy[i] == frame.Project(points[loop[i]])
    ensures xy[i].x * xy[j].y - xy[j].x * xy[i].y == AreaForm(points, frame)(loop[i], loop[j])
  {
  }

  /** What is still to be filled, together with what has been emitted, has the loop's boundary. */
  ghost predicate Residue(caps: seq<Tri<nat>>, rest: seq<nat>, loop: seq<nat>) {
    forall w: Cochain :: Antisymmetric(w) ==> TriFlux(caps, w) + CycleFlux(rest, w) == CycleFlux(loop, w)
  }

  lemma ClipStep(caps: seq<Tri<nat>>, rest: seq<nat>, k: nat, loop: seq<nat>)
    requires |rest| >= 2 && k < |rest| && Residue(caps, rest, loop)
    ensures Residue(caps + [Tri(rest[Before(k, |rest|)], rest[k], rest[After(k, |rest|)])],
                    rest[..k] + rest[k + 1..], loop)
  {
    var t := Tri(rest[Before(k, |rest|)], rest[k], rest[After(k, |rest|)]);
    forall w: Cochain | Antisymmetric(w)
      ensures TriFlux(caps + [t], w) + CycleFlux(rest[..k] + rest[k + 1..], w) == CycleFlux(loop, w)
    {
      CutCorner(rest, k, w);
      assert (caps + [t])[..|caps|] == caps;
    }
  }

  lemma LastTriangle(caps: seq<Tri<nat>>, rest: seq<nat>, loop: seq<nat>)
    requires |rest| == 3 && Residue(caps, rest, loop)
    ensures Fills(caps + [Tri(rest[0], rest[1], rest[2])], loop)
  {
    var t := Tri(rest[0], rest[1], rest[2]);
    forall w: Cochain | Antisymmetric(w)
      ensures TriFlux(caps + [t], w) == CycleFlux(loop, w)
    {
      assert (caps + [t])[..|caps|] == caps;
      calc {
        CycleFlux(rest, w);
        PathFlux(rest[..2], w) + w(rest[1], rest[2]) + w(rest[2], rest[0]);
        { assert rest[..2][..1] == rest[..1]; assert PathFlux(rest[..1], w) == 0.0; }
        w(rest[0], rest[1]) + w(rest[1], rest[2]) + w(rest[2], rest[0]);
      }
    }
  }

  /** The loop as its triangles are oriented: turned over when its projected area is negative. */
  ghost function Oriented(points: seq<Vec3>, frame: Frame, loop: seq<nat>): (r: seq<nat>) {
    if CycleFlux(loop, AreaForm(points, frame)) < 0.0 then Reversed(loop) else loop
  }

  /** Twice the signed area of a triangle of output points, projected. */
  ghost function CapArea(points: seq<Vec3>, frame: Frame, t: Tri<nat>): (r: real)
    requires t.a < |points| && t.b < |points| && t.c < |points|
  {
    Cross2(frame.Project(points[t.a]), frame.Project(points[t.b]), frame.Project(points[t.c]))
  }

  /** Corner ids of every triangle are among the first `n` points. */
  ghost predicate CornersExist(triangles: seq<Tri<nat>>, n: nat) {
    forall i :: 0 <= i < |triangles| ==> triangles[i].a < n && triangles[i].b < n && triangles[i].c < n
  }

  ghost function TotalArea(points: seq<Vec3>, frame: Frame, ts: seq<Tri<nat>>): (r: real)
    requires CornersExist(ts, |points|)
  {
    if ts == [] then 0.0
    else TotalArea(points, frame, ts[..|ts| - 1]) + CapArea(points, frame, ts[|ts| - 1])
  }

  lemma {:induction false} TotalIsFlux(points: seq<Vec3>, frame: Frame, ts: seq<Tri<nat>>)
    requires CornersExist(ts, |points|)
    ensures TotalArea(points, frame, ts) == TriFlux(ts, AreaForm(points, frame))
  {
    if ts != [] {
      var t := ts[|ts| - 1];
      TotalIsFlux(points, frame, ts[..|ts| - 1]);
      CrossIsFlux(points, frame, t.a, t.b, t.c);
    }
  }

  /** Triangles that fill the oriented loop add up to the loop's projected area, taken positive. */
  lemma {:induction false} FilledArea(points: seq<Vec3>, frame: Frame, loop: seq<nat>, caps: seq<Tri<nat>>)
    requires CornersExist(caps, |points|) && Fills(caps, Oriented(points, frame, loop))
    ensures TotalArea(points, frame, caps) == Abs(CycleFlux(loop, AreaForm(points, frame)))
  {
    var w := AreaForm(points, frame);
    ReversedCycleFlux(loop, w);
    TotalIsFlux(points, frame, caps);
    assert TriFlux(caps, w) == CycleFlux(Oriented(points, frame, loop), w);
  }

  /** Reverses the position array in place by swapping its halves. */
  method ReverseInPlace(a: array<nat>)
    modifies a
    ensures a[..] == Reversed(old(a[..]))
  {
    var n := a.Length;
    for i := 0 to n / 2
      invariant forall k :: 0 <= k < n ==> a[k] == if k < i || k >= n - i then old(a[n - 1 - k]) else old(a[k])
    {
      a[i], a[n - 1 - i] := a[n - 1 - i], a[i];
    }
  }

  /** Cuts position `ear` out of the first `count` positions, closing the gap. */
  method RemoveAt(a: array<nat>, count: nat, ear: nat)
    requires ear < count <= a.Length
    modifies a
    ensures a[..count - 1] == old(a[..count])[..ear] + old(a[..count])[ear + 1..]
  {
    forall i | ear <= i < count - 1 {
      a[i] := a[i + 1];
    }
  }

  ghost predicate Distinct(s: seq<nat>) {
    forall i, j :: 0 <= i < j < |s| ==> s[i] != s[j]
  }

  ghost predicate CornersFrom(t: Tri<nat>, loop: seq<nat>) {
    t.a in loop && t.b in loop && t.c in loop
  }

  ghost predicate Proper(t: Tri<nat>) {
    t.a != t.b && t.b != t.c && t.c != t.a
  }

  /** No vertex of some remaining polygon of more than three corners can be cut off. */
  ghost predicate Stuck(rest: seq<nat>, xy: seq<Vec2>) {
    && |rest| > 3
    && (forall i :: 0 <= i < |rest| ==> rest[i] < |xy|)
    && forall k :: 0 <= k < |rest| ==> !IsEar(rest, k, xy)
  }

  function Without(rest: seq<nat>, k: nat): (r: seq<nat>)
    requires k < |rest|
  {
    rest[..k] + rest[k + 1..]
  }

  /** The first ear at or after position k, or the number of positions when there is none. */
  ghost function FirstEar(rest: seq<nat>, xy: seq<Vec2>, k: nat): (ear: nat)
    requires k <= |rest| && forall i :: 0 <= i < |rest| ==> rest[i] < |xy|
    ensures k <= ear <= |rest| && (ear < |rest| ==> IsEar(rest, ear, xy)) && forall j :: k <= j < ear ==> !IsEar(rest, j, xy)
    decreases |rest| - k
  {
    if k == |rest| || IsEar(rest, k, xy) then k else FirstEar(rest, xy, k + 1)
  }

  /** What is left decides whether clipping comes to its end: it does if and only if `clips`. */
  ghost predicate Decides(status: CapStatus, clips: bool, rest: seq<nat>, xy: seq<Vec2>) {
    && (forall i :: 0 <= i < |rest| ==> rest[i] < |xy|)
    && if status == Done then clips == Clips(rest, xy) else status == NoEar ==> !clips && Stuck(rest, xy)
  }

  lemma FirstEarIs(rest: seq<nat>, xy: seq<Vec2>, ear: nat)
    requires ear <= |rest| && forall i :: 0 <= i < |rest| ==> rest[i] < |xy|
    requires (ear < |rest| ==> IsEar(rest, ear, xy)) && forall j :: 0 <= j < ear ==> !IsEar(rest, j, xy)
    ensures ear == FirstEar(rest, xy, 0)
  {
  }

  /** Cutting off the first ear again and again comes down to three corners. */
  ghost predicate Clips(rest: seq<nat>, xy: seq<Vec2>)
    requires forall i :: 0 <= i < |rest| ==> rest[i] < |xy|
    decreases |rest|
  {
    |rest| <= 3 || (var k := FirstEar(rest, xy, 0); k < |rest| && Clips(Without(rest, k), xy))
  }

  lemma DecidesNext(clips: bool, rest: seq<nat>, ear: nat, xy: seq<Vec2>)
    requires |rest| > 3 && Decides(Done, clips, rest, xy) && ear == FirstEar(rest, xy, 0)
    ensures ear == |rest| ==> Decides(NoEar, clips, rest, xy)
    ensures ear < |rest| ==> Decides(Done, clips, Without(rest, ear), xy)
  {
  }

  /** Ear clipping of the oriented loop has come to a polygon of more than three corners without an ear. */
  ghost predicate OutOfEars(caps: seq<Tri<nat>>, loop: seq<nat>, oriented: seq<nat>, xy: seq<Vec2>) {
    exists rest :: Clipping(caps, rest, loop, oriented) && Stuck(rest, xy)
  }

  /** Every one of these triangles turns left by more than the tolerance. */
  ghost predicate Turning(caps: seq<Tri<nat>>, points: seq<Vec3>, frame: Frame) {
    CornersExist(caps, |points|) && forall i :: 0 <= i < |caps| ==> CapArea(points, frame, caps[i]) > MIN_AREA
  }

  ghost function Coordinates(points: seq<Vec3>, loop: seq<nat>, frame: Frame): (r: seq<Vec2>)
    requires InLoop(loop, points)
  {
    seq(|loop|, i requires 0 <= i < |loop| => frame.Project(points[loop[i]]))
  }

  /** The positions of a loop of n points in the order that they are clipped in. */
  function StartPositions(n: nat, reverse: bool): (r: seq<nat>)
    ensures |r| == n && forall i :: 0 <= i < n ==> r[i] == if reverse then n - 1 - i else i
  {
    seq(n, i requires 0 <= i < n => if reverse then n - 1 - i else i)
  }

  /** A loop that is filled: it takes no triangle, or it has an area and ear clipping never runs out of ears. */
  ghost predicate Fillable(points: seq<Vec3>, frame: Frame, loop: seq<nat>)
    requires InLoop(loop, points)
  {
    var area := CycleFlux(loop, AreaForm(points, frame));
    |loop| < 3 || (Abs(area) > MIN_AREA && Clips(StartPositions(|loop|, area < 0.0), Coordinates(points, loop, frame)))
  }

  /** Facts about the triangles emitted so far for one loop. */
  ghost predicate CapsOk(caps: seq<Tri<nat>>, loop: seq<nat>) {
    && (forall i :: 0 <= i < |caps| ==> CornersFrom(caps[i], loop))
    && (Distinct(loop) ==> forall i :: 0 <= i < |caps| ==> Proper(caps[i]))
  }

  ghost predicate Positions(rest: seq<nat>, loop: seq<nat>) {
    (forall i :: 0 <= i < |rest| ==> rest[i] < |loop|) && Distinct(rest)
  }

  lemma CornersAreProper(rest: seq<nat>, loop: seq<nat>, p: nat, c: nat, q: nat)
    requires Positions(rest, loop) && p < |rest| && c < |rest| && q < |rest| && p != c && c != q && q != p
    ensures CapsOk([Tri(loop[rest[p]], loop[rest[c]], loop[rest[q]])], loop)
  {
    assert rest[p] != rest[c] && rest[c] != rest[q] && rest[q] != rest[p];
  }

  lemma RemovedPositions(rest: seq<nat>, k: nat, loop: seq<nat>)
    requires Positions(rest, loop) && k < |rest|
    ensures Positions(rest[..k] + rest[k + 1..], loop)
    ensures Ids(loop, rest[..k] + rest[k + 1..]) == Ids(loop, rest)[..k] + Ids(loop, rest)[k + 1..]
  {
  }

  /** Loop state: emitted triangles plus the remaining polygon account for the oriented loop. */
  ghost predicate Clipping(caps: seq<Tri<nat>>, rest: seq<nat>, loop: seq<nat>, oriented: seq<nat>) {
    && Positions(rest, loop)
    && |caps| + |rest| == |loop|
    && CapsOk(caps, loop)
    && Residue(caps, Ids(loop, rest), oriented)
  }

  lemma EarCut(caps: seq<Tri<nat>>, rest: seq<nat>, ear: nat, loop: seq<nat>, oriented: seq<nat>, t: Tri<nat>)
    requires Clipping(caps, rest, loop, oriented) && |rest| > 3 && ear < |rest|
    requires var p, q := Before(ear, |rest|), After(ear, |rest|);
             t == Tri(loop[rest[p]], loop[rest[ear]], loop[rest[q]])
    ensures Clipping(caps + [t], rest[..ear] + rest[ear + 1..], loop, oriented)
  {
    CornersAreProper(rest, loop, Before(ear, |rest|), ear, After(ear, |rest|));
    ClipStep(caps, Ids(loop, rest), ear, oriented);
    RemovedPositions(rest, ear, loop);
    CapsAppend(caps, t, loop);
  }

  lemma CapsAppend(caps: seq<Tri<nat>>, t: Tri<nat>, loop: seq<nat>)
    requires CapsOk(caps, loop) && CapsOk([t], loop)
    ensures CapsOk(caps + [t], loop)
  {
    assert [t][0] == t;
  }

  lemma Finished(caps: seq<Tri<nat>>, rest: seq<nat>, loop: seq<nat>, oriented: seq<nat>, t: Tri<nat>)
    requires Clipping(caps, rest, loop, oriented) && |rest| == 3
    requires t == Tri(loop[rest[0]], loop[rest[1]], loop[rest[2]])
    ensures Fills(caps + [t], oriented) && CapsOk(caps + [t], loop)
  {
    CornersAreProper(rest, loop, 0, 1, 2);
    LastTriangle(caps, Ids(loop, rest), oriented);
    CapsAppend(caps, t, loop);
  }

  lemma StartClipping(loop: seq<nat>, rest: seq<nat>, reverse: bool)
    requires rest == StartPositions(|loop|, reverse)
    ensures Clipping([], rest, loop, if reverse then Reversed(loop) else loop)
  {
    assert Ids(loop, rest) == if reverse then Reversed(loop) else loop;
  }

  /** Cap triangles have no source triangle. */
  function NoSources(n: nat): (s: seq<Option<nat>>)
    ensures |s| == n && forall i :: 0 <= i < n ==> s[i] == None
  {
    seq(n, _ => None)
  }

  /** `caps`, without sources, have been appended to the mesh. */
  ghost predicate CapsAdded(ts: seq<Tri<nat>>, ids: seq<Option<nat>>, ts': seq<Tri<nat>>, ids': seq<Option<nat>>,
                            caps: seq<Tri<nat>>) {
    ts' == ts + caps && ids' == ids + NoSources(|caps|)
  }

  lemma AppendCaps(ts: seq<Tri<nat>>, ids: seq<Option<nat>>, ts': seq<Tri<nat>>, ids': seq<Option<nat>>,
                   caps: seq<Tri<nat>>, more: seq<Tri<nat>>)
    requires CapsAdded(ts, ids, ts', ids', caps)
    ensures CapsAdded(ts, ids, ts' + more, ids' + NoSources(|more|), caps + more)
  {
    assert NoSources(|caps + more|) == NoSources(|caps|) + NoSources(|more|);
  }

  /** Fills `remaining` with the loop positions, in the direction of positive area. */
  method StartOrder(loop: seq<nat>, reverse: bool) returns (remaining: array<nat>)
    ensures fresh(remaining) && remaining.Length == |loop| && remaining[..] == StartPositions(|loop|, reverse)
    ensures Clipping([], remaining[..], loop, if reverse then Reversed(loop) else loop)
  {
    remaining := new nat[|loop|](i => i);
    if reverse {
      ReverseInPlace(remaining);
    }
    assert remaining[..] == StartPositions(|loop|, reverse);
    StartClipping(loop, remaining[..], reverse);
  }

  /** What triangulating one loop comes to: its area and the ears along the way decide. */
  ghost predicate LoopResult(status: CapStatus, caps: seq<Tri<nat>>, points: seq<Vec3>, frame: Frame, loop: seq<nat>) {
    && InLoop(loop, points) && CapsOk(caps, loop) && |caps| <= |loop|
    && (if Fillable(points, frame, loop) then status == Done || status == CapacityExceeded
        else status == ZeroArea || status == NoEar || status == CapacityExceeded)
    && (status == ZeroArea <==> |loop| >= 3 && Abs(CycleFlux(loop, AreaForm(points, frame))) <= MIN_AREA)
    && (status == NoEar ==> OutOfEars(caps, loop, Oriented(points, frame, loop), Coordinates(points, loop, frame)))
    && (status == Done && |loop| < 3 ==> caps == [])
    && (status == Done && |loop| >= 3 ==>
         |caps| == |loop| - 2 && Fills(caps, Oriented(points, frame, loop)) && Turning(caps[..|loop| - 3], points, frame))
  }

  /**
   * Triangulates one loop of output point ids.  Loops of fewer than three points add nothing.
   * On success n - 2 triangles are appended, all of them cap triangles (no source), and they fill
   * the loop turned to positive area; the buffer can only be full when the loop did not fit in it.
   */
  method TriangulateCapLoop(output: ClipOutput, loop: seq<nat>, frame: Frame, capacity: nat)
    returns (status: CapStatus, ghost caps: seq<Tri<nat>>)
    requires output.Valid() && InLoop(loop, output.points)
    modifies output`triangles, output`sourceIds
    ensures output.Valid()
    ensures CapsAdded(old(output.triangles), old(output.sourceIds), output.triangles, output.sourceIds, caps)
    ensures LoopResult(status, caps, output.points, frame, loop)
    ensures status == CapacityExceeded ==> |old(output.triangles)| + |loop| - 2 > capacity
  {
    var n := |loop|;
    caps := [];
    if n < 3 {
      return Done, caps;
    }
    var xy, area := MeasureLoop(output.points, loop, frame);
    assert xy[..] == Coordinates(output.points, loop, frame);
    if Abs(area) <= MIN_AREA {
      return ZeroArea, caps;
    }
    status, caps := FillLoop(output, loop, xy[..], area < 0.0, capacity, frame,
                             Oriented(output.points, frame, loop));
  }

  /** Clips ears from the loop taken in the given direction, then emits the last three corners. */
  method FillLoop(output: ClipOutput, loop: seq<nat>, xy: seq<Vec2>, reverse: bool, capacity: nat, ghost frame: Frame,
                  ghost oriented: seq<nat>)
    returns (status: CapStatus, ghost caps: seq<Tri<nat>>)
    requires output.Valid() && |loop| >= 3 && InLoop(loop, output.points) && xy == Coordinates(output.points, loop, frame)
    requires oriented == if reverse then Reversed(loop) else loop
    modifies output`triangles, output`sourceIds
    ensures output.Valid() && CapsOk(caps, loop) && |caps| <= |loop|
    ensures CapsAdded(old(output.triangles), old(output.sourceIds), output.triangles, output.sourceIds, caps)
    ensures status == NoEar ==> OutOfEars(caps, loop, oriented, xy)
    ensures status == CapacityExceeded ==> |old(output.triangles)| + |loop| - 2 > capacity
    ensures status == Done || status == NoEar || status == CapacityExceeded
    ensures if Clips(StartPositions(|loop|, reverse), xy) then status != NoEar else status != Done
    ensures status == Done ==> |caps| == |loop| - 2 && Fills(caps, oriented)
    ensures status == Done ==> Turning(caps[..|loop| - 3], output.points, frame)
  {
    var remaining := StartOrder(loop, reverse);
    ghost var clips := Clips(remaining[..], xy);
    var count;
    status, count, caps := ClipEars(output, loop, remaining, xy, capacity, oriented, frame, clips);
    if status == Done {
      status, caps := EmitLast(output, loop, remaining[..3], capacity, old(output.triangles), old(output.sourceIds),
                               caps, oriented, xy, frame, clips);
    } else {
      GoingStops(status, clips, caps, remaining[..count], loop, oriented, xy, output.points, frame);
    }
  }

  lemma GoingStops(status: CapStatus, clips: bool, caps: seq<Tri<nat>>, rest: seq<nat>, loop: seq<nat>,
                   oriented: seq<nat>, xy: seq<Vec2>, points: seq<Vec3>, frame: Frame)
    requires Going(status, clips, caps, rest, loop, oriented, xy, points, frame)
    ensures CapsOk(caps, loop) && |caps| + |rest| == |loop|
    ensures status == NoEar ==> OutOfEars(caps, loop, oriented, xy) && !clips
  {
  }

  /** Emits the three corners that are left. */
  method EmitLast(output: ClipOutput, loop: seq<nat>, rest: seq<nat>, capacity: nat, ghost ts: seq<Tri<nat>>,
                  ghost ids: seq<Option<nat>>, ghost caps: seq<Tri<nat>>, ghost oriented: seq<nat>,
                  ghost xy: seq<Vec2>, ghost frame: Frame, ghost clips: bool)
    returns (status: CapStatus, ghost caps': seq<Tri<nat>>)
    requires output.Valid() && |rest| == 3 && Going(Done, clips, caps, rest, loop, oriented, xy, output.points, frame)
    requires CapsAdded(ts, ids, output.triangles, output.sourceIds, caps)
    modifies output`triangles, output`sourceIds
    ensures output.Valid() && CapsOk(caps', loop) && |caps'| <= |loop| && clips
    ensures CapsAdded(ts, ids, output.triangles, output.sourceIds, caps')
    ensures status == Done || (status == CapacityExceeded && |old(output.sourceIds)| >= capacity)
    ensures status == Done ==> |caps'| == |loop| - 2 && Fills(caps', oriented)
    ensures status == Done ==> Turning(caps'[..|loop| - 3], output.points, frame)
  {
    var t := Tri(loop[rest[0]], loop[rest[1]], loop[rest[2]]);
    Finished(caps, rest, loop, oriented, t);
    var ok := output.AddTriangle(t, None, capacity);
    if !ok {
      return CapacityExceeded, caps;
    }
    AppendLast(ts, ids, caps, t);
    status, caps' := Done, caps + [t];
    assert caps'[..|loop| - 3] == caps;
  }

  lemma AppendLast(ts: seq<Tri<nat>>, ids: seq<Option<nat>>, caps: seq<Tri<nat>>, t: Tri<nat>)
    ensures ts + (caps + [t]) == ts + caps + [t]
    ensures ids + NoSources(|caps + [t]|) == ids + NoSources(|caps|) + [None]
  {
  }

  /** The state of clipping: what is emitted, what remains, and what that decides. */
  ghost predicate Going(status: CapStatus, clips: bool, caps: seq<Tri<nat>>, rest: seq<nat>, loop: seq<nat>,
                        oriented: seq<nat>, xy: seq<Vec2>, points: seq<Vec3>, frame: Frame) {
    && Clipping(caps, rest, loop, oriented) && Turning(caps, points, frame)
    && Decides(status, clips, rest, xy)
  }

  /** Emits the triangle at the first ear and drops its corner from the remaining polygon. */
  method ClipFirstEar(output: ClipOutput, loop: seq<nat>, remaining: array<nat>, count: nat, xy: seq<Vec2>,
                      capacity: nat, ghost ts: seq<Tri<nat>>, ghost ids: seq<Option<nat>>, ghost caps: seq<Tri<nat>>,
                      ghost oriented: seq<nat>, ghost frame: Frame, ghost clips: bool)
    returns (status: CapStatus, left: nat, ghost caps': seq<Tri<nat>>)
    requires output.Valid() && 3 < count <= remaining.Length
    requires InLoop(loop, output.points) && xy == Coordinates(output.points, loop, frame)
    requires Going(Done, clips, caps, remaining[..count], loop, oriented, xy, output.points, frame)
    requires CapsAdded(ts, ids, output.triangles, output.sourceIds, caps)
    modifies output`triangles, output`sourceIds, remaining
    ensures output.Valid()
    ensures left <= count && Going(status, clips, caps', remaining[..left], loop, oriented, xy, output.points, frame)
    ensures CapsAdded(ts, ids, output.triangles, output.sourceIds, caps')
    ensures left == if status == Done then count - 1 else count
    ensures status == CapacityExceeded ==> |output.sourceIds| >= capacity
    ensures status == Done || status == NoEar || status == CapacityExceeded
  {
    left, caps' := count, caps;
    ghost var rest := remaining[..count];
    var ear := FindEar(remaining[..count], xy);
    FirstEarIs(rest, xy, ear);
    DecidesNext(clips, rest, ear, xy);
    if ear == count {
      return NoEar, left, caps';
    }
    EarTurns(output.points, frame, loop, rest, ear, xy, caps);
    var ok;
    ghost var t;
    ok, t := CutEar(output, loop, remaining, count, ear, capacity, caps, oriented);
    if !ok {
      return CapacityExceeded, left, caps';
    }
    status, left, caps' := Done, count - 1, caps + [t];
    AppendLast(ts, ids, caps, t);
  }

  /** The triangle at one corner of what remains. */
  function CornerAt(loop: seq<nat>, rest: seq<nat>, k: nat): (r: Tri<nat>)
    requires k < |rest| && forall i :: 0 <= i < |rest| ==> rest[i] < |loop|
  {
    Tri(loop[rest[Before(k, |rest|)]], loop[rest[k]], loop[rest[After(k, |rest|)]])
  }

  lemma EarTurns(points: seq<Vec3>, frame: Frame, loop: seq<nat>, rest: seq<nat>, k: nat, xy: seq<Vec2>,
                 caps: seq<Tri<nat>>)
    requires InLoop(loop, points) && xy == Coordinates(points, loop, frame) && k < |rest|
    requires (forall i :: 0 <= i < |rest| ==> rest[i] < |loop|) && IsEar(rest, k, xy)
    ensures Turning(caps, points, frame) ==> Turning(caps + [CornerAt(loop, rest, k)], points, frame)
  {
    assert xy[rest[k]] == frame.Project(points[loop[rest[k]]]);
  }

  /** Emits the triangle at an ear and drops its corner from the remaining polygon. */
  method CutEar(output: ClipOutput, loop: seq<nat>, remaining: array<nat>, count: nat, ear: nat, capacity: nat,
                ghost caps: seq<Tri<nat>>, ghost oriented: seq<nat>)
    returns (ok: bool, ghost t: Tri<nat>)
    requires output.Valid() && 3 < count <= remaining.Length && ear < count
    requires Clipping(caps, remaining[..count], loop, oriented)
    modifies output`triangles, output`sourceIds, remaining
    ensures output.Valid()
    ensures t == CornerAt(loop, old(remaining[..count]), ear)
    ensures ok <==> |old(output.sourceIds)| < capacity
    ensures ok ==> output.triangles == old(output.triangles) + [t]
    ensures ok ==> output.sourceIds == old(output.sourceIds) + [None]
    ensures ok ==> Clipping(caps + [t], remaining[..count - 1], loop, oriented)
    ensures ok ==> remaining[..count - 1] == Without(old(remaining[..count]), ear)
    ensures !ok ==> output.triangles == old(output.triangles) && output.sourceIds == old(output.sourceIds)
    ensures !ok ==> remaining[..count] == old(remaining[..count])
  {
    var p, q := (ear + count - 1) % count, (ear + 1) % count;
    assert p == Before(ear, count) && q == After(ear, count);
    var corner := Tri(loop[remaining[p]], loop[remaining[ear]], loop[remaining[q]]);
    t := corner;
    ok := output.AddTriangle(corner, None, capacity);
    if ok {
      EarCut(caps, remaining[..count], ear, loop, oriented, t);
      RemoveAt(remaining, count, ear);
    }
  }

  /** The main loop: cut off the first ear until three corners remain. */
  method ClipEars(output: ClipOutput, loop: seq<nat>, remaining: array<nat>, xy: seq<Vec2>, capacity: nat,
                  ghost oriented: seq<nat>, ghost frame: Frame, ghost clips: bool)
    returns (status: CapStatus, count: nat, ghost caps: seq<Tri<nat>>)
    requires output.Valid() && remaining.Length == |loop| >= 3
    requires InLoop(loop, output.points) && xy == Coordinates(output.points, loop, frame)
    requires Going(Done, clips, [], remaining[..], loop, oriented, xy, output.points, frame)
    modifies output`triangles, output`sourceIds, remaining
    ensures output.Valid() && 3 <= count <= |loop|
    ensures Going(status, clips, caps, remaining[..count], loop, oriented, xy, output.points, frame)
    ensures CapsAdded(old(output.triangles), old(output.sourceIds), output.triangles, output.sourceIds, caps)
    ensures status == Done ==> count == 3
    ensures status == CapacityExceeded ==> count > 3 && |output.sourceIds| >= capacity
    ensures status == Done || status == NoEar || status == CapacityExceeded
  {
    count, caps, status := |loop|, [], Done;
    assert remaining[..count] == remaining[..];
    ghost var ts, ids := output.triangles, output.sourceIds;
    while count > 3 && status == Done
      invariant 3 <= count <= |loop| && output.Valid()
      invariant Going(status, clips, caps, remaining[..count], loop, oriented, xy, output.points, frame)
      invariant CapsAdded(ts, ids, output.triangles, output.sourceIds, caps)
      invariant status == CapacityExceeded ==> count > 3 && |output.sourceIds| >= capacity
      invariant status == Done || status == NoEar || status == CapacityExceeded
      decreases count, status == Done
    {
      status, count, caps := ClipFirstEar(output, loop, remaining, count, xy, capacity, ts, ids, caps, oriented, frame,
                                          clips);
    }
  }
}
