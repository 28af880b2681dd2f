/**
 * The plane clip filter: every triangle is clipped, cut vertices are merged, and with caps on the
 * cut segments are traced and filled.
 */
module ClipFilter {
  import opened Geometry
  import opened Chains
  import opened ClipOutputs
  import opened EarClip
  import opened CapLoops
  import opened ClipTriangles
  import CapFilling
  import EdgeKeys

  predicate Keep(distance: real, insideOut: bool) {
    if insideOut then distance <= 0.0 else distance >= 0.0
  }

  ghost function KeptSideOf(input: seq<Vec3>, plane: Plane, insideOut: bool): (r: Side) {
    (p: nat) => p < |input| && Keep(plane.Distance(input[p]), insideOut)
  }

  /** The cut vertex of an edge, with its parameter clamped to the edge. */
  function Intersection(a: nat, b: nat, da: real, db: real): (r: ClipVertex) {
    var t := if da - db != 0.0 then da / (da - db) else 0.5;
    OnEdge(a, b, if t < 0.0 then 0.0 else if t > 1.0 then 1.0 else t)
  }

  lemma Blend(u: real, v: real, t: real)
    ensures u + (v - u) * t == v + (u - v) * (1.0 - t)
  {
  }

  lemma Quotients(da: real, db: real)
    requires da != db
    ensures db / (db - da) == 1.0 - da / (da - db)
  {
    var d := da - db;
    var u, v, w := da / d, db / d, db / -d;
    assert u * d == da && v * d == db && w * -d == db;
    Cancel(u - v, 1.0, d);
    Cancel(w, -v, d);
    assert -d == db - da;
  }

  /** Measuring the crossing from either end gives the same point. */
  lemma PositionSymmetric(input: seq<Vec3>, plane: Plane, a: nat, b: nat)
    requires a < |input| && b < |input|
    requires plane.Distance(input[a]) != plane.Distance(input[b])
    ensures var da, db := plane.Distance(input[a]), plane.Distance(input[b]);
            PointAt(input, a, b, da / (da - db)) == Position(input, plane, CrossingOf(a, b))
  {
    var da, db := plane.Distance(input[a]), plane.Distance(input[b]);
    if a > b {
      Quotients(da, db);
      Blend(input[a].x, input[b].x, da / (da - db));
      Blend(input[a].y, input[b].y, da / (da - db));
      Blend(input[a].z, input[b].z, da / (da - db));
    }
  }

  lemma QuotientInUnit(da: real, db: real, insideOut: bool)
    requires Keep(da, insideOut) != Keep(db, insideOut)
    ensures da != db && 0.0 <= da / (da - db) <= 1.0
  {
    var d := da - db;
    var t := da / d;
    assert t * d == da;
    if d > 0.0 {
      assert t < 0.0 ==> t * d < 0.0;
      assert t > 1.0 ==> t * d > d;
    } else {
      assert t < 0.0 ==> t * d > 0.0;
      assert t > 1.0 ==> t * d < d;
    }
  }

  /** On an edge whose ends are kept differently the clamp never acts. */
  lemma IntersectionPosition(input: seq<Vec3>, plane: Plane, insideOut: bool, a: nat, b: nat)
    requires a < |input| && b < |input|
    requires Keep(plane.Distance(input[a]), insideOut) != Keep(plane.Distance(input[b]), insideOut)
    ensures var v := Intersection(a, b, plane.Distance(input[a]), plane.Distance(input[b]));
            v.Origin() == CrossingOf(a, b) &&
            PointAt(input, a, b, v.t) == Position(input, plane, CrossingOf(a, b))
  {
    QuotientInUnit(plane.Distance(input[a]), plane.Distance(input[b]), insideOut);
    PositionSymmetric(input, plane, a, b);
  }

  lemma DistanceAlong(plane: Plane, p: Vec3, q: Vec3, t: real)
    ensures plane.Distance(p.Plus(q.Minus(p).Scale(t)))
            == plane.Distance(p) + (plane.Distance(q) - plane.Distance(p)) * t
  {
    var n := plane.normal;
    assert n.x * (p.x + (q.x - p.x) * t) == n.x * p.x + (n.x * q.x - n.x * p.x) * t;
    assert n.y * (p.y + (q.y - p.y) * t) == n.y * p.y + (n.y * q.y - n.y * p.y) * t;
    assert n.z * (p.z + (q.z - p.z) * t) == n.z * p.z + (n.z * q.z - n.z * p.z) * t;
  }

  /** Every wanted vertex is on the kept side, and cut vertices are exactly on the plane. */
  lemma WantedIsKept(input: seq<Vec3>, plane: Plane, insideOut: bool, o: Origin)
    requires match o case Corner(p) => p < |input| case Crossing(lo, hi) => lo < |input| && hi < |input|
    requires Wanted(KeptSideOf(input, plane, insideOut), o)
    ensures Keep(plane.Distance(Position(input, plane, o)), insideOut)
    ensures o.Crossing? ==> plane.Distance(Position(input, plane, o)) == 0.0
  {
    if o.Crossing? {
      var da, db := plane.Distance(input[o.lo]), plane.Distance(input[o.hi]);
      QuotientInUnit(da, db, insideOut);
      DistanceAlong(plane, input[o.lo], input[o.hi], da / (da - db));
      assert da / (da - db) * (da - db) == da;
    }
  }

  /** The output mesh and segments are the fans and cuts, read through the vertex ids. */
  ghost predicate LiftsTo(origins: seq<Origin>, ts: seq<Tri<nat>>, fans: seq<Tri<Origin>>) {
    && |ts| == |fans|
    && forall i :: 0 <= i < |ts| ==>
         && ts[i].a < |origins| && ts[i].b < |origins| && ts[i].c < |origins|
         && fans[i] == Tri(origins[ts[i].a], origins[ts[i].b], origins[ts[i].c])
  }

  ghost predicate SegmentsLiftTo(origins: seq<Origin>, ss: seq<Segment<nat>>, cuts: seq<Segment<Origin>>) {
    && |ss| == |cuts|
    && forall i :: 0 <= i < |ss| ==>
         && ss[i].a < |origins| && ss[i].b < |origins|
         && cuts[i] == Segment(origins[ss[i].a], origins[ss[i].b])
  }

  lemma {:induction false} LiftSides(origins: seq<Origin>, ts: seq<Tri<nat>>, fans: seq<Tri<Origin>>, x: nat, y: nat)
    requires Injective(origins) && LiftsTo(origins, ts, fans) && x < |origins| && y < |origins|
    ensures SideCount(ts, x, y) == SideCount(fans, origins[x], origins[y])
  {
    if ts != [] {
      LiftSides(origins, ts[..|ts| - 1], fans[..|fans| - 1], x, y);
    }
  }

  lemma {:induction false} LiftSegments(origins: seq<Origin>, ss: seq<Segment<nat>>, cuts: seq<Segment<Origin>>,
                                        x: nat, y: nat)
    requires Injective(origins) && SegmentsLiftTo(origins, ss, cuts) && x < |origins| && y < |origins|
    ensures SegmentSides(ss, x, y) == SegmentSides(cuts, origins[x], origins[y])
    ensures Degree(ss, x) == Degree(cuts, origins[x])
  {
    if ss != [] {
      LiftSegments(origins, ss[..|ss| - 1], cuts[..|cuts| - 1], x, y);
    }
  }

  function Origins(polygon: seq<ClipVertex>): (r: seq<Origin>) {
    seq(|polygon|, i requires 0 <= i < |polygon| => polygon[i].Origin())
  }

  ghost predicate AllPlaceable(input: seq<Vec3>, plane: Plane, polygon: seq<ClipVertex>) {
    forall i :: 0 <= i < |polygon| ==> Placeable(input, plane, polygon[i])
  }

  ghost predicate InputTriangle(input: seq<Vec3>, t: Tri<nat>) {
    t.a < |input| && t.b < |input| && t.c < |input|
  }

  /** The vertices contributed by one directed side, as the body of the side loop pushes them. */
  method ClipSide(input: seq<Vec3>, plane: Plane, insideOut: bool, s: nat, e: nat) returns (part: seq<ClipVertex>)
    requires s < |input| && e < |input|
    ensures var inside := KeptSideOf(input, plane, insideOut);
            Origins(part) == SidePart(s, e, inside(s), inside(e))
    ensures AllPlaceable(input, plane, part)
  {
    var ds, de := plane.Distance(input[s]), plane.Distance(input[e]);
    var sIn, eIn := Keep(ds, insideOut), Keep(de, insideOut);
    part := [];
    if sIn && eIn {
      part := [Original(e)];
    } else if sIn && !eIn {
      IntersectionPosition(input, plane, insideOut, s, e);
      part := [Intersection(s, e, ds, de)];
    } else if !sIn && eIn {
      IntersectionPosition(input, plane, insideOut, s, e);
      part := [Intersection(s, e, ds, de), Original(e)];
    }
  }

  lemma OriginsConcat(p: seq<ClipVertex>, q: seq<ClipVertex>)
    ensures Origins(p + q) == Origins(p) + Origins(q)
  {
  }

  function CornerAt(t: Tri<nat>, k: nat): (r: nat)
    requires k < 3
  {
    if k == 0 then t.a else if k == 1 then t.b else t.c
  }

  method ClipPolygon(input: seq<Vec3>, plane: Plane, insideOut: bool, t: Tri<nat>) returns (polygon: seq<ClipVertex>)
    requires InputTriangle(input, t)
    ensures Origins(polygon) == PolygonOf(t, KeptSideOf(input, plane, insideOut))
    ensures AllPlaceable(input, plane, polygon)
  {
    ghost var inside := KeptSideOf(input, plane, insideOut);
    polygon := [];
    for edge := 0 to 3
      invariant Origins(polygon) == FirstParts(t, inside, edge)
      invariant AllPlaceable(input, plane, polygon)
    {
      var s, e := CornerAt(t, edge), CornerAt(t, (edge + 1) % 3);
      var part := ClipSide(input, plane, insideOut, s, e);
      OriginsConcat(polygon, part);
      NextPart(t, inside, edge);
      polygon := polygon + part;
    }
  }

  lemma NextPart(t: Tri<nat>, inside: Side, k: nat)
    requires k < 3
    ensures var s, e := CornerAt(t, k), CornerAt(t, (k + 1) % 3);
            FirstParts(t, inside, k + 1) == FirstParts(t, inside, k) + SidePart(s, e, inside(s), inside(e))
  {
  }

  /** Polygon vertices contributed by the first `k` sides. */
  ghost function FirstParts(t: Tri<nat>, inside: Side, k: nat): (r: seq<Origin>) {
    if k == 0 then []
    else if k == 1 then SidePart(t.a, t.b, inside(t.a), inside(t.b))
    else if k == 2 then
      SidePart(t.a, t.b, inside(t.a), inside(t.b)) + SidePart(t.b, t.c, inside(t.b), inside(t.c))
    else PolygonOf(t, inside)
  }

  ghost predicate AddedFrom(before: seq<Origin>, origins: seq<Origin>, p: seq<Origin>) {
    forall k :: |before| <= k < |origins| ==> origins[k] in p
  }

  /** The first |ids| origins of `p` are the origins of the points `ids`. */
  ghost predicate IdsFor(origins: seq<Origin>, ids: seq<nat>, p: seq<Origin>) {
    |ids| <= |p| && forall i :: 0 <= i < |ids| ==> ids[i] < |origins| && origins[ids[i]] == p[i]
  }

  /** Gives every polygon vertex its output id. */
  method OutputIds(output: ClipOutput, polygon: seq<ClipVertex>) returns (ids: seq<nat>)
    requires output.Valid() && AllPlaceable(output.input, output.plane, polygon)
    modifies output, output.originalMap
    ensures output.Valid() && old(output.origins) <= output.origins
    ensures output.triangles == old(output.triangles) && output.sourceIds == old(output.sourceIds)
    ensures |ids| == |polygon| && IdsFor(output.origins, ids, Origins(polygon))
    ensures AddedFrom(old(output.origins), output.origins, Origins(polygon))
  {
    ids := [];
    for p := 0 to |polygon|
      invariant output.Valid() && old(output.origins) <= output.origins
      invariant output.triangles == old(output.triangles) && output.sourceIds == old(output.sourceIds)
      invariant |ids| == p && IdsFor(output.origins, ids, Origins(polygon))
      invariant AddedFrom(old(output.origins), output.origins, Origins(polygon))
    {
      ghost var before := output.origins;
      var id := output.OutputVertex(polygon[p]);
      NextId(old(output.origins), before, output.origins, ids, polygon, id);
      ids := ids + [id];
    }
  }

  lemma NextId(start: seq<Origin>, before: seq<Origin>, origins: seq<Origin>, ids: seq<nat>,
               polygon: seq<ClipVertex>, id: nat)
    requires |ids| < |polygon| && IdsFor(before, ids, Origins(polygon)) && start <= before
    requires AddedFrom(start, before, Origins(polygon))
    requires id < |origins| && origins[id] == polygon[|ids|].Origin()
    requires origins == before || origins == before + [polygon[|ids|].Origin()]
    ensures IdsFor(origins, ids + [id], Origins(polygon)) && start <= origins
    ensures AddedFrom(start, origins, Origins(polygon))
  {
    assert Origins(polygon)[|ids|] == polygon[|ids|].Origin();
  }

  lemma {:induction false} CrossingsPrefix(p: seq<Origin>, k: nat)
    requires k <= |p|
    ensures Crossings(p[..k]) <= Crossings(p)
    decreases |p|
  {
    if k < |p| {
      CrossingsPrefix(p[..|p| - 1], k);
      assert p[..|p| - 1][..k] == p[..k];
    } else {
      assert p[..k] == p;
    }
  }

  lemma NextCrossing(all: seq<Origin>, p: nat)
    requires p < |all| && |Crossings(all)| <= 2
    ensures Crossings(all[..p + 1]) == Crossings(all[..p]) + if all[p].Crossing? then [all[p]] else []
    ensures |Crossings(all[..p + 1])| <= 2
  {
    CrossingsPrefix(all, p + 1);
    assert all[..p + 1][..p] == all[..p];
  }

  /** The cut segment of a polygon, found by comparing output ids. */
  method CutSegment(polygon: seq<ClipVertex>, ids: seq<nat>, ghost origins: seq<Origin>) returns (cut: seq<Segment<nat>>)
    requires |ids| == |polygon| && Injective(origins) && |Crossings(Origins(polygon))| <= 2
    requires IdsFor(origins, ids, Origins(polygon))
    ensures SegmentsLiftTo(origins, cut, Cut(Origins(polygon)))
  {
    ghost var all := Origins(polygon);
    var first: nat, second: nat, count := 0, 0, 0;
    ghost var c: seq<Origin> := [];
    for p := 0 to |polygon|
      invariant c == Crossings(all[..p])
      invariant count == if c == [] then 0 else if |c| == 2 && c[0] != c[1] then 2 else 1
      invariant count >= 1 ==> first < |origins| && origins[first] == c[0]
      invariant count >= 2 ==> second < |origins| && origins[second] == c[1]
    {
      NextCrossing(all, p);
      c := c + if all[p].Crossing? then [all[p]] else [];
      if polygon[p].OnEdge? && (count == 0 || first != ids[p]) {
        if count == 0 {
          first := ids[p];
        } else if count == 1 {
          second := ids[p];
        }
        count := count + 1;
      }
    }
    assert all[..|polygon|] == all;
    cut := if count == 2 && first != second then [Segment(first, second)] else [];
  }

  lemma PolygonShape(t: Tri<nat>, inside: Side)
    ensures var p := PolygonOf(t, inside);
            && (p == [] || |p| == 3 || |p| == 4)
            && |Crossings(p)| <= 2
            && (p == [] ==> Fan(p) == [] && Cut(p) == [])
  {
    PolygonCases(t, inside(t.a), inside(t.b), inside(t.c));
    if PolygonOf(t, inside) != [] {
      ThreeOrFour(PolygonOf(t, inside));
    }
  }

  lemma FanLifts(origins: seq<Origin>, ids: seq<nat>, p: seq<Origin>)
    requires |ids| == |p| && (|p| == 3 || |p| == 4)
    requires IdsFor(origins, ids, p)
    ensures LiftsTo(origins, Fan(ids), Fan(p))
  {
  }

  function Sources(i: nat, n: nat): (s: seq<Option<nat>>)
    ensures |s| == n && forall k :: 0 <= k < n ==> s[k] == Some(i)
  {
    seq(n, _ => Some(i))
  }

  /** Fans the polygon out from its first vertex. */
  method EmitFan(output: ClipOutput, ids: seq<nat>, source: nat, capacity: nat) returns (ok: bool)
    requires output.Valid() && |ids| <= 4
    modifies output`triangles, output`sourceIds
    ensures output.Valid()
    ensures !ok ==> |old(output.sourceIds)| + 2 > capacity
    ensures ok ==> output.triangles == old(output.triangles) + Fan(ids)
    ensures ok ==> output.sourceIds == old(output.sourceIds) + Sources(source, |Fan(ids)|)
  {
    ok := true;
    var p := 1;
    while p + 1 < |ids|
      invariant 1 <= p && (p > 1 ==> p + 1 <= |ids|)
      invariant output.Valid()
      invariant output.triangles == old(output.triangles) + Fan(ids)[..p - 1]
      invariant output.sourceIds == old(output.sourceIds) + Sources(source, p - 1)
    {
      FanNext(ids, source, p);
      ok := output.AddTriangle(Tri(ids[0], ids[p], ids[p + 1]), Some(source), capacity);
      if !ok {
        return;
      }
      p := p + 1;
    }
    assert Fan(ids)[..p - 1] == Fan(ids);
  }

  lemma FanNext(ids: seq<nat>, source: nat, p: nat)
    requires 1 <= p && p + 1 < |ids| <= 4
    ensures p <= |Fan(ids)| && Fan(ids)[..p] == Fan(ids)[..p - 1] + [Tri(ids[0], ids[p], ids[p + 1])]
    ensures Sources(source, p) == Sources(source, p - 1) + [Some(source)]
  {
    assert Fan(ids)[p - 1] == Tri(ids[0], ids[p], ids[p + 1]);
  }

  /** What one triangle adds: its fan and cut segment, over vertices that stand for its polygon. */
  ghost predicate TriangleDone(before: seq<Origin>, origins: seq<Origin>, p: seq<Origin>, fan: seq<Tri<nat>>,
                               cut: seq<Segment<nat>>) {
    && before <= origins
    && AddedFrom(before, origins, p)
    && LiftsTo(origins, fan, Fan(p))
    && SegmentsLiftTo(origins, cut, Cut(p))
  }

  /** One iteration of the triangle loop. */
  method ClipTriangle(output: ClipOutput, insideOut: bool, t: Tri<nat>, i: nat, capacity: nat)
    returns (ok: bool, cut: seq<Segment<nat>>, ghost fan: seq<Tri<nat>>)
    requires output.Valid() && InputTriangle(output.input, t)
    modifies output, output.originalMap
    ensures output.Valid()
    ensures !ok ==> |old(output.sourceIds)| + 2 > capacity
    ensures ok ==> output.triangles == old(output.triangles) + fan
    ensures ok ==> output.sourceIds == old(output.sourceIds) + Sources(i, |fan|)
    ensures ok ==> TriangleDone(old(output.origins), output.origins,
                                PolygonOf(t, KeptSideOf(output.input, output.plane, insideOut)), fan, cut)
  {
    var polygon := ClipPolygon(output.input, output.plane, insideOut, t);
    ghost var p := PolygonOf(t, KeptSideOf(output.input, output.plane, insideOut));
    PolygonShape(t, KeptSideOf(output.input, output.plane, insideOut));
    ok, cut, fan := true, [], [];
    if |polygon| >= 3 {
      ok, cut, fan := EmitPolygon(output, polygon, i, capacity);
    }
  }

  method EmitPolygon(output: ClipOutput, polygon: seq<ClipVertex>, i: nat, capacity: nat)
    returns (ok: bool, cut: seq<Segment<nat>>, ghost fan: seq<Tri<nat>>)
    requires output.Valid() && AllPlaceable(output.input, output.plane, polygon)
    requires (|polygon| == 3 || |polygon| == 4) && |Crossings(Origins(polygon))| <= 2
    modifies output, output.originalMap
    ensures output.Valid()
    ensures !ok ==> |old(output.sourceIds)| + 2 > capacity
    ensures ok ==> output.triangles == old(output.triangles) + fan
    ensures ok ==> output.sourceIds == old(output.sourceIds) + Sources(i, |fan|)
    ensures ok ==> TriangleDone(old(output.origins), output.origins, Origins(polygon), fan, cut)
  {
    var ids := OutputIds(output, polygon);
    output.InjectiveOrigins();
    cut := CutSegment(polygon, ids, output.origins);
    FanLifts(output.origins, ids, Origins(polygon));
    fan := Fan(ids);
    ok := EmitFan(output, ids, i, capacity);
  }

  // ----- From the running relation to the filter's promises ---------------------------------

  /** State of the triangle loop after the triangles `ts`. */
  ghost predicate Progress(ts: seq<Tri<nat>>, inside: Side, origins: seq<Origin>, triangles: seq<Tri<nat>>,
                           sourceIds: seq<Option<nat>>, idCuts: seq<Segment<nat>>,
                           fans: seq<Tri<Origin>>, cuts: seq<Segment<Origin>>) {
    && FansAndCuts(ts, inside, fans, cuts)
    && LiftsTo(origins, triangles, fans)
    && SegmentsLiftTo(origins, idCuts, cuts)
    && (forall i :: 0 <= i < |origins| ==> Wanted(inside, origins[i]) && Reached(ts, inside, origins[i]))
    && sourceIds == AllSources(ts, inside)
  }

  /** The source of every triangle of the clipped surface: the input triangle whose fan it is in. */
  ghost function AllSources(ts: seq<Tri<nat>>, inside: Side): (s: seq<Option<nat>>)
    ensures |s| == |AllFans(ts, inside)|
  {
    if ts == [] then []
    else
      var n := |ts| - 1;
      AllSources(ts[..n], inside) + Sources(n, |Fan(PolygonOf(ts[n], inside))|)
  }

  /** Some input triangle has this vertex in its clipped polygon. */
  ghost predicate Reached(ts: seq<Tri<nat>>, inside: Side, o: Origin) {
    exists i :: 0 <= i < |ts| && o in PolygonOf(ts[i], inside)
  }

  lemma LiftsExtend(before: seq<Origin>, origins: seq<Origin>, ts: seq<Tri<nat>>, fans: seq<Tri<Origin>>,
                    more: seq<Tri<nat>>, moreFans: seq<Tri<Origin>>)
    requires before <= origins && LiftsTo(before, ts, fans) && LiftsTo(origins, more, moreFans)
    ensures LiftsTo(origins, ts + more, fans + moreFans)
  {
  }

  lemma SegmentsExtend(before: seq<Origin>, origins: seq<Origin>, ss: seq<Segment<nat>>, cuts: seq<Segment<Origin>>,
                       more: seq<Segment<nat>>, moreCuts: seq<Segment<Origin>>)
    requires before <= origins && SegmentsLiftTo(before, ss, cuts) && SegmentsLiftTo(origins, more, moreCuts)
    ensures SegmentsLiftTo(origins, ss + more, cuts + moreCuts)
  {
  }

  lemma ReachedMore(ts: seq<Tri<nat>>, t: Tri<nat>, inside: Side, o: Origin)
    requires Reached(ts, inside, o) || o in PolygonOf(t, inside)
    ensures Reached(ts + [t], inside, o)
  {
    if Reached(ts, inside, o) {
      var i :| 0 <= i < |ts| && o in PolygonOf(ts[i], inside);
      assert (ts + [t])[i] == ts[i];
    } else {
      assert (ts + [t])[|ts|] == t;
    }
  }

  lemma NextProgress(ts: seq<Tri<nat>>, t: Tri<nat>, inside: Side, before: seq<Origin>, origins: seq<Origin>,
                triangles: seq<Tri<nat>>, sourceIds: seq<Option<nat>>, idCuts: seq<Segment<nat>>,
                fans: seq<Tri<Origin>>, cuts: seq<Segment<Origin>>, fan: seq<Tri<nat>>, cut: seq<Segment<nat>>)
    requires Progress(ts, inside, before, triangles, sourceIds, idCuts, fans, cuts)
    requires TriangleDone(before, origins, PolygonOf(t, inside), fan, cut)
    ensures var p := PolygonOf(t, inside);
            Progress(ts + [t], inside, origins, triangles + fan, sourceIds + Sources(|ts|, |fan|), idCuts + cut,
                     fans + Fan(p), cuts + Cut(p))
  {
    var p := PolygonOf(t, inside);
    NextTriangle(ts, t, inside, fans, cuts);
    LiftsExtend(before, origins, triangles, fans, fan, Fan(p));
    SegmentsExtend(before, origins, idCuts, cuts, cut, Cut(p));
    PolygonWanted(t, inside);
    assert (ts + [t])[..|ts|] == ts;
    forall i | 0 <= i < |origins| ensures Reached(ts + [t], inside, origins[i]) {
      assert i < |before| ==> origins[i] == before[i];
      ReachedMore(ts, t, inside, origins[i]);
    }
  }

  /** An input edge whose ends are kept differently occurs an odd number of times. */
  ghost predicate OddSplitEdge(ts: seq<Tri<nat>>, inside: Side) {
    exists p, q :: inside(p) != inside(q) && SideCount(ts, p, q) % 2 == 1
  }

  lemma {:induction false} DegreeEnd<V>(ss: seq<Segment<V>>, v: V) returns (i: nat)
    requires Degree(ss, v) > 0
    ensures i < |ss| && (ss[i].a == v || ss[i].b == v)
  {
    if ss[|ss| - 1].Ends(v) > 0 {
      i := |ss| - 1;
    } else {
      i := DegreeEnd(ss[..|ss| - 1], v);
    }
  }

  lemma CanonicalCrossing(o: Origin)
    requires o.Crossing? && o.lo <= o.hi
    ensures CrossingOf(o.lo, o.hi) == o
  {
  }

  ghost predicate DegreeLaws(ts: seq<Tri<nat>>, inside: Side, cuts: seq<Segment<Origin>>) {
    CutsWanted(inside, cuts) && forall p, q :: inside(p) != inside(q) ==> DegreeLaw(ts, cuts, p, q)
  }

  lemma OddVertexIsSplit(ts: seq<Tri<nat>>, inside: Side, origins: seq<Origin>, idCuts: seq<Segment<nat>>,
                         cuts: seq<Segment<Origin>>)
    requires DegreeLaws(ts, inside, cuts) && SegmentsLiftTo(origins, idCuts, cuts) && Injective(origins)
    requires Odd(idCuts)
    ensures OddSplitEdge(ts, inside)
  {
    var v: nat :| Degree(idCuts, v) % 2 == 1;
    var i := DegreeEnd(idCuts, v);
    assert cuts[i] in cuts;
    LiftSegments(origins, idCuts, cuts, v, v);
    CanonicalCrossing(origins[v]);
    assert DegreeLaw(ts, cuts, origins[v].lo, origins[v].hi);
  }

  lemma OddSplitIsVertex(ts: seq<Tri<nat>>, inside: Side, origins: seq<Origin>, idCuts: seq<Segment<nat>>,
                         cuts: seq<Segment<Origin>>)
    requires DegreeLaws(ts, inside, cuts) && SegmentsLiftTo(origins, idCuts, cuts) && Injective(origins)
    requires OddSplitEdge(ts, inside)
    ensures Odd(idCuts)
  {
    var p, q :| inside(p) != inside(q) && SideCount(ts, p, q) % 2 == 1;
    assert DegreeLaw(ts, cuts, p, q);
    var i := DegreeEnd(cuts, CrossingOf(p, q));
    var v := if cuts[i].a == CrossingOf(p, q) then idCuts[i].a else idCuts[i].b;
    LiftSegments(origins, idCuts, cuts, v, v);
    assert Degree(idCuts, v) % 2 == 1;
  }

  /** The cut graph has an odd vertex exactly when a split input edge has an odd number of sides. */
  lemma OddCutGraph(ts: seq<Tri<nat>>, inside: Side, origins: seq<Origin>, idCuts: seq<Segment<nat>>,
                    fans: seq<Tri<Origin>>, cuts: seq<Segment<Origin>>)
    requires FansAndCuts(ts, inside, fans, cuts) && SegmentsLiftTo(origins, idCuts, cuts) && Injective(origins)
    ensures Odd(idCuts) <==> OddSplitEdge(ts, inside)
  {
    if Odd(idCuts) { OddVertexIsSplit(ts, inside, origins, idCuts, cuts); }
    if OddSplitEdge(ts, inside) { OddSplitIsVertex(ts, inside, origins, idCuts, cuts); }
  }

  /** No triangle is degenerate and no edge has more than two sides. */
  ghost predicate Manifold(ts: seq<Tri<nat>>) {
    AllProper(ts) && forall p, q :: p != q ==> SideCount(ts, p, q) <= 2
  }

  lemma ManifoldCutGraph(ts: seq<Tri<nat>>, inside: Side, origins: seq<Origin>, idCuts: seq<Segment<nat>>,
                         fans: seq<Tri<Origin>>, cuts: seq<Segment<Origin>>)
    requires FansAndCuts(ts, inside, fans, cuts) && SegmentsLiftTo(origins, idCuts, cuts) && Injective(origins)
    requires Manifold(ts)
    ensures AtMostTwo(idCuts)
  {
    forall v: nat
      ensures Degree(idCuts, v) <= 2
    {
      if Degree(idCuts, v) > 0 {
        var i := DegreeEnd(idCuts, v);
        assert cuts[i] in cuts;
        LiftSegments(origins, idCuts, cuts, v, v);
        CanonicalCrossing(origins[v]);
        assert DegreeLaw(ts, cuts, origins[v].lo, origins[v].hi);
      }
    }
  }

  lemma {:induction false} NoCutSides(inside: Side, cuts: seq<Segment<Origin>>, x: Origin, y: Origin)
    requires CutsWanted(inside, cuts) && (x.Corner? || y.Corner?)
    ensures SegmentSides(cuts, x, y) == 0
  {
    if cuts != [] {
      assert cuts[|cuts| - 1] in cuts;
      NoCutSides(inside, cuts[..|cuts| - 1], x, y);
    }
  }

  datatype Outcome = Clipped | InvalidInput | CapsFailed(why: CapStatus)

  /** Two output points whose pair is covered by the boundary law: with caps, any two. */
  ghost predicate Covered(generateCap: bool, x: Origin, y: Origin) {
    x != y && (generateCap || x.Corner? || y.Corner?)
  }

  /** The output mesh is bounded, modulo two, by the kept parts of the input sides. */
  ghost predicate BoundaryIsKept(ts: seq<Tri<nat>>, inside: Side, generateCap: bool, origins: seq<Origin>,
                                 triangles: seq<Tri<nat>>) {
    forall x: nat, y: nat :: x < |origins| && y < |origins| && Covered(generateCap, origins[x], origins[y]) ==>
      SameParity(ts, inside, triangles, x, y, origins[x], origins[y])
  }

  /** The output side {x, y} occurs as often, modulo two, as the kept input sides it stands for. */
  ghost predicate SameParity(ts: seq<Tri<nat>>, inside: Side, triangles: seq<Tri<nat>>, x: nat, y: nat,
                             ox: Origin, oy: Origin) {
    SideCount(triangles, x, y) % 2 == KeptCount(ts, inside, ox, oy) % 2
  }

  lemma NoCutSegments(inside: Side, origins: seq<Origin>, idCuts: seq<Segment<nat>>, cuts: seq<Segment<Origin>>,
                      x: nat, y: nat)
    requires SegmentsLiftTo(origins, idCuts, cuts) && Injective(origins) && CutsWanted(inside, cuts)
    requires x < |origins| && y < |origins| && (origins[x].Corner? || origins[y].Corner?)
    ensures SegmentSides(idCuts, x, y) == 0
  {
    LiftSegments(origins, idCuts, cuts, x, y);
    NoCutSides(inside, cuts, origins[x], origins[y]);
  }

  lemma WithCaps(triangles: seq<Tri<nat>>, caps: seq<Tri<nat>>, x: nat, y: nat, a: nat, s: nat, k: nat)
    returns (n: nat)
    requires a == SideCount(triangles, x, y) && (a + s) % 2 == k % 2 && SideCount(caps, x, y) % 2 == s % 2
    ensures n == SideCount(triangles + caps, x, y) && n % 2 == k % 2
  {
    SideCountConcat(triangles, caps, x, y);
    var c := SideCount(caps, x, y);
    ReplaceParity(a, s, c, k);
    n := a + c;
  }

  lemma LiftedLaw(ts: seq<Tri<nat>>, inside: Side, origins: seq<Origin>, triangles: seq<Tri<nat>>,
                  sourceIds: seq<Option<nat>>, idCuts: seq<Segment<nat>>, fans: seq<Tri<Origin>>,
                  cuts: seq<Segment<Origin>>, x: nat, y: nat) returns (a: nat, s: nat, k: nat)
    requires Progress(ts, inside, origins, triangles, sourceIds, idCuts, fans, cuts) && Injective(origins)
    requires x < |origins| && y < |origins| && origins[x] != origins[y]
    ensures a == SideCount(triangles, x, y) && s == SegmentSides(idCuts, x, y)
    ensures k == KeptCount(ts, inside, origins[x], origins[y])
    ensures (a + s) % 2 == k % 2
  {
    LiftSides(origins, triangles, fans, x, y);
    LiftSegments(origins, idCuts, cuts, x, y);
    a, s, k := LawAt(ts, inside, fans, cuts, origins[x], origins[y]);
  }

  lemma LawAt(ts: seq<Tri<nat>>, inside: Side, fans: seq<Tri<Origin>>, cuts: seq<Segment<Origin>>,
              x: Origin, y: Origin) returns (a: nat, s: nat, k: nat)
    requires FansAndCuts(ts, inside, fans, cuts) && x != y
    ensures a == SideCount(fans, x, y) && s == SegmentSides(cuts, x, y) && k == KeptCount(ts, inside, x, y)
    ensures (a + s) % 2 == k % 2
  {
    assert BoundaryLaw(ts, inside, fans, cuts, x, y);
    a, s, k := SideCount(fans, x, y), SegmentSides(cuts, x, y), KeptCount(ts, inside, x, y);
  }

  lemma ReplaceParity(a: nat, s: nat, c: nat, k: nat)
    requires (a + s) % 2 == k % 2 && c % 2 == s % 2
    ensures (a + c) % 2 == k % 2
  {
  }

  /** A closed input has no boundary to keep, and sides outside the output's points do not occur. */
  lemma ClosedStaysClosed(ts: seq<Tri<nat>>, inside: Side, origins: seq<Origin>, triangles: seq<Tri<nat>>)
    requires Closed(ts) && BoundaryIsKept(ts, inside, true, origins, triangles) && Injective(origins)
    requires forall i :: 0 <= i < |origins| ==> Wanted(inside, origins[i])
    requires forall i :: 0 <= i < |triangles| ==>
               triangles[i].a < |origins| && triangles[i].b < |origins| && triangles[i].c < |origins|
    ensures Closed(triangles)
  {
    forall x: nat, y: nat | x != y
      ensures SideCount(triangles, x, y) % 2 == 0
    {
      if x < |origins| && y < |origins| {
        assert Covered(true, origins[x], origins[y]);
        assert SameParity(ts, inside, triangles, x, y, origins[x], origins[y]);
        NothingKept(ts, inside, origins[x], origins[y]);
      } else {
        NoSide(triangles, |origins|, x, y);
      }
    }
  }

  lemma NothingKept(ts: seq<Tri<nat>>, inside: Side, x: Origin, y: Origin)
    requires Closed(ts) && x != y && Wanted(inside, x) && Wanted(inside, y)
    ensures KeptCount(ts, inside, x, y) % 2 == 0
  {
    match InputSide(inside, x, y)
    case None =>
    case Some((u, v)) => assert u != v;
  }

  lemma {:induction false} NoSide(ts: seq<Tri<nat>>, n: nat, x: nat, y: nat)
    requires forall i :: 0 <= i < |ts| ==> ts[i].a < n && ts[i].b < n && ts[i].c < n
    requires x >= n || y >= n
    ensures SideCount(ts, x, y) == 0
  {
    if ts != [] {
      NoSide(ts[..|ts| - 1], n, x, y);
    }
  }

  lemma BoundaryOfOutput(ts: seq<Tri<nat>>, inside: Side, origins: seq<Origin>, triangles: seq<Tri<nat>>,
                         sourceIds: seq<Option<nat>>, idCuts: seq<Segment<nat>>, fans: seq<Tri<Origin>>,
                         cuts: seq<Segment<Origin>>, caps: seq<Tri<nat>>, generateCap: bool)
    requires Progress(ts, inside, origins, triangles, sourceIds, idCuts, fans, cuts) && Injective(origins)
    requires if generateCap then forall x: nat, y: nat ::
               x != y ==> SideCount(caps, x, y) % 2 == SegmentSides(idCuts, x, y) % 2 else caps == []
    ensures BoundaryIsKept(ts, inside, generateCap, origins, triangles + caps)
  {
    forall x: nat, y: nat | x < |origins| && y < |origins| && Covered(generateCap, origins[x], origins[y])
      ensures SameParity(ts, inside, triangles + caps, x, y, origins[x], origins[y])
    {
      BoundaryAt(ts, inside, origins, triangles, sourceIds, idCuts, fans, cuts, caps, generateCap, x, y);
    }
  }

  lemma BoundaryAt(ts: seq<Tri<nat>>, inside: Side, origins: seq<Origin>, triangles: seq<Tri<nat>>,
                   sourceIds: seq<Option<nat>>, idCuts: seq<Segment<nat>>, fans: seq<Tri<Origin>>,
                   cuts: seq<Segment<Origin>>, caps: seq<Tri<nat>>, generateCap: bool, x: nat, y: nat)
    requires Progress(ts, inside, origins, triangles, sourceIds, idCuts, fans, cuts) && Injective(origins)
    requires x < |origins| && y < |origins| && Covered(generateCap, origins[x], origins[y])
    requires if generateCap then SideCount(caps, x, y) % 2 == SegmentSides(idCuts, x, y) % 2 else caps == []
    ensures SameParity(ts, inside, triangles + caps, x, y, origins[x], origins[y])
  {
    if !generateCap {
      NoCutSegments(inside, origins, idCuts, cuts, x, y);
    }
    var a, s, k := LiftedLaw(ts, inside, origins, triangles, sourceIds, idCuts, fans, cuts, x, y);
    var n := WithCaps(triangles, caps, x, y, a, s, k);
    Conclude(ts, inside, triangles + caps, x, y, origins[x], origins[y], n, k);
  }

  lemma Conclude(ts: seq<Tri<nat>>, inside: Side, triangles: seq<Tri<nat>>, x: nat, y: nat, ox: Origin, oy: Origin,
                 n: nat, k: nat)
    requires n == SideCount(triangles, x, y) && k == KeptCount(ts, inside, ox, oy) && n % 2 == k % 2
    ensures SameParity(ts, inside, triangles, x, y, ox, oy)
  {
  }

  lemma TakeNext<V>(s: seq<V>, i: nat)
    requires i < |s|
    ensures s[..i + 1] == s[..i] + [s[i]]
  {
  }

  /** The triangle loop: clips every triangle and, with caps on, collects the cut segments. */
  method ClipAll(output: ClipOutput, triangles: seq<Tri<nat>>, insideOut: bool, generateCap: bool)
    returns (segments: seq<Segment<nat>>, ghost idCuts: seq<Segment<nat>>, ghost fans: seq<Tri<Origin>>,
             ghost cuts: seq<Segment<Origin>>)
    requires output.Valid() && output.triangles == [] && output.sourceIds == [] && output.origins == []
    requires forall t :: t in triangles ==> InputTriangle(output.input, t)
    modifies output, output.originalMap
    ensures output.Valid()
    ensures segments == if generateCap then idCuts else []
    ensures Progress(triangles, KeptSideOf(output.input, output.plane, insideOut), output.origins, output.triangles,
                     output.sourceIds, idCuts, fans, cuts)
  {
    ghost var inside := KeptSideOf(output.input, output.plane, insideOut);
    var capacity := |triangles| * 3;
    segments, idCuts, fans, cuts := [], [], [], [];
    for i := 0 to |triangles|
      invariant output.Valid()
      invariant segments == if generateCap then idCuts else []
      invariant Progress(triangles[..i], inside, output.origins, output.triangles, output.sourceIds, idCuts, fans, cuts)
    {
      var t := triangles[i];
      ghost var before, meshBefore, sourcesBefore := output.origins, output.triangles, output.sourceIds;
      var ok, cut;
      ghost var fan;
      ok, cut, fan := ClipTriangle(output, insideOut, t, i, capacity);
      assert ok;
      NextProgress(triangles[..i], t, inside, before, output.origins, meshBefore, sourcesBefore, idCuts, fans, cuts,
                   fan, cut);
      TakeNext(triangles, i);
      if generateCap {
        segments := segments + cut;
      }
      idCuts := idCuts + cut;
      fans, cuts := fans + Fan(PolygonOf(t, inside)), cuts + Cut(PolygonOf(t, inside));
    }
    assert triangles[..|triangles|] == triangles;
  }

  /** All vertices of the output are on the kept side, and the cut ones exactly on the plane. */
  ghost predicate OnKeptSide(output: ClipOutput, insideOut: bool)
    reads output
  {
    && |output.points| == |output.origins|
    && forall i :: 0 <= i < |output.points| ==>
         && Keep(output.plane.Distance(output.points[i]), insideOut)
         && (output.origins[i].Crossing? ==> output.plane.Distance(output.points[i]) == 0.0)
  }

  lemma PointsKept(output: ClipOutput, insideOut: bool)
    requires output.Valid()
    requires forall i :: 0 <= i < |output.origins| ==>
               Wanted(KeptSideOf(output.input, output.plane, insideOut), output.origins[i])
    ensures OnKeptSide(output, insideOut)
  {
    forall i | 0 <= i < |output.points|
      ensures Keep(output.plane.Distance(output.points[i]), insideOut)
      ensures output.origins[i].Crossing? ==> output.plane.Distance(output.points[i]) == 0.0
    {
      WantedIsKept(output.input, output.plane, insideOut, output.origins[i]);
    }
  }

  lemma FansProper(origins: seq<Origin>, triangles: seq<Tri<nat>>, fans: seq<Tri<Origin>>)
    requires LiftsTo(origins, triangles, fans) && ProperFan(fans)
    ensures AllProper(triangles)
  {
    forall t | t in triangles
      ensures Proper(t)
    {
      var i :| 0 <= i < |triangles| && triangles[i] == t;
      assert fans[i] in fans;
    }
  }

  /**
   * The output is the clipped surface, each triangle with its source, followed by triangles without one; and it has
   * no vertex that the clipped polygons do not have.
   */
  ghost predicate SurfaceExact(ts: seq<Tri<nat>>, inside: Side, output: ClipOutput)
    reads output
  {
    var fans := AllFans(ts, inside);
    && |output.triangles| >= |fans| && LiftsTo(output.origins, output.triangles[..|fans|], fans)
    && output.sourceIds == AllSources(ts, inside) + NoSources(|output.triangles| - |fans|)
    && forall i :: 0 <= i < |output.origins| ==> Reached(ts, inside, output.origins[i])
  }

  /**
   * The triangles after the surface are one patch for each of the loops, and the loops run through every cut segment
   * of the mesh exactly once.
   */
  ghost predicate CapsExact(ts: seq<Tri<nat>>, inside: Side, frame: Frame, output: ClipOutput,
                            segments: seq<Segment<nat>>, loops: seq<seq<nat>>)
    reads output
  {
    var n := |AllFans(ts, inside)|;
    && SegmentsLiftTo(output.origins, segments, AllCuts(ts, inside)) && |output.triangles| >= n
    && Capped(segments, loops, output.triangles[n..]) && Patched(output.points, frame, loops, output.triangles[n..])
  }

  /** Every output point lies where its vertex does. */
  ghost predicate PointsPlaced(output: ClipOutput)
    reads output
  {
    && |output.points| == |output.origins|
    && forall i :: 0 <= i < |output.points| ==>
         output.OriginInRange(output.origins[i]) && output.points[i] == Position(output.input, output.plane, output.origins[i])
  }

  /** What the filter promises about a mesh it returns. */
  ghost predicate GoodClip(input: seq<Vec3>, triangles: seq<Tri<nat>>, plane: Plane, insideOut: bool,
                           generateCap: bool, output: ClipOutput)
    reads output
  {
    var inside := KeptSideOf(input, plane, insideOut);
    && output.input == input && output.plane == plane
    && PointsPlaced(output) && Injective(output.origins)
    && CornersExist(output.triangles, |output.points|)
    && |output.sourceIds| == |output.triangles| <= 3 * |triangles|
    && SurfaceExact(triangles, inside, output)
    && (!generateCap ==> |output.triangles| == |AllFans(triangles, inside)|)
    && OnKeptSide(output, insideOut)
    && BoundaryIsKept(triangles, inside, generateCap, output.origins, output.triangles)
    && (generateCap && Closed(triangles) ==> Closed(output.triangles))
    && (Manifold(triangles) ==> AllProper(output.triangles))
  }

  /** The state before the caps, and the caps, add up to the promises. */
  lemma FinishClip(input: seq<Vec3>, triangles: seq<Tri<nat>>, plane: Plane, insideOut: bool, generateCap: bool,
                   output: ClipOutput, mesh: seq<Tri<nat>>, sources: seq<Option<nat>>, idCuts: seq<Segment<nat>>,
                   fans: seq<Tri<Origin>>, cuts: seq<Segment<Origin>>, caps: seq<Tri<nat>>,
                   loops: seq<seq<nat>>, frame: Frame)
    requires output.Valid() && output.input == input && output.plane == plane
    requires Progress(triangles, KeptSideOf(input, plane, insideOut), output.origins, mesh, sources, idCuts, fans, cuts)
    requires output.triangles == mesh + caps && output.sourceIds == sources + NoSources(|caps|)
    requires |caps| <= |idCuts| && CornersExist(caps, |output.points|)
    requires if generateCap then Capped(idCuts, loops, caps) && Patched(output.points, frame, loops, caps) else caps == []
    requires AtMostTwo(idCuts) ==> forall i :: 0 <= i < |caps| ==> Proper(caps[i])
    ensures GoodClip(input, triangles, plane, insideOut, generateCap, output)
    ensures generateCap ==> CapsExact(triangles, KeptSideOf(input, plane, insideOut), frame, output, idCuts, loops)
  {
    var inside := KeptSideOf(input, plane, insideOut);
    assert output.triangles[|mesh|..] == caps;
    output.InjectiveOrigins();
    PointsKept(output, insideOut);
    AllCorners(output.origins, mesh, fans, caps);
    BoundaryOfOutput(triangles, inside, output.origins, mesh, sources, idCuts, fans, cuts, caps, generateCap);
    if generateCap && Closed(triangles) {
      ClosedStaysClosed(triangles, inside, output.origins, output.triangles);
    }
    if Manifold(triangles) {
      ManifoldCutGraph(triangles, inside, output.origins, idCuts, fans, cuts);
      FansProper(output.origins, mesh, fans);
    }
  }

  lemma AllCorners(origins: seq<Origin>, mesh: seq<Tri<nat>>, fans: seq<Tri<Origin>>, caps: seq<Tri<nat>>)
    requires LiftsTo(origins, mesh, fans) && CornersExist(caps, |origins|)
    ensures CornersExist(mesh + caps, |origins|)
  {
  }

  /** After the triangle loop: what the cap tracing needs, and when it can fail. */
  lemma CutGraphReady(ts: seq<Tri<nat>>, inside: Side, output: ClipOutput, mesh: seq<Tri<nat>>,
                      sources: seq<Option<nat>>, idCuts: seq<Segment<nat>>, fans: seq<Tri<Origin>>,
                      cuts: seq<Segment<Origin>>)
    requires output.Valid() && Progress(ts, inside, output.origins, mesh, sources, idCuts, fans, cuts)
    ensures InRange(idCuts, output.points) && (Odd(idCuts) <==> OddSplitEdge(ts, inside))
    ensures |mesh| <= 2 * |ts| && |idCuts| <= |ts| && SegmentsLiftTo(output.origins, idCuts, AllCuts(ts, inside))
  {
    output.InjectiveOrigins();
    OddCutGraph(ts, inside, output.origins, idCuts, fans, cuts);
    SegmentsInRange(output.origins, idCuts, cuts, output.points);
  }

  // ----- When the caps succeed ----------------------------------------------------------------------

  ghost predicate OriginIn(input: seq<Vec3>, o: Origin) {
    match o
    case Corner(p) => p < |input|
    case Crossing(lo, hi) => lo < |input| && hi < |input|
  }

  /** A closed way along the cut segments that takes none of them more often than it is there. */
  ghost predicate CutWay(input: seq<Vec3>, cuts: seq<Segment<Origin>>, way: seq<Origin>) {
    && (forall i :: 0 <= i < |way| ==> OriginIn(input, way[i]))
    && forall x, y :: CycleSides(way, x, y) <= SegmentSides(cuts, x, y)
  }

  ghost function Seen(input: seq<Vec3>, plane: Plane, frame: Frame, o: Origin): (r: Vec2)
    requires OriginIn(input, o)
  {
    frame.Project(Position(input, plane, o))
  }

  ghost function View(input: seq<Vec3>, plane: Plane, frame: Frame, way: seq<Origin>): (r: seq<Vec2>)
    requires forall i :: 0 <= i < |way| ==> OriginIn(input, way[i])
  {
    seq(|way|, i requires 0 <= i < |way| => Seen(input, plane, frame, way[i]))
  }

  /** Every closed way along the cut of the mesh is convex, with a margin of the tolerance. */
  ghost predicate ConvexCuts(input: seq<Vec3>, plane: Plane, frame: Frame, cuts: seq<Segment<Origin>>) {
    forall way :: CutWay(input, cuts, way) && |way| >= 3 ==> CapFilling.Convex(View(input, plane, frame, way))
  }

  ghost function Lifted(origins: seq<Origin>, loop: seq<nat>): (r: seq<Origin>)
    requires forall i :: 0 <= i < |loop| ==> loop[i] < |origins|
  {
    seq(|loop|, i requires 0 <= i < |loop| => origins[loop[i]])
  }

  lemma {:induction false} LiftPath(origins: seq<Origin>, loop: seq<nat>, x: nat, y: nat)
    requires Injective(origins) && x < |origins| && y < |origins| && forall i :: 0 <= i < |loop| ==> loop[i] < |origins|
    ensures PathSides(Lifted(origins, loop), origins[x], origins[y]) == PathSides(loop, x, y)
  {
    if |loop| >= 2 {
      var n := |loop| - 1;
      LiftPath(origins, loop[..n], x, y);
      assert Lifted(origins, loop)[..n] == Lifted(origins, loop[..n]);
      LiftJoins(origins, loop[n - 1], loop[n], x, y);
    }
  }

  lemma LiftJoins(origins: seq<Origin>, p: nat, q: nat, x: nat, y: nat)
    requires Injective(origins) && p < |origins| && q < |origins| && x < |origins| && y < |origins|
    ensures Joins(origins[p], origins[q], origins[x], origins[y]) == Joins(p, q, x, y)
  {
  }

  lemma LiftCycle(origins: seq<Origin>, loop: seq<nat>, x: nat, y: nat)
    requires Injective(origins) && x < |origins| && y < |origins| && forall i :: 0 <= i < |loop| ==> loop[i] < |origins|
    ensures CycleSides(Lifted(origins, loop), origins[x], origins[y]) == CycleSides(loop, x, y)
  {
    LiftPath(origins, loop, x, y);
    if loop != [] { LiftJoins(origins, loop[|loop| - 1], loop[0], x, y); }
  }

  lemma {:induction false} OffPath(way: seq<Origin>, x: Origin, y: Origin)
    requires x !in way || y !in way
    ensures PathSides(way, x, y) == 0
  {
    if |way| >= 2 { OffPath(way[..|way| - 1], x, y); }
  }

  /** A closed way among the output points is one along the cut of the mesh. */
  lemma WayLifts(input: seq<Vec3>, output: ClipOutput, segments: seq<Segment<nat>>, cuts: seq<Segment<Origin>>,
                 loop: seq<nat>)
    requires PointsPlaced(output) && Injective(output.origins) && output.input == input
    requires SegmentsLiftTo(output.origins, segments, cuts) && ClosedWay(segments, output.points, loop)
    ensures CutWay(input, cuts, Lifted(output.origins, loop))
  {
    var origins := output.origins;
    var way := Lifted(origins, loop);
    forall x, y ensures CycleSides(way, x, y) <= SegmentSides(cuts, x, y) {
      if x in way && y in way {
        var i :| 0 <= i < |way| && way[i] == x;
        var j :| 0 <= j < |way| && way[j] == y;
        LiftCycle(origins, loop, loop[i], loop[j]);
        LiftSegments(origins, segments, cuts, loop[i], loop[j]);
      } else {
        OffPath(way, x, y);
      }
    }
  }

  /** Ear clipping does not stop at a loop of a convex cut. */
  lemma ConvexGoesOn(input: seq<Vec3>, output: ClipOutput, frame: Frame, segments: seq<Segment<nat>>,
                     cuts: seq<Segment<Origin>>, loop: seq<nat>)
    requires output.Valid() && output.input == input && SegmentsLiftTo(output.origins, segments, cuts)
    requires ConvexCuts(input, output.plane, frame, cuts) && ClosedWay(segments, output.points, loop) && |loop| >= 3
    ensures Fillable(output.points, frame, loop)
  {
    output.InjectiveOrigins();
    WayLifts(input, output, segments, cuts, loop);
    assert View(input, output.plane, frame, Lifted(output.origins, loop)) == Coordinates(output.points, loop, frame);
    CapFilling.ConvexFills(output.points, frame, loop);
  }

  /** What is known about the caps of a mesh, whether they were finished or given up. */
  ghost predicate CapsKnown(ts: seq<Tri<nat>>, inside: Side, frame: Frame, output: ClipOutput, outcome: Outcome,
                            segments: seq<Segment<nat>>, loops: seq<seq<nat>>, done: nat)
    reads output
  {
    var n := |AllFans(ts, inside)|;
    && SegmentsLiftTo(output.origins, segments, AllCuts(ts, inside)) && |output.triangles| >= n
    && match outcome
       case Clipped => CapsExact(ts, inside, frame, output, segments, loops) && !OddSplitEdge(ts, inside)
       case CapsFailed(why) =>
         if why == ZeroArea || why == NoEar
         then StoppedAt(why, segments, output.points, frame, loops, output.triangles[n..], done)
         else (why == NotSimpleLoop || why == OpenLoop) && OddSplitEdge(ts, inside)
       case InvalidInput => false
  }

  /** The caps succeed exactly when the cut is even and all traced loops are fillable; convex cuts always are. */
  lemma WhenCapped(ts: seq<Tri<nat>>, inside: Side, frame: Frame, output: ClipOutput, outcome: Outcome,
                   segments: seq<Segment<nat>>, loops: seq<seq<nat>>, done: nat)
    requires output.Valid() && CapsKnown(ts, inside, frame, output, outcome, segments, loops, done)
    ensures outcome == Clipped <==> !OddSplitEdge(ts, inside) && AllFillable(output.points, frame, loops)
    ensures !OddSplitEdge(ts, inside) && ConvexCuts(output.input, output.plane, frame, AllCuts(ts, inside)) ==>
              outcome == Clipped
  {
    if outcome == Clipped {
      PatchedFillable(output.points, frame, loops, output.triangles[|AllFans(ts, inside)|..]);
    } else if !OddSplitEdge(ts, inside) {
      StoppedNotFillable(outcome.why, segments, output.points, frame, loops, output.triangles[|AllFans(ts, inside)|..], done);
      if ConvexCuts(output.input, output.plane, frame, AllCuts(ts, inside)) {
        ConvexGoesOn(output.input, output, frame, segments, AllCuts(ts, inside), loops[|loops| - 1]);
      }
    }
  }

  lemma StoppedNotFillable(why: CapStatus, segments: seq<Segment<nat>>, points: seq<Vec3>, frame: Frame,
                           loops: seq<seq<nat>>, caps: seq<Tri<nat>>, done: nat)
    requires StoppedAt(why, segments, points, frame, loops, caps, done)
    ensures !AllFillable(points, frame, loops)
    ensures var loop := loops[|loops| - 1]; ClosedWay(segments, points, loop) && |loop| >= 3 && !Fillable(points, frame, loop)
  {
    assert !Fillable(points, frame, loops[|loops| - 1]);
  }

  /**
   * The filter.  A returned mesh keeps its promises; the provenance buffer of three entries per
   * triangle never overflows; the cap tracing fails only when a split input edge has an odd
   * number of sides, in which case the filter never succeeds with caps on; and otherwise it
   * succeeds exactly when every loop it traces is fillable, as all are when the cut is convex.
   */
  method Clip(input: seq<Vec3>, triangles: seq<Tri<nat>>, plane: Plane, insideOut: bool, generateCap: bool,
              frame: Frame)
    returns (outcome: Outcome, output: ClipOutput, ghost segments: seq<Segment<nat>>, ghost loops: seq<seq<nat>>,
             ghost done: nat)
    requires |input| <= EdgeKeys.ID_LIMIT
    ensures outcome == InvalidInput <==> triangles == [] || exists t :: t in triangles && !InputTriangle(input, t)
    ensures outcome == Clipped ==> GoodClip(input, triangles, plane, insideOut, generateCap, output)
    ensures outcome != CapsFailed(CapacityExceeded) && (!generateCap ==> !outcome.CapsFailed?)
    ensures generateCap && outcome != InvalidInput ==>
              CapsKnown(triangles, KeptSideOf(input, plane, insideOut), frame, output, outcome, segments, loops, done)
    ensures generateCap && outcome != InvalidInput ==>
              (outcome == Clipped <==> !OddSplitEdge(triangles, KeptSideOf(input, plane, insideOut)) &&
                                       AllFillable(output.points, frame, loops))
    ensures generateCap && outcome != InvalidInput && !OddSplitEdge(triangles, KeptSideOf(input, plane, insideOut)) &&
            ConvexCuts(input, plane, frame, AllCuts(triangles, KeptSideOf(input, plane, insideOut))) ==>
              outcome == Clipped
  {
    output := new ClipOutput(input, plane);
    segments, loops, done := [], [], 0;
    if triangles == [] || exists t :: t in triangles && !(t.a < |input| && t.b < |input| && t.c < |input|) {
      outcome := InvalidInput;
    } else {
      outcome, segments, loops, done := ClipInto(output, triangles, insideOut, generateCap, frame);
      if generateCap {
        WhenCapped(triangles, KeptSideOf(input, plane, insideOut), frame, output, outcome, segments, loops, done);
      }
    }
  }

  /** The filter's work on an accepted mesh: clip, then cap. */
  method ClipInto(output: ClipOutput, triangles: seq<Tri<nat>>, insideOut: bool, generateCap: bool, frame: Frame)
    returns (outcome: Outcome, ghost segments: seq<Segment<nat>>, ghost loops: seq<seq<nat>>, ghost done: nat)
    requires output.Valid() && output.triangles == [] && output.sourceIds == [] && output.origins == []
    requires forall t :: t in triangles ==> InputTriangle(output.input, t)
    modifies output, output.originalMap
    ensures output.Valid()
    ensures outcome == Clipped ==> GoodClip(output.input, triangles, output.plane, insideOut, generateCap, output)
    ensures generateCap ==> CapsKnown(triangles, KeptSideOf(output.input, output.plane, insideOut), frame, output, outcome,
                                      segments, loops, done)
    ensures outcome != InvalidInput && outcome != CapsFailed(CapacityExceeded)
    ensures !generateCap ==> outcome == Clipped
  {
    ghost var inside := KeptSideOf(output.input, output.plane, insideOut);
    loops, done := [], 0;
    var cut;
    ghost var fans, cuts;
    cut, segments, fans, cuts := ClipAll(output, triangles, insideOut, generateCap);
    ghost var mesh, sources := output.triangles, output.sourceIds;
    CutGraphReady(triangles, inside, output, mesh, sources, segments, fans, cuts);
    ghost var caps: seq<Tri<nat>> := [];
    if generateCap {
      var status;
      status, caps, loops, done := GenerateCaps(output, cut, frame, |triangles| * 3);
      if status != Done {
        outcome := CapsFailed(status);
        assert output.triangles[|mesh|..] == caps;
        return;
      }
    }
    FinishClip(output.input, triangles, output.plane, insideOut, generateCap, output, mesh, sources, segments, fans, cuts,
               caps, loops, frame);
    outcome := Clipped;
  }

  lemma SegmentsInRange(origins: seq<Origin>, segments: seq<Segment<nat>>, cuts: seq<Segment<Origin>>,
                        points: seq<Vec3>)
    requires SegmentsLiftTo(origins, segments, cuts) && |points| == |origins|
    ensures InRange(segments, points)
  {
  }
}
