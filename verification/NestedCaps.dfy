/**
 * A mesh whose caps do not fit: one tetrahedron within another, turned inside out, as the surface of a hollow body is.
 * It is oriented and manifold, it is clipped and capped, and the returned mesh is not oriented.
 */
module NestedCaps {
  import opened Geometry
  import opened Chains
  import opened ClipOutputs
  import opened EarClip
  import opened CapLoops
  import opened ClipTriangles
  import opened OrientedMeshes
  import opened CutDirections
  import opened LoopDirections
  import opened ClipFilter
  import opened ClipOrientation
  import CapFilling

  function Tetra(a: nat, b: nat, c: nat, d: nat): (r: seq<Tri<nat>>) {
    [Tri(a, b, c), Tri(a, d, b), Tri(a, c, d), Tri(c, b, d)]
  }

  /** The corners of both tetrahedra, apex first. */
  function CornerOf(p: nat): (r: Vec3) {
    if p == 0 then Vec3(0.0, 0.0, 4.0) else if p == 1 then Vec3(8.0, -8.0, -4.0) else if p == 2 then Vec3(-8.0, -8.0, -4.0)
    else if p == 3 then Vec3(0.0, 8.0, -4.0) else if p == 4 then Vec3(0.0, 0.0, 1.0) else if p == 5 then Vec3(2.0, -2.0, -1.0)
    else if p == 6 then Vec3(-2.0, -2.0, -1.0) else Vec3(0.0, 2.0, -1.0)
  }

  function Corners(): (r: seq<Vec3>)
    ensures |r| == 8 && forall p :: 0 <= p < 8 ==> r[p] == CornerOf(p)
  {
    seq(8, p requires 0 <= p => CornerOf(p))
  }

  function Hollow(): (r: seq<Tri<nat>>)
    ensures |r| == 8
  {
    Tetra(0, 2, 1, 3) + Tetra(4, 5, 6, 7)
  }

  const LEVEL := Plane(Vec3(0.0, 0.0, 1.0), 0.0)

  /** The axes that the caps are projected along for this plane. */
  const VIEW := Frame(Vec3(0.0, 1.0, 0.0), Vec3(1.0, 0.0, 0.0))

  ghost function Above(): (inside: Side) { KeptSideOf(Corners(), LEVEL, false) }

  lemma LevelDistance(p: Vec3)
    ensures LEVEL.Distance(p) == p.z
  {
  }

  lemma OnlyApexes(p: nat)
    ensures Above()(p) <==> p == 0 || p == 4
  {
    if p < 8 { LevelDistance(CornerOf(p)); }
  }

  // ----- Oriented and manifold ----------------------------------------------------------------------

  lemma FourTriangles<V>(t: seq<Tri<V>>, w: Form<V>)
    requires |t| == 4
    ensures t[..4] == t && t[..4][..3] == t[..3] && t[..3][..2] == t[..2] && t[..2][..1] == t[..1] && t[..1][..0] == []
  {
  }

  lemma TetraFlux(a: nat, b: nat, c: nat, d: nat, w: Cochain)
    requires Antisymmetric(w)
    ensures TriFlux(Tetra(a, b, c, d), w) == 0.0
  {
    var t := Tetra(a, b, c, d);
    FourTriangles(t, w);
    assert TriFlux(t[..0], w) == 0.0;
    assert TriFlux(t[..1], w) == w(a, b) + w(b, c) + w(c, a);
    assert TriFlux(t[..2], w) == TriFlux(t[..1], w) + w(a, d) + w(d, b) + w(b, a);
    assert TriFlux(t[..3], w) == TriFlux(t[..2], w) + w(a, c) + w(c, d) + w(d, a);
    assert TriFlux(t, w) == TriFlux(t[..3], w) + w(c, b) + w(b, d) + w(d, c);
    assert w(a, b) == -w(b, a) && w(b, c) == -w(c, b) && w(c, a) == -w(a, c);
    assert w(a, d) == -w(d, a) && w(d, b) == -w(b, d) && w(c, d) == -w(d, c);
  }

  lemma HollowIsBalanced()
    ensures Balanced(Hollow())
  {
    forall w: Cochain | Antisymmetric(w) ensures TriFlux(Hollow(), w) == 0.0 {
      TetraFlux(0, 2, 1, 3, w);
      TetraFlux(4, 5, 6, 7, w);
      TriFluxConcat(Tetra(0, 2, 1, 3), Tetra(4, 5, 6, 7), w);
    }
  }

  lemma TetraSides(a: nat, b: nat, c: nat, d: nat, p: nat, q: nat)
    requires a != b && a != c && a != d && b != c && b != d && c != d && p != q
    ensures SideCount(Tetra(a, b, c, d), p, q) == if p in {a, b, c, d} && q in {a, b, c, d} then 2 else 0
  {
    var t := Tetra(a, b, c, d);
    FourTriangles(t, (x: nat, y: nat) => 0.0);
    assert SideCount(t[..0], p, q) == 0;
    assert SideCount(t[..1], p, q) == TriSides(t[0], p, q);
    assert SideCount(t[..2], p, q) == SideCount(t[..1], p, q) + TriSides(t[1], p, q);
    assert SideCount(t[..3], p, q) == SideCount(t[..2], p, q) + TriSides(t[2], p, q);
    assert SideCount(t, p, q) == SideCount(t[..3], p, q) + TriSides(t[3], p, q);
  }

  lemma HollowIsManifold()
    ensures Manifold(Hollow()) && Closed(Hollow())
  {
    forall p: nat, q: nat | p != q ensures SideCount(Hollow(), p, q) <= 2 && SideCount(Hollow(), p, q) % 2 == 0 {
      TetraSides(0, 2, 1, 3, p, q);
      TetraSides(4, 5, 6, 7, p, q);
      SideCountConcat(Tetra(0, 2, 1, 3), Tetra(4, 5, 6, 7), p, q);
    }
  }

  // ----- The cut ------------------------------------------------------------------------------------

  lemma CutsNext(ts: seq<Tri<nat>>, t: Tri<nat>, inside: Side)
    ensures AllCuts(ts + [t], inside) == AllCuts(ts, inside) + Cut(PolygonOf(t, inside))
    ensures DirectedCuts(ts + [t], inside) == DirectedCuts(ts, inside) + Along(PolygonOf(t, inside))
  {
    assert (ts + [t])[..|ts|] == ts;
  }

  lemma TriangleCut(t: Tri<nat>, inside: Side, x: Origin, y: Origin)
    requires inside(t.a) && !inside(t.b) && !inside(t.c) && x == CrossingOf(t.a, t.b) && y == CrossingOf(t.c, t.a) && x != y
    ensures Cut(PolygonOf(t, inside)) == [Segment(x, y)] && Along(PolygonOf(t, inside)) == [Segment(x, y)]
  {
    CutCases(t, true, false, false);
    AlongCases(t, true, false, false);
  }

  lemma NextCut(ts: seq<Tri<nat>>, t: Tri<nat>, inside: Side, x: Origin, y: Origin)
    requires inside(t.a) && !inside(t.b) && !inside(t.c) && x == CrossingOf(t.a, t.b) && y == CrossingOf(t.c, t.a) && x != y
    ensures AllCuts(ts + [t], inside) == AllCuts(ts, inside) + [Segment(x, y)]
    ensures DirectedCuts(ts + [t], inside) == DirectedCuts(ts, inside) + [Segment(x, y)]
  {
    TriangleCut(t, inside, x, y);
    CutsNext(ts, t, inside);
  }

  lemma NoCut(ts: seq<Tri<nat>>, t: Tri<nat>, inside: Side)
    requires !inside(t.a) && !inside(t.b) && !inside(t.c)
    ensures AllCuts(ts + [t], inside) == AllCuts(ts, inside) && DirectedCuts(ts + [t], inside) == DirectedCuts(ts, inside)
  {
    CutCases(t, false, false, false);
    AlongCases(t, false, false, false);
    CutsNext(ts, t, inside);
  }

  lemma Appended<V>(s: seq<V>, p: V, q: V, r: V)
    ensures s + [p] + [q] + [r] == s + [p, q, r]
  {
  }

  lemma AppendedFour<V>(s: seq<V>, p: V, q: V, r: V, t: V)
    ensures s + [p] + [q] + [r] + [t] == s + [p, q, r, t]
  {
  }

  /** One more tetrahedron whose apex alone is kept: its cut runs round it once. */
  lemma TetraCuts(ts: seq<Tri<nat>>, a: nat, b: nat, c: nat, d: nat, inside: Side)
    requires a != b && a != c && a != d && b != c && b != d && c != d
    requires inside(a) && !inside(b) && !inside(c) && !inside(d)
    ensures var ring := Ring(CrossingOf(a, b), CrossingOf(a, c), CrossingOf(a, d));
            && AllCuts(ts + Tetra(a, b, c, d), inside) == AllCuts(ts, inside) + ring
            && DirectedCuts(ts + Tetra(a, b, c, d), inside) == DirectedCuts(ts, inside) + ring
  {
    var x, y, z := CrossingOf(a, b), CrossingOf(a, c), CrossingOf(a, d);
    var t0, t1, t2, t3 := Tri(a, b, c), Tri(a, d, b), Tri(a, c, d), Tri(c, b, d);
    NextCut(ts, t0, inside, x, y);
    NextCut(ts + [t0], t1, inside, z, x);
    NextCut(ts + [t0] + [t1], t2, inside, y, z);
    NoCut(ts + [t0] + [t1] + [t2], t3, inside);
    AppendedFour(ts, t0, t1, t2, t3);
    Appended(AllCuts(ts, inside), Segment(x, y), Segment(z, x), Segment(y, z));
    Appended(DirectedCuts(ts, inside), Segment(x, y), Segment(z, x), Segment(y, z));
  }

  function Ring(x: Origin, y: Origin, z: Origin): (r: seq<Segment<Origin>>) { [Segment(x, y), Segment(z, x), Segment(y, z)] }

  function Outer(): (r: seq<Segment<Origin>>) { Ring(Crossing(0, 2), Crossing(0, 1), Crossing(0, 3)) }

  function Inner(): (r: seq<Segment<Origin>>) { Ring(Crossing(4, 5), Crossing(4, 6), Crossing(4, 7)) }

  lemma EmptyFirst<V>(s: seq<V>)
    ensures [] + s == s
  {
  }

  lemma FirstTetraCuts(a: nat, b: nat, c: nat, d: nat, inside: Side)
    requires a != b && a != c && a != d && b != c && b != d && c != d
    requires inside(a) && !inside(b) && !inside(c) && !inside(d)
    ensures var ring := Ring(CrossingOf(a, b), CrossingOf(a, c), CrossingOf(a, d));
            AllCuts(Tetra(a, b, c, d), inside) == ring && DirectedCuts(Tetra(a, b, c, d), inside) == ring
  {
    TetraCuts([], a, b, c, d, inside);
    EmptyFirst(Tetra(a, b, c, d));
    EmptyFirst(Ring(CrossingOf(a, b), CrossingOf(a, c), CrossingOf(a, d)));
  }

  lemma HollowCuts(inside: Side)
    requires forall p: nat :: inside(p) <==> p == 0 || p == 4
    ensures AllCuts(Hollow(), inside) == Outer() + Inner() && DirectedCuts(Hollow(), inside) == Outer() + Inner()
  {
    FirstTetraCuts(0, 2, 1, 3, inside);
    TetraCuts(Tetra(0, 2, 1, 3), 4, 5, 6, 7, inside);
  }

  /** 1 for two different vertices of a ring. */
  function OnRing(x: Origin, y: Origin, z: Origin, u: Origin, v: Origin): (n: nat) {
    Has(u != v && u in {x, y, z} && v in {x, y, z})
  }

  lemma RingSides(x: Origin, y: Origin, z: Origin, u: Origin, v: Origin)
    requires x != y && y != z && z != x
    ensures SegmentSides(Ring(x, y, z), u, v) == OnRing(x, y, z, u, v)
  {
    var r := Ring(x, y, z);
    assert r[..3] == r && r[..3][..2] == r[..2] && r[..2][..1] == r[..1] && r[..1][..0] == [];
    assert SegmentSides(r[..0], u, v) == 0;
    assert SegmentSides(r[..1], u, v) == Joins(x, y, u, v);
    assert SegmentSides(r[..2], u, v) == Joins(x, y, u, v) + Joins(z, x, u, v);
    assert SegmentSides(r, u, v) == SegmentSides(r[..2], u, v) + Joins(y, z, u, v);
  }

  predicate OnOuter(o: Origin) { o in {Crossing(0, 1), Crossing(0, 2), Crossing(0, 3)} }

  predicate OnInner(o: Origin) { o in {Crossing(4, 5), Crossing(4, 6), Crossing(4, 7)} }

  /** Two different vertices of the same ring. */
  predicate Joined(u: Origin, v: Origin) {
    u != v && ((OnOuter(u) && OnOuter(v)) || (OnInner(u) && OnInner(v)))
  }

  lemma CutSides(u: Origin, v: Origin)
    ensures SegmentSides(Outer() + Inner(), u, v) == Has(Joined(u, v))
  {
    SegmentSidesConcat(Outer(), Inner(), u, v);
    RingSides(Crossing(0, 2), Crossing(0, 1), Crossing(0, 3), u, v);
    RingSides(Crossing(4, 5), Crossing(4, 6), Crossing(4, 7), u, v);
  }

  // ----- Closed ways along the cut ------------------------------------------------------------------

  lemma {:induction false} PathMeets(way: seq<Origin>, i: nat, x: Origin, y: Origin)
    requires i + 1 < |way| && Joins(way[i], way[i + 1], x, y) == 1
    ensures PathSides(way, x, y) >= 1
  {
    if i + 2 < |way| { PathMeets(way[..|way| - 1], i, x, y); }
  }

  lemma {:induction false} PathMeetsTwice(way: seq<Origin>, i: nat, j: nat, x: Origin, y: Origin)
    requires i < j && j + 1 < |way| && Joins(way[i], way[i + 1], x, y) == 1 && Joins(way[j], way[j + 1], x, y) == 1
    ensures PathSides(way, x, y) >= 2
  {
    if j + 2 < |way| {
      PathMeetsTwice(way[..|way| - 1], i, j, x, y);
    } else {
      PathMeets(way[..|way| - 1], i, x, y);
    }
  }

  ghost predicate HollowWay(way: seq<Origin>) {
    |way| >= 3 && forall x, y :: CycleSides(way, x, y) <= Has(Joined(x, y))
  }

  /** Every step is along the cut. */
  lemma WayStep(way: seq<Origin>, i: nat)
    requires HollowWay(way) && i < |way|
    ensures Joined(way[i], way[After(i, |way|)])
  {
    var x, y := way[i], way[After(i, |way|)];
    if i + 1 < |way| { PathMeets(way, i, x, y); }
    assert CycleSides(way, x, y) <= Has(Joined(x, y));
  }

  /** No two steps are along the same segment. */
  lemma WaySteps(way: seq<Origin>, i: nat, j: nat)
    requires HollowWay(way) && i < j < |way|
    ensures Joins(way[j], way[After(j, |way|)], way[i], way[After(i, |way|)]) == 0
  {
    var x, y := way[i], way[After(i, |way|)];
    assert CycleSides(way, x, y) <= Has(Joined(x, y)) <= 1;
    if Joins(way[j], way[After(j, |way|)], x, y) == 1 {
      if j + 1 < |way| { PathMeetsTwice(way, i, j, x, y); } else { PathMeets(way, i, x, y); }
    }
  }

  /** A closed way of three steps or more goes round one of the rings once. */
  lemma WayIsRing(way: seq<Origin>)
    requires HollowWay(way)
    ensures |way| == 3 && Joined(way[0], way[1]) && Joined(way[1], way[2]) && Joined(way[2], way[0])
  {
    var n := |way|;
    WayStep(way, 0);
    WayStep(way, 1);
    WaySteps(way, 0, 1);
    if n > 3 {
      WayStep(way, 2);
      WayStep(way, 3);
      WaySteps(way, 1, 2);
      assert way[3] == way[0];
      WaySteps(way, 0, 3);
      WaySteps(way, 2, 3);
      assert false;
    }
  }

  /** Where the crossings are seen. */
  function Spot(o: Origin): (r: Vec2) {
    if o == Crossing(0, 1) then Vec2(-4.0, 4.0) else if o == Crossing(0, 2) then Vec2(-4.0, -4.0)
    else if o == Crossing(0, 3) then Vec2(4.0, 0.0) else if o == Crossing(4, 5) then Vec2(-1.0, 1.0)
    else if o == Crossing(4, 6) then Vec2(-1.0, -1.0) else Vec2(1.0, 0.0)
  }

  lemma ViewOf(p: Vec3)
    ensures VIEW.Project(p) == Vec2(p.y, p.x)
  {
  }

  lemma Middle(p: Vec3, q: Vec3)
    requires p.z == -q.z && p.z != 0.0
    ensures LEVEL.Distance(p) != LEVEL.Distance(q)
    ensures LEVEL.Distance(p) / (LEVEL.Distance(p) - LEVEL.Distance(q)) == 0.5
  {
    LevelDistance(p);
    LevelDistance(q);
    var d, f := p.z, q.z;
    var t := d / (d - f);
    assert t * (d - f) == d;
    Cancel(t, 0.5, d - f);
  }

  function Halfway(p: Vec3, q: Vec3): (r: Vec3) { Vec3((p.x + q.x) * 0.5, (p.y + q.y) * 0.5, (p.z + q.z) * 0.5) }

  lemma HalfwayAlong(p: Vec3, q: Vec3)
    ensures p.Plus(q.Minus(p).Scale(0.5)) == Halfway(p, q)
  {
  }

  lemma PlacedHalfway(input: seq<Vec3>, lo: nat, hi: nat, p: Vec3, q: Vec3)
    requires lo < |input| && hi < |input| && input[lo] == p && input[hi] == q && p.z == -q.z && p.z != 0.0
    ensures Position(input, LEVEL, Crossing(lo, hi)) == Halfway(p, q)
  {
    Middle(p, q);
    HalfwayAlong(p, q);
  }

  lemma HalfwayIs(p: Vec3, q: Vec3, m: Vec3)
    requires m.x + m.x == p.x + q.x && m.y + m.y == p.y + q.y && m.z + m.z == p.z + q.z
    ensures Halfway(p, q) == m
  {
  }

  lemma SpotHalfway(lo: nat, hi: nat)
    requires (lo == 0 && 1 <= hi <= 3) || (lo == 4 && 5 <= hi <= 7)
    ensures var m := Halfway(CornerOf(lo), CornerOf(hi)); Spot(Crossing(lo, hi)) == Vec2(m.y, m.x)
    ensures CornerOf(lo).z == -CornerOf(hi).z && CornerOf(lo).z != 0.0
  {
    var s := Spot(Crossing(lo, hi));
    HalfwayIs(CornerOf(lo), CornerOf(hi), Vec3(s.y, s.x, 0.0));
  }

  lemma SeenAtSpot(lo: nat, hi: nat)
    requires (lo == 0 && 1 <= hi <= 3) || (lo == 4 && 5 <= hi <= 7)
    ensures Seen(Corners(), LEVEL, VIEW, Crossing(lo, hi)) == Spot(Crossing(lo, hi))
  {
    var p, q := CornerOf(lo), CornerOf(hi);
    SpotHalfway(lo, hi);
    PlacedHalfway(Corners(), lo, hi, p, q);
    ViewOf(Halfway(p, q));
  }

  lemma SpotsTurn(a: Origin, b: Origin, c: Origin)
    requires Joined(a, b) && Joined(b, c) && Joined(c, a)
    ensures Abs(Cross2(Spot(a), Spot(b), Spot(c))) >= 4.0
  {
  }

  lemma JoinedIsSeen(u: Origin, v: Origin)
    requires Joined(u, v)
    ensures OriginIn(Corners(), u) && Seen(Corners(), LEVEL, VIEW, u) == Spot(u)
  {
    SeenAtSpot(u.lo, u.hi);
  }

  lemma ApexesAbove()
    ensures forall p: nat :: Above()(p) <==> p == 0 || p == 4
  {
    forall p: nat ensures Above()(p) <==> p == 0 || p == 4 { OnlyApexes(p); }
  }

  /** Every closed way along the cut is one of the rings, and looks like its triangle. */
  lemma CutWayIsRing(way: seq<Origin>)
    requires CutWay(Corners(), Outer() + Inner(), way) && |way| >= 3
    ensures |way| == 3 && Joined(way[0], way[1]) && Joined(way[1], way[2]) && Joined(way[2], way[0])
    ensures View(Corners(), LEVEL, VIEW, way) == [Spot(way[0]), Spot(way[1]), Spot(way[2])]
  {
    forall x, y ensures CycleSides(way, x, y) <= Has(Joined(x, y)) { CutSides(x, y); }
    WayIsRing(way);
    JoinedIsSeen(way[0], way[1]);
    JoinedIsSeen(way[1], way[2]);
    JoinedIsSeen(way[2], way[0]);
    OfThree(View(Corners(), LEVEL, VIEW, way));
  }

  lemma OfThree<V>(v: seq<V>)
    requires |v| == 3
    ensures v == [v[0], v[1], v[2]]
  {
  }

  lemma RingIsConvex(q: seq<Vec2>)
    requires |q| == 3 && Abs(Cross2(q[0], q[1], q[2])) >= 4.0
    ensures CapFilling.Convex(q)
  {
  }

  /** The mesh meets every condition for being capped. */
  lemma HollowIsCapped()
    ensures ConvexCuts(Corners(), LEVEL, VIEW, AllCuts(Hollow(), Above())) && !OddSplitEdge(Hollow(), Above())
  {
    ApexesAbove();
    HollowCuts(Above());
    HollowIsManifold();
    forall way | CutWay(Corners(), Outer() + Inner(), way) && |way| >= 3
      ensures CapFilling.Convex(View(Corners(), LEVEL, VIEW, way))
    {
      CutWayIsRing(way);
      SpotsTurn(way[0], way[1], way[2]);
      RingIsConvex(View(Corners(), LEVEL, VIEW, way));
    }
  }

  // ----- The wrong cap ------------------------------------------------------------------------------

  lemma {:induction false} SomeLoop(loops: seq<seq<nat>>, x: nat, y: nat) returns (i: nat)
    requires LoopSides(loops, x, y) > 0
    ensures i < |loops| && CycleSides(loops[i], x, y) > 0
  {
    i := |loops| - 1;
    if CycleSides(loops[i], x, y) == 0 { i := SomeLoop(loops[..i], x, y); }
  }

  lemma {:induction false} OffLoop(loop: seq<nat>, x: nat, y: nat)
    requires x !in loop || y !in loop
    ensures PathSides(loop, x, y) == 0 && CycleSides(loop, x, y) == 0
  {
    if |loop| >= 2 { OffLoop(loop[..|loop| - 1], x, y); }
  }

  lemma ThreeFlux(s: seq<nat>, w: Cochain)
    requires |s| == 3
    ensures CycleFlux(s, w) == w(s[0], s[1]) + w(s[1], s[2]) + w(s[2], s[0])
  {
    assert s[..2][..1] == s[..1];
    assert PathFlux(s[..1], w) == 0.0;
    assert PathFlux(s[..2], w) == w(s[0], s[1]);
  }

  lemma ThreeArea(points: seq<Vec3>, frame: Frame, s: seq<nat>)
    requires |s| == 3 && InLoop(s, points)
    ensures CycleFlux(s, AreaForm(points, frame))
         == Cross2(frame.Project(points[s[0]]), frame.Project(points[s[1]]), frame.Project(points[s[2]]))
  {
    ThreeFlux(s, AreaForm(points, frame));
    CrossIsFlux(points, frame, s[0], s[1], s[2]);
  }

  /** A loop of three points along a ring of three segments runs with them or against them, and its area tells which. */
  lemma RingDirections(ds: seq<Segment<nat>>, p: nat, q: nat, r: nat, s: seq<nat>)
    requires Segment(p, q) in ds && Segment(q, r) in ds && Segment(r, p) in ds && p != q && q != r && r != p
    requires |s| == 3 && s[0] in {p, q, r} && s[1] in {p, q, r} && s[2] in {p, q, r}
    requires s[0] != s[1] && s[1] != s[2] && s[2] != s[0]
    ensures s in {[p, q, r], [q, r, p], [r, p, q]} ==> RunsWith(ds, s)
    ensures s in {[p, r, q], [r, q, p], [q, p, r]} ==> RunsAgainst(ds, s)
    ensures s in {[p, q, r], [q, r, p], [r, p, q], [p, r, q], [r, q, p], [q, p, r]}
  {
    OfThree(s);
  }

  lemma Cyclic(a: Vec2, b: Vec2, c: Vec2)
    ensures Cross2(a, b, c) == Cross2(b, c, a) == Cross2(c, a, b)
    ensures Cross2(a, c, b) == Cross2(c, b, a) == Cross2(b, a, c) == -Cross2(a, b, c)
  {
  }

  /** Whichever way it was traced, the loop round a ring with positive area along its segments is turned the wrong way. */
  lemma WrongWay(ds: seq<Segment<nat>>, points: seq<Vec3>, p: nat, q: nat, r: nat, s: seq<nat>)
    requires Segment(p, q) in ds && Segment(q, r) in ds && Segment(r, p) in ds && p != q && q != r && r != p
    requires GoesRound(s, p, q, r)
    requires p < |points| && q < |points| && r < |points|
    requires Cross2(VIEW.Project(points[p]), VIEW.Project(points[q]), VIEW.Project(points[r])) > 0.0
    ensures !NegativeAlong(ds, points, VIEW, s)
  {
    RingDirections(ds, p, q, r, s);
    ThreeArea(points, VIEW, s);
    Cyclic(VIEW.Project(points[p]), VIEW.Project(points[q]), VIEW.Project(points[r]));
  }

  /** The cut consists of the two rings. */
  ghost predicate TwoRings(ts: seq<Tri<nat>>, inside: Side) {
    && |DirectedCuts(ts, inside)| == 6
    && DirectedCuts(ts, inside)[3] == Segment(Crossing(4, 5), Crossing(4, 6))
    && DirectedCuts(ts, inside)[4] == Segment(Crossing(4, 7), Crossing(4, 5))
    && DirectedCuts(ts, inside)[5] == Segment(Crossing(4, 6), Crossing(4, 7))
    && forall x, y :: SegmentSides(AllCuts(ts, inside), x, y) == Has(Joined(x, y))
  }

  lemma HollowRings()
    ensures TwoRings(Hollow(), Above())
  {
    ApexesAbove();
    HollowCuts(Above());
    forall x, y ensures SegmentSides(AllCuts(Hollow(), Above()), x, y) == Has(Joined(x, y)) { CutSides(x, y); }
  }

  ghost predicate InnerIds(origins: seq<Origin>, p: nat, q: nat, r: nat) {
    && p < |origins| && q < |origins| && r < |origins|
    && origins[p] == Crossing(4, 5) && origins[q] == Crossing(4, 6) && origins[r] == Crossing(4, 7)
  }

  /** The ids of the inner ring, and its segments as the clipped polygons run. */
  lemma InnerRing(ts: seq<Tri<nat>>, inside: Side, origins: seq<Origin>, segments: seq<Segment<nat>>)
    returns (p: nat, q: nat, r: nat)
    requires Injective(origins) && SegmentsLiftTo(origins, segments, AllCuts(ts, inside)) && TwoRings(ts, inside)
    ensures InnerIds(origins, p, q, r)
    ensures var ds := Directed(ts, inside, segments); Segment(p, q) in ds && Segment(q, r) in ds && Segment(r, p) in ds
  {
    var ds := Directed(ts, inside, segments);
    DirectedLifts(ts, inside, origins, segments);
    p, q, r := ds[3].a, ds[3].b, ds[4].a;
    assert origins[ds[4].b] == origins[p] && origins[ds[5].a] == origins[q] && origins[ds[5].b] == origins[r];
    assert ds[3] == Segment(p, q) && ds[4] == Segment(r, p) && ds[5] == Segment(q, r);
  }

  ghost predicate GoesRound(s: seq<nat>, p: nat, q: nat, r: nat) {
    && |s| == 3 && s[0] in {p, q, r} && s[1] in {p, q, r} && s[2] in {p, q, r}
    && s[0] != s[1] && s[1] != s[2] && s[2] != s[0]
  }

  /** A loop over the first segment of the inner ring. */
  lemma LoopOverInner(ts: seq<Tri<nat>>, inside: Side, output: ClipOutput, segments: seq<Segment<nat>>,
                      loops: seq<seq<nat>>, caps: seq<Tri<nat>>, p: nat, q: nat, r: nat) returns (i: nat)
    requires Injective(output.origins) && TwoRings(ts, inside) && Capped(segments, loops, caps)
    requires SegmentsLiftTo(output.origins, segments, AllCuts(ts, inside)) && InnerIds(output.origins, p, q, r)
    ensures i < |loops| && CycleSides(loops[i], p, q) == 1
  {
    LiftSegments(output.origins, segments, AllCuts(ts, inside), p, q);
    assert LoopSides(loops, p, q) == SegmentSides(segments, p, q) == Has(Joined(Crossing(4, 5), Crossing(4, 6))) == 1;
    i := SomeLoop(loops, p, q);
    PartOfLoops(loops, i, p, q);
  }

  /** The loop that was traced round the inner ring. */
  lemma InnerLoop(ts: seq<Tri<nat>>, inside: Side, frame: Frame, output: ClipOutput, segments: seq<Segment<nat>>,
                  loops: seq<seq<nat>>, p: nat, q: nat, r: nat) returns (i: nat)
    requires Injective(output.origins) && PointsPlaced(output) && TwoRings(ts, inside)
    requires CapsExact(ts, inside, frame, output, segments, loops) && InnerIds(output.origins, p, q, r)
    ensures i < |loops| && GoesRound(loops[i], p, q, r)
  {
    var caps := output.triangles[|AllFans(ts, inside)|..];
    i := LoopOverInner(ts, inside, output, segments, loops, caps, p, q, r);
    PatchedFillable(output.points, frame, loops, caps);
    forall x: nat, y: nat ensures CycleSides(loops[i], x, y) <= SegmentSides(segments, x, y) { PartOfLoops(loops, i, x, y); }
    LoopGoesRound(output, segments, AllCuts(ts, inside), loops[i], p, q, r);
  }

  lemma LoopGoesRound(output: ClipOutput, segments: seq<Segment<nat>>, cuts: seq<Segment<Origin>>, s: seq<nat>,
                      p: nat, q: nat, r: nat)
    requires Injective(output.origins) && PointsPlaced(output) && InnerIds(output.origins, p, q, r)
    requires SegmentsLiftTo(output.origins, segments, cuts) && forall x, y :: SegmentSides(cuts, x, y) == Has(Joined(x, y))
    requires InLoop(s, output.points) && forall x: nat, y: nat :: CycleSides(s, x, y) <= SegmentSides(segments, x, y)
    requires CycleSides(s, p, q) == 1
    ensures GoesRound(s, p, q, r)
  {
    var way := Lifted(output.origins, s);
    if |s| < 3 { ShortLoop(s, p, q); }
    WayLifts(output.input, output, segments, cuts, s);
    forall x, y ensures CycleSides(way, x, y) <= Has(Joined(x, y)) {
      assert CycleSides(way, x, y) <= SegmentSides(cuts, x, y);
    }
    WayIsRing(way);
    if p !in s { OffLoop(s, p, q); }
    InnerCorners(output.origins, s, p, q, r);
  }

  lemma InnerCorners(origins: seq<Origin>, s: seq<nat>, p: nat, q: nat, r: nat)
    requires Injective(origins) && InnerIds(origins, p, q, r) && |s| == 3 && p in s
    requires s[0] < |origins| && s[1] < |origins| && s[2] < |origins|
    requires Joined(origins[s[0]], origins[s[1]]) && Joined(origins[s[1]], origins[s[2]])
    requires Joined(origins[s[2]], origins[s[0]])
    ensures GoesRound(s, p, q, r)
  {
    assert p == s[0] || p == s[1] || p == s[2];
  }

  lemma InnerArea(output: ClipOutput, p: nat, q: nat, r: nat)
    requires PointsPlaced(output) && output.input == Corners() && output.plane == LEVEL && InnerIds(output.origins, p, q, r)
    ensures Cross2(VIEW.Project(output.points[p]), VIEW.Project(output.points[q]), VIEW.Project(output.points[r])) == 4.0
  {
    SpotIsSeen(output, p, Crossing(4, 5));
    SpotIsSeen(output, q, Crossing(4, 6));
    SpotIsSeen(output, r, Crossing(4, 7));
    InnerTurn();
  }

  lemma InnerTurn()
    ensures Cross2(Spot(Crossing(4, 5)), Spot(Crossing(4, 6)), Spot(Crossing(4, 7))) == 4.0
  {
  }

  lemma SpotIsSeen(output: ClipOutput, p: nat, o: Origin)
    requires PointsPlaced(output) && output.input == Corners() && output.plane == LEVEL
    requires p < |output.origins| && output.origins[p] == o && (o.Crossing? && o.lo == 4 && 5 <= o.hi <= 7)
    ensures VIEW.Project(output.points[p]) == Spot(o)
  {
    SeenAtSpot(o.lo, o.hi);
  }

  /** Whatever is returned for the hollow body with caps on is not oriented. */
  lemma HollowIsNotOriented(input: seq<Vec3>, ts: seq<Tri<nat>>, output: ClipOutput, segments: seq<Segment<nat>>,
                            loops: seq<seq<nat>>)
    requires input == Corners() && TwoRings(ts, KeptSideOf(input, LEVEL, false)) && Balanced(ts) && Manifold(ts)
    requires GoodClip(input, ts, LEVEL, false, true, output)
    requires CapsExact(ts, KeptSideOf(input, LEVEL, false), VIEW, output, segments, loops)
    ensures !Balanced(output.triangles)
  {
    var inside := KeptSideOf(input, LEVEL, false);
    OrientedWhenNegative(input, ts, LEVEL, false, VIEW, output, segments, loops);
    var p, q, r := InnerRing(ts, inside, output.origins, segments);
    var i := InnerLoop(ts, inside, VIEW, output, segments, loops, p, q, r);
    InnerArea(output, p, q, r);
    WrongWay(Directed(ts, inside, segments), output.points, p, q, r, loops[i]);
  }

  lemma HollowIsInput(input: seq<Vec3>, ts: seq<Tri<nat>>)
    requires input == Corners() && ts == Hollow()
    ensures ts != [] && forall t :: t in ts ==> InputTriangle(input, t)
  {
  }

  /** The hollow body is clipped and capped, and what comes out is not oriented, although it went in so. */
  method ClipHollow(input: seq<Vec3>, ts: seq<Tri<nat>>) returns (outcome: Outcome, output: ClipOutput)
    requires input == Corners() && ts == Hollow()
    ensures Balanced(ts) && Manifold(ts)
    ensures outcome == Clipped && GoodClip(input, ts, LEVEL, false, true, output) && !Balanced(output.triangles)
  {
    HollowIsBalanced();
    HollowIsManifold();
    HollowIsCapped();
    HollowRings();
    HollowIsInput(input, ts);
    ghost var segments, loops, done;
    outcome, output, segments, loops, done := Clip(input, ts, LEVEL, false, true, VIEW);
    HollowIsNotOriented(input, ts, output, segments, loops);
  }
}
