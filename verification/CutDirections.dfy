/**
 * The cut segments of a clipped mesh, each directed as the polygon that it bounds runs.  The clipped surface has the
 * oriented boundary of the kept parts of the input sides and of the directed cuts together.
 */
module CutDirections {
  import opened Geometry
  import opened Chains
  import opened ClipOutputs
  import opened CapLoops
  import opened ClipTriangles
  import opened OrientedMeshes
  import EarClip
  import ClipFilter

  // ----- Directed segments --------------------------------------------------------------------------

  ghost function SegmentFlux<V>(ss: seq<Segment<V>>, w: Form<V>): (r: real) {
    if ss == [] then 0.0 else SegmentFlux(ss[..|ss| - 1], w) + w(ss[|ss| - 1].a, ss[|ss| - 1].b)
  }

  lemma {:induction false} SegmentFluxConcat<V>(s: seq<Segment<V>>, t: seq<Segment<V>>, w: Form<V>)
    ensures SegmentFlux(s + t, w) == SegmentFlux(s, w) + SegmentFlux(t, w)
    decreases |t|
  {
    if t == [] {
      assert s + t == s;
    } else {
      assert (s + t)[..|s + t| - 1] == s + t[..|t| - 1];
      SegmentFluxConcat(s, t[..|t| - 1], w);
    }
  }

  /** How many segments leave a vertex, and how many arrive there. */
  function Out<V(==)>(ss: seq<Segment<V>>, v: V): (n: nat) {
    if ss == [] then 0 else Out(ss[..|ss| - 1], v) + Has(ss[|ss| - 1].a == v)
  }

  function In<V(==)>(ss: seq<Segment<V>>, v: V): (n: nat) {
    if ss == [] then 0 else In(ss[..|ss| - 1], v) + Has(ss[|ss| - 1].b == v)
  }

  lemma {:induction false} OutInConcat<V>(s: seq<Segment<V>>, t: seq<Segment<V>>, v: V)
    ensures Out(s + t, v) == Out(s, v) + Out(t, v) && In(s + t, v) == In(s, v) + In(t, v)
    decreases |t|
  {
    if t == [] {
      assert s + t == s;
    } else {
      assert (s + t)[..|s + t| - 1] == s + t[..|t| - 1];
      OutInConcat(s, t[..|t| - 1], v);
    }
  }

  function Flipped<V>(s: Segment<V>): (r: Segment<V>) { Segment(s.b, s.a) }

  /** The same segments, some of them turned round. */
  ghost predicate Redirected<V>(ss: seq<Segment<V>>, ds: seq<Segment<V>>) {
    |ss| == |ds| && forall i :: 0 <= i < |ss| ==> ds[i] == ss[i] || ds[i] == Flipped(ss[i])
  }

  // ----- One triangle -------------------------------------------------------------------------------

  /** The cut of a polygon, directed as the polygon runs: its crossings follow each other, maybe across the start. */
  function Along(p: seq<Origin>): (r: seq<Segment<Origin>>) {
    var c := Cut(p);
    if c != [] && p != [] && p[0].Crossing? && p[|p| - 1].Crossing? then [Flipped(c[0])] else c
  }

  function Between(x: Origin, y: Origin): (r: seq<Segment<Origin>>) { if x == y then [] else [Segment(x, y)] }

  /** The cut leads from the side that leaves the kept half to the side that comes back to it. */
  lemma AlongCases(t: Tri<nat>, inA: bool, inB: bool, inC: bool)
    ensures var d := Along(Polygon(t, inA, inB, inC));
            var ab, bc, ca := CrossingOf(t.a, t.b), CrossingOf(t.b, t.c), CrossingOf(t.c, t.a);
            && (inA == inB == inC ==> d == [])
            && (inA && inB && !inC ==> d == Between(bc, ca)) && (!inA && !inB && inC ==> d == Between(ca, bc))
            && (inA && !inB && inC ==> d == Between(ab, bc)) && (!inA && inB && !inC ==> d == Between(bc, ab))
            && (!inA && inB && inC ==> d == Between(ca, ab)) && (inA && !inB && !inC ==> d == Between(ab, ca))
  {
    PolygonCases(t, inA, inB, inC);
    CutCases(t, inA, inB, inC);
  }

  /** What a form makes of the kept part of a directed side. */
  function SidePartForm(s: nat, e: nat, sIn: bool, eIn: bool, h: Form<Origin>): (r: real) {
    if sIn && eIn then h(Corner(s), Corner(e))
    else if sIn then h(Corner(s), CrossingOf(s, e))
    else if eIn then h(CrossingOf(s, e), Corner(e))
    else 0.0
  }

  ghost function KeptForm(inside: Side, h: Form<Origin>): (w: Cochain) {
    (s: nat, e: nat) => SidePartForm(s, e, inside(s), inside(e), h)
  }

  lemma SidePartTurns(s: nat, e: nat, sIn: bool, eIn: bool, h: Form<Origin>)
    requires Antisymmetric(h) && (s == e ==> sIn == eIn)
    ensures SidePartForm(s, e, sIn, eIn, h) == -SidePartForm(e, s, eIn, sIn, h)
  {
    assert CrossingOf(s, e) == CrossingOf(e, s);
    assert h(Corner(s), Corner(e)) == -h(Corner(e), Corner(s));
    assert h(Corner(s), CrossingOf(s, e)) == -h(CrossingOf(s, e), Corner(s));
    assert h(CrossingOf(s, e), Corner(e)) == -h(Corner(e), CrossingOf(s, e));
  }

  lemma KeptFormTurns(inside: Side, h: Form<Origin>)
    requires Antisymmetric(h)
    ensures Antisymmetric(KeptForm(inside, h))
  {
    var w := KeptForm(inside, h);
    forall s: nat, e: nat ensures w(s, e) == -w(e, s) {
      SidePartTurns(s, e, inside(s), inside(e), h);
    }
  }

  ghost function OutlineForm(p: seq<Origin>, h: Form<Origin>): (r: real) {
    if |p| == 3 then h(p[0], p[1]) + h(p[1], p[2]) + h(p[2], p[0])
    else if |p| == 4 then h(p[0], p[1]) + h(p[1], p[2]) + h(p[2], p[3]) + h(p[3], p[0])
    else 0.0
  }

  lemma FanForm(p: seq<Origin>, h: Form<Origin>)
    requires Antisymmetric(h) && (p == [] || |p| == 3 || |p| == 4)
    ensures TriFlux(Fan(p), h) == OutlineForm(p, h)
  {
    var f := Fan(p);
    if |p| >= 3 {
      assert f[..1][..0] == [];
      assert TriFlux(f[..0], h) == 0.0;
      assert TriFlux(f[..1], h) == h(f[0].a, f[0].b) + h(f[0].b, f[0].c) + h(f[0].c, f[0].a);
      assert |p| == 3 ==> f[..1] == f;
      if |p| == 4 { assert h(p[2], p[0]) == -h(p[0], p[2]); }
    }
  }

  lemma BetweenFlux(x: Origin, y: Origin, h: Form<Origin>)
    requires Antisymmetric(h)
    ensures SegmentFlux(Between(x, y), h) == h(x, y)
  {
    if x == y {
      assert h(x, x) == -h(x, x);
    } else {
      assert Between(x, y)[..0] == [];
    }
  }

  /** The oriented outline of a clipped polygon: the kept parts of the sides, and the cut as it is directed. */
  lemma PolygonForm(t: Tri<nat>, inA: bool, inB: bool, inC: bool, h: Form<Origin>)
    requires Antisymmetric(h)
    ensures var p := Polygon(t, inA, inB, inC);
            OutlineForm(p, h) == SidePartForm(t.a, t.b, inA, inB, h) + SidePartForm(t.b, t.c, inB, inC, h)
                               + SidePartForm(t.c, t.a, inC, inA, h) + SegmentFlux(Along(p), h)
  {
    PolygonCases(t, inA, inB, inC);
    AlongCases(t, inA, inB, inC);
    var ab, bc, ca := CrossingOf(t.a, t.b), CrossingOf(t.b, t.c), CrossingOf(t.c, t.a);
    BetweenFlux(ab, bc, h);
    BetweenFlux(bc, ca, h);
    BetweenFlux(ca, ab, h);
    BetweenFlux(bc, ab, h);
    BetweenFlux(ca, bc, h);
    BetweenFlux(ab, ca, h);
  }

  lemma TriangleForm(t: Tri<nat>, inside: Side, h: Form<Origin>)
    requires Antisymmetric(h)
    ensures var p, w := PolygonOf(t, inside), KeptForm(inside, h);
            TriFlux(Fan(p), h) == w(t.a, t.b) + w(t.b, t.c) + w(t.c, t.a) + SegmentFlux(Along(p), h)
  {
    PolygonCases(t, inside(t.a), inside(t.b), inside(t.c));
    FanForm(PolygonOf(t, inside), h);
    PolygonForm(t, inside(t.a), inside(t.b), inside(t.c), h);
  }

  // ----- The whole mesh -----------------------------------------------------------------------------

  /** The cut segments of all triangles, directed as their polygons run. */
  ghost function DirectedCuts(ts: seq<Tri<nat>>, inside: Side): (r: seq<Segment<Origin>>) {
    if ts == [] then []
    else DirectedCuts(ts[..|ts| - 1], inside) + Along(PolygonOf(ts[|ts| - 1], inside))
  }

  lemma {:induction false} CutsRedirected(ts: seq<Tri<nat>>, inside: Side)
    ensures Redirected(AllCuts(ts, inside), DirectedCuts(ts, inside))
  {
    if ts != [] {
      CutsRedirected(ts[..|ts| - 1], inside);
      var p := PolygonOf(ts[|ts| - 1], inside);
      assert Redirected(Cut(p), Along(p));
    }
  }

  /** The clipped surface is bounded, with orientation, by the kept parts of the input sides and the directed cuts. */
  lemma {:induction false} SurfaceForm(ts: seq<Tri<nat>>, inside: Side, h: Form<Origin>)
    requires Antisymmetric(h)
    ensures TriFlux(AllFans(ts, inside), h) == TriFlux(ts, KeptForm(inside, h)) + SegmentFlux(DirectedCuts(ts, inside), h)
  {
    if ts != [] {
      var n := |ts| - 1;
      var p := PolygonOf(ts[n], inside);
      SurfaceForm(ts[..n], inside, h);
      TriangleForm(ts[n], inside, h);
      TriFluxConcat(AllFans(ts[..n], inside), Fan(p), h);
      SegmentFluxConcat(DirectedCuts(ts[..n], inside), Along(p), h);
    }
  }

  /** Of a balanced mesh nothing is left but the directed cuts. */
  lemma BalancedSurface(ts: seq<Tri<nat>>, inside: Side, h: Form<Origin>)
    requires Balanced(ts) && Antisymmetric(h)
    ensures TriFlux(AllFans(ts, inside), h) == SegmentFlux(DirectedCuts(ts, inside), h)
  {
    SurfaceForm(ts, inside, h);
    KeptFormTurns(inside, h);
    assert TriFlux(ts, KeptForm(inside, h)) == 0.0;
  }

  // ----- Degrees ------------------------------------------------------------------------------------

  lemma BetweenDegrees(x: Origin, y: Origin, v: Origin)
    ensures Out(Between(x, y), v) == Has(x != y && x == v) && In(Between(x, y), v) == Has(x != y && y == v)
  {
    if x != y { assert Between(x, y)[..0] == []; }
  }

  /** The cut leaves a crossing when the triangle runs out of the kept half there, and arrives when it runs back. */
  lemma AlongDegrees(t: Tri<nat>, inside: Side, p: nat, q: nat)
    requires inside(p) && !inside(q) && EarClip.Proper(t)
    ensures var d, x := Along(PolygonOf(t, inside)), CrossingOf(p, q);
            && Out(d, x) == Goes(t.a, t.b, p, q) + Goes(t.b, t.c, p, q) + Goes(t.c, t.a, p, q)
            && In(d, x) == Goes(t.a, t.b, q, p) + Goes(t.b, t.c, q, p) + Goes(t.c, t.a, q, p)
  {
    var ab, bc, ca, x := CrossingOf(t.a, t.b), CrossingOf(t.b, t.c), CrossingOf(t.c, t.a), CrossingOf(p, q);
    AlongCases(t, inside(t.a), inside(t.b), inside(t.c));
    BetweenDegrees(ab, bc, x);
    BetweenDegrees(bc, ca, x);
    BetweenDegrees(ca, ab, x);
    BetweenDegrees(bc, ab, x);
    BetweenDegrees(ca, bc, x);
    BetweenDegrees(ab, ca, x);
  }

  lemma NextCutDegrees(ts: seq<Tri<nat>>, inside: Side, p: nat, q: nat)
    requires ts != [] && inside(p) && !inside(q) && EarClip.Proper(ts[|ts| - 1])
    ensures var x, before := CrossingOf(p, q), ts[..|ts| - 1];
            && Out(DirectedCuts(ts, inside), x) - Out(DirectedCuts(before, inside), x) == Runs(ts, p, q) - Runs(before, p, q)
            && In(DirectedCuts(ts, inside), x) - In(DirectedCuts(before, inside), x) == Runs(ts, q, p) - Runs(before, q, p)
  {
    var n := |ts| - 1;
    AlongDegrees(ts[n], inside, p, q);
    OutInConcat(DirectedCuts(ts[..n], inside), Along(PolygonOf(ts[n], inside)), CrossingOf(p, q));
    RunsNext(ts, p, q);
    RunsNext(ts, q, p);
  }

  lemma {:induction false} CutDegrees(ts: seq<Tri<nat>>, inside: Side, p: nat, q: nat)
    requires AllProper(ts) && inside(p) && !inside(q)
    ensures Out(DirectedCuts(ts, inside), CrossingOf(p, q)) == Runs(ts, p, q)
    ensures In(DirectedCuts(ts, inside), CrossingOf(p, q)) == Runs(ts, q, p)
  {
    if ts != [] {
      assert ts[|ts| - 1] in ts && forall t :: t in ts[..|ts| - 1] ==> t in ts;
      CutDegrees(ts[..|ts| - 1], inside, p, q);
      NextCutDegrees(ts, inside, p, q);
    }
  }

  /** In a balanced mesh of at most two sides at every edge, at most one cut leaves a crossing and one arrives there. */
  lemma OneCutEachWay(ts: seq<Tri<nat>>, inside: Side, p: nat, q: nat)
    requires ClipFilter.Manifold(ts) && Balanced(ts) && inside(p) && !inside(q)
    ensures Out(DirectedCuts(ts, inside), CrossingOf(p, q)) <= 1 && In(DirectedCuts(ts, inside), CrossingOf(p, q)) <= 1
  {
    CutDegrees(ts, inside, p, q);
    BalancedIsEven(ts);
    assert Runs(ts, p, q) == Runs(ts, q, p);
    SidesRun(ts, p, q);
    assert SideCount(ts, p, q) <= 2;
  }
}
