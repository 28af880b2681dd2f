/** What clipping does to areas: the two sides of the plane share out the surface, whatever direction it is seen from. */
module ClipArea {
  import opened Geometry
  import opened Chains
  import opened ClipOutputs
  import opened EarClip
  import opened ClipTriangles
  import CapLoops
  import ClipFilter

  type Form = (Vec3, Vec3) -> real

  /** Twice the projected area swept from the origin along an edge. */
  function Swept(frame: Frame): (r: Form) {
    (p: Vec3, q: Vec3) => Swept2(frame.Project(p), frame.Project(q))
  }

  function Swept2(u: Vec2, v: Vec2): (r: real) { u.x * v.y - v.x * u.y }

  lemma DotAlong(axis: Vec3, p: Vec3, q: Vec3, s: real)
    ensures p.Plus(q.Minus(p).Scale(s)).Dot(axis) == p.Dot(axis) + (q.Dot(axis) - p.Dot(axis)) * s
  {
    assert (p.x + (q.x - p.x) * s) * axis.x == p.x * axis.x + (q.x * axis.x - p.x * axis.x) * s;
    assert (p.y + (q.y - p.y) * s) * axis.y == p.y * axis.y + (q.y * axis.y - p.y * axis.y) * s;
    assert (p.z + (q.z - p.z) * s) * axis.z == p.z * axis.z + (q.z * axis.z - p.z * axis.z) * s;
  }

  lemma SweptAlong2(u: Vec2, v: Vec2, r: Vec2, s: real)
    requires r == Vec2(u.x + (v.x - u.x) * s, u.y + (v.y - u.y) * s)
    ensures Swept2(u, r) + Swept2(r, v) == Swept2(u, v)
  {
    assert Swept2(u, r) == Swept2(u, v) * s;
    assert Swept2(r, v) == Swept2(u, v) * (1.0 - s);
  }

  /** A point on the line of an edge splits what the edge sweeps. */
  lemma SweptAlong(frame: Frame, p: Vec3, q: Vec3, s: real)
    ensures var r := p.Plus(q.Minus(p).Scale(s)); Swept(frame)(p, r) + Swept(frame)(r, q) == Swept(frame)(p, q)
  {
    var r := p.Plus(q.Minus(p).Scale(s));
    DotAlong(frame.axisU, p, q, s);
    DotAlong(frame.axisV, p, q, s);
    SweptAlong2(frame.Project(p), frame.Project(q), frame.Project(r), s);
  }

  // ----- One triangle -------------------------------------------------------------------------------

  function TriArea(g: Form, a: Vec3, b: Vec3, c: Vec3): (r: real) { g(a, b) + g(b, c) + g(c, a) }

  /** What a form on positions makes of vertices. */
  ghost function Between(pos: Origin -> Vec3, g: Form): (h: (Origin, Origin) -> real) { (x, y) => g(pos(x), pos(y)) }

  ghost function FanArea(fan: seq<Tri<Origin>>, pos: Origin -> Vec3, g: Form): (r: real) { TriFlux(fan, Between(pos, g)) }

  ghost predicate Alternating(g: Form) {
    forall p, q :: g(p, q) == -g(q, p)
  }

  /** On a side whose ends differ for one of the two kept sides, the crossing splits what the side sweeps. */
  ghost predicate SplitFairly(s: nat, e: nat, front: Side, back: Side, pos: Origin -> Vec3, g: Form) {
    front(s) != front(e) || back(s) != back(e) ==>
      var x, p, q := pos(CrossingOf(s, e)), pos(Corner(s)), pos(Corner(e));
      && g(p, x) + g(x, q) == g(p, q)
      && (front(s) && back(s) ==> x == p) && (front(e) && back(e) ==> x == q)
  }

  ghost function OutlineArea(p: seq<Origin>, pos: Origin -> Vec3, g: Form): (r: real)
    requires p == [] || |p| == 3 || |p| == 4
  {
    if p == [] then 0.0
    else if |p| == 3 then TriArea(g, pos(p[0]), pos(p[1]), pos(p[2]))
    else g(pos(p[0]), pos(p[1])) + g(pos(p[1]), pos(p[2])) + g(pos(p[2]), pos(p[3])) + g(pos(p[3]), pos(p[0]))
  }

  lemma FanIsOutline(p: seq<Origin>, pos: Origin -> Vec3, g: Form)
    requires Alternating(g) && (p == [] || |p| == 3 || |p| == 4)
    ensures FanArea(Fan(p), pos, g) == OutlineArea(p, pos, g)
  {
    if |p| == 4 {
      var t, u := Tri(p[0], p[1], p[2]), Tri(p[0], p[2], p[3]);
      OneTriangle(t, pos, g);
      assert Fan(p) == [t, u] && [t, u][..1] == [t];
      assert g(pos(p[2]), pos(p[0])) == -g(pos(p[0]), pos(p[2]));
    } else if |p| == 3 {
      var t := Tri(p[0], p[1], p[2]);
      OneTriangle(t, pos, g);
      assert Fan(p) == [t];
    }
  }

  lemma OneTriangle(t: Tri<Origin>, pos: Origin -> Vec3, g: Form)
    ensures FanArea([t], pos, g) == TriArea(g, pos(t.a), pos(t.b), pos(t.c))
  {
    assert [t][..0] == [];
    assert TriFlux([t][..0], Between(pos, g)) == 0.0;
  }

  /** The area kept of a triangle with corners a, b, c and crossings x, y, z on its sides, by which corners are kept. */
  ghost function Kept(inA: bool, inB: bool, inC: bool, a: Vec3, b: Vec3, c: Vec3, x: Vec3, y: Vec3, z: Vec3, g: Form): (r: real) {
    if inA then
      if inB then
        if inC then g(b, c) + g(c, a) + g(a, b) else g(b, y) + g(y, z) + g(z, a) + g(a, b)
      else
        if inC then g(x, y) + g(y, c) + g(c, a) + g(a, x) else g(x, z) + g(z, a) + g(a, x)
    else
      if inB then
        if inC then g(x, b) + g(b, c) + g(c, z) + g(z, x) else g(x, b) + g(b, y) + g(y, x)
      else
        if inC then g(y, c) + g(c, z) + g(z, y) else 0.0
  }

  lemma FanKeeps(t: Tri<nat>, inside: Side, pos: Origin -> Vec3, g: Form)
    requires Alternating(g)
    ensures FanArea(Fan(PolygonOf(t, inside)), pos, g)
         == Kept(inside(t.a), inside(t.b), inside(t.c), pos(Corner(t.a)), pos(Corner(t.b)), pos(Corner(t.c)),
                 pos(CrossingOf(t.a, t.b)), pos(CrossingOf(t.b, t.c)), pos(CrossingOf(t.c, t.a)), g)
  {
    PolygonCases(t, inside(t.a), inside(t.b), inside(t.c));
    FanIsOutline(PolygonOf(t, inside), pos, g);
  }

  /** Where the ends of a side differ for one of the two kept sides, x splits it, at an end that both keep. */
  ghost predicate Splits(x: Vec3, p: Vec3, q: Vec3, fp: bool, fq: bool, bp: bool, bq: bool, g: Form) {
    fp != fq || bp != bq ==> g(p, x) + g(x, q) == g(p, q) && (fp && bp ==> x == p) && (fq && bq ==> x == q)
  }

  /** When the front keeps the whole triangle, the back keeps what lies within the plane. */
  lemma WholeInFront(bA: bool, bB: bool, bC: bool, a: Vec3, b: Vec3, c: Vec3, x: Vec3, y: Vec3, z: Vec3, g: Form)
    requires Alternating(g) && !(bA && bB && bC)
    requires Splits(x, a, b, true, true, bA, bB, g) && Splits(y, b, c, true, true, bB, bC, g)
    requires Splits(z, c, a, true, true, bC, bA, g)
    ensures Kept(bA, bB, bC, a, b, c, x, y, z, g) == 0.0
  {
    assert g(a, a) == 0.0 && g(b, b) == 0.0 && g(c, c) == 0.0;
    assert g(a, b) == -g(b, a) && g(b, c) == -g(c, b) && g(c, a) == -g(a, c);
  }

  /** When each side keeps only part of the triangle, the parts make up the whole. */
  lemma PartsAddUp(fA: bool, fB: bool, fC: bool, bA: bool, bB: bool, bC: bool,
                   a: Vec3, b: Vec3, c: Vec3, x: Vec3, y: Vec3, z: Vec3, g: Form)
    requires Alternating(g) && (fA || bA) && (fB || bB) && (fC || bC) && !(fA && fB && fC) && !(bA && bB && bC)
    requires Splits(x, a, b, fA, fB, bA, bB, g) && Splits(y, b, c, fB, fC, bB, bC, g) && Splits(z, c, a, fC, fA, bC, bA, g)
    ensures Kept(fA, fB, fC, a, b, c, x, y, z, g) + Kept(bA, bB, bC, a, b, c, x, y, z, g) == TriArea(g, a, b, c)
  {
    assert g(a, a) == 0.0 && g(b, b) == 0.0 && g(c, c) == 0.0;
    assert g(x, y) == -g(y, x) && g(y, z) == -g(z, y) && g(z, x) == -g(x, z);
  }

  /** Both halves of a triangle together have its area; a triangle within the plane is kept by both sides. */
  lemma HalvesAddUp(t: Tri<nat>, front: Side, back: Side, pos: Origin -> Vec3, g: Form) returns (k: real)
    requires Alternating(g)
    requires (front(t.a) || back(t.a)) && (front(t.b) || back(t.b)) && (front(t.c) || back(t.c))
    requires SplitFairly(t.a, t.b, front, back, pos, g) && SplitFairly(t.b, t.c, front, back, pos, g)
    requires SplitFairly(t.c, t.a, front, back, pos, g)
    ensures k == if (front(t.a) && back(t.a)) && (front(t.b) && back(t.b)) && (front(t.c) && back(t.c)) then 2.0 else 1.0
    ensures FanArea(Fan(PolygonOf(t, front)), pos, g) + FanArea(Fan(PolygonOf(t, back)), pos, g)
         == TriArea(g, pos(Corner(t.a)), pos(Corner(t.b)), pos(Corner(t.c))) * k
  {
    FanKeeps(t, front, pos, g);
    FanKeeps(t, back, pos, g);
    var a, b, c := pos(Corner(t.a)), pos(Corner(t.b)), pos(Corner(t.c));
    var x, y, z := pos(CrossingOf(t.a, t.b)), pos(CrossingOf(t.b, t.c)), pos(CrossingOf(t.c, t.a));
    var fA, fB, fC, bA, bB, bC := front(t.a), front(t.b), front(t.c), back(t.a), back(t.b), back(t.c);
    k := 1.0;
    if fA && fB && fC {
      if bA && bB && bC { k := 2.0; } else { WholeInFront(bA, bB, bC, a, b, c, x, y, z, g); }
    } else if bA && bB && bC {
      WholeInFront(fA, fB, fC, a, b, c, x, y, z, g);
    } else {
      PartsAddUp(fA, fB, fC, bA, bB, bC, a, b, c, x, y, z, g);
    }
  }

  // ----- The whole mesh -----------------------------------------------------------------------------

  /** Where an output vertex lies; vertices that no input point stands behind are put at the first point. */
  ghost function Placed(input: seq<Vec3>, plane: Plane): (r: Origin -> Vec3)
    requires input != []
  {
    (o: Origin) =>
      match o
      case Corner(p) => if p < |input| then input[p] else input[0]
      case Crossing(lo, hi) => if lo < |input| && hi < |input| then Position(input, plane, o) else input[0]
  }

  lemma CrossingIsFair(input: seq<Vec3>, plane: Plane, frame: Frame, s: nat, e: nat)
    requires s < |input| && e < |input|
    ensures SplitFairly(s, e, ClipFilter.KeptSideOf(input, plane, false), ClipFilter.KeptSideOf(input, plane, true),
                        Placed(input, plane), Swept(frame))
  {
    var d, f := plane.Distance(input[s]), plane.Distance(input[e]);
    if d != f {
      ClipFilter.PositionSymmetric(input, plane, s, e);
      EndOfEdge(d, f, d - f, d / (d - f));
      SweptAlong(frame, input[s], input[e], d / (d - f));
    }
  }

  lemma EndOfEdge(d: real, f: real, r: real, k: real)
    requires r == d - f && r != 0.0 && k == d / r
    ensures d == 0.0 ==> k == 0.0
    ensures f == 0.0 ==> k == 1.0
  {
    assert k * r == d;
    if d == 0.0 { Cancel(k, 0.0, r); }
    if f == 0.0 { Cancel(k, 1.0, r); }
  }

  ghost predicate AllInput(input: seq<Vec3>, ts: seq<Tri<nat>>) {
    forall i :: 0 <= i < |ts| ==> ClipFilter.InputTriangle(input, ts[i])
  }

  /** Twice the projected area of a mesh. */
  ghost function MeshArea(input: seq<Vec3>, ts: seq<Tri<nat>>, g: Form): (r: real)
    requires AllInput(input, ts)
  {
    if ts == [] then 0.0
    else
      var t := ts[|ts| - 1];
      MeshArea(input, ts[..|ts| - 1], g) + TriArea(g, input[t.a], input[t.b], input[t.c])
  }

  predicate OnPlane(plane: Plane, p: Vec3) { plane.Distance(p) == 0.0 }

  predicate InPlane(input: seq<Vec3>, plane: Plane, t: Tri<nat>)
    requires t.a < |input| && t.b < |input| && t.c < |input|
  {
    OnPlane(plane, input[t.a]) && OnPlane(plane, input[t.b]) && OnPlane(plane, input[t.c])
  }

  /** The triangles that lie within the plane. */
  ghost function Within(input: seq<Vec3>, plane: Plane, ts: seq<Tri<nat>>): (r: seq<Tri<nat>>)
    requires AllInput(input, ts)
    ensures AllInput(input, r)
  {
    if ts == [] then []
    else
      var t := ts[|ts| - 1];
      Within(input, plane, ts[..|ts| - 1]) + if InPlane(input, plane, t) then [t] else []
  }

  /** Twice the projected area of the clipped surface on one side. */
  ghost function SurfaceArea(input: seq<Vec3>, plane: Plane, insideOut: bool, ts: seq<Tri<nat>>, g: Form): (r: real)
    requires input != []
  {
    FanArea(AllFans(ts, ClipFilter.KeptSideOf(input, plane, insideOut)), Placed(input, plane), g)
  }

  lemma {:induction false} NextSurface(ts: seq<Tri<nat>>, inside: Side, pos: Origin -> Vec3, g: Form)
    requires ts != []
    ensures var n := |ts| - 1;
            FanArea(AllFans(ts, inside), pos, g)
            == FanArea(AllFans(ts[..n], inside), pos, g) + FanArea(Fan(PolygonOf(ts[n], inside)), pos, g)
  {
    TriFluxConcat(AllFans(ts[..|ts| - 1], inside), Fan(PolygonOf(ts[|ts| - 1], inside)), Between(pos, g));
  }

  /** What the two sides of a plane have to do with each other and with positions. */
  ghost predicate Sharing(input: seq<Vec3>, plane: Plane, front: Side, back: Side, pos: Origin -> Vec3, g: Form) {
    && Alternating(g)
    && (forall p :: 0 <= p < |input| ==> pos(Corner(p)) == input[p])
    && (forall p :: 0 <= p < |input| ==> (front(p) || back(p)) && (front(p) && back(p) <==> OnPlane(plane, input[p])))
    && (forall s, e :: 0 <= s < |input| && 0 <= e < |input| ==> SplitFairly(s, e, front, back, pos, g))
  }

  lemma PlaneShares(input: seq<Vec3>, plane: Plane, frame: Frame)
    requires input != []
    ensures Sharing(input, plane, ClipFilter.KeptSideOf(input, plane, false), ClipFilter.KeptSideOf(input, plane, true),
                    Placed(input, plane), Swept(frame))
  {
    forall s, e | 0 <= s < |input| && 0 <= e < |input|
      ensures SplitFairly(s, e, ClipFilter.KeptSideOf(input, plane, false), ClipFilter.KeptSideOf(input, plane, true),
                          Placed(input, plane), Swept(frame))
    {
      CrossingIsFair(input, plane, frame, s, e);
    }
  }

  lemma {:induction false} NextWithin(input: seq<Vec3>, plane: Plane, ts: seq<Tri<nat>>, g: Form, k: real)
    requires ts != [] && AllInput(input, ts)
    requires k == if InPlane(input, plane, ts[|ts| - 1]) then 2.0 else 1.0
    ensures var n, t := |ts| - 1, ts[|ts| - 1];
            MeshArea(input, ts, g) + MeshArea(input, Within(input, plane, ts), g)
            == MeshArea(input, ts[..n], g) + MeshArea(input, Within(input, plane, ts[..n]), g)
             + TriArea(g, input[t.a], input[t.b], input[t.c]) * k
  {
    var t := ts[|ts| - 1];
    var w := Within(input, plane, ts[..|ts| - 1]);
    assert (w + [t])[..|w|] == w && w + [] == w;
  }

  lemma TriangleShared(input: seq<Vec3>, plane: Plane, front: Side, back: Side, pos: Origin -> Vec3, g: Form, t: Tri<nat>)
    returns (k: real)
    requires Sharing(input, plane, front, back, pos, g) && ClipFilter.InputTriangle(input, t)
    ensures k == if InPlane(input, plane, t) then 2.0 else 1.0
    ensures FanArea(Fan(PolygonOf(t, front)), pos, g) + FanArea(Fan(PolygonOf(t, back)), pos, g)
         == TriArea(g, input[t.a], input[t.b], input[t.c]) * k
  {
    k := HalvesAddUp(t, front, back, pos, g);
  }

  lemma {:induction false} SharedArea(input: seq<Vec3>, plane: Plane, front: Side, back: Side, pos: Origin -> Vec3,
                                      g: Form, ts: seq<Tri<nat>>)
    requires Sharing(input, plane, front, back, pos, g) && AllInput(input, ts)
    ensures FanArea(AllFans(ts, front), pos, g) + FanArea(AllFans(ts, back), pos, g)
         == MeshArea(input, ts, g) + MeshArea(input, Within(input, plane, ts), g)
  {
    if ts != [] {
      var n := |ts| - 1;
      SharedArea(input, plane, front, back, pos, g, ts[..n]);
      var k := TriangleShared(input, plane, front, back, pos, g, ts[n]);
      NextSurface(ts, front, pos, g);
      NextSurface(ts, back, pos, g);
      NextWithin(input, plane, ts, g, k);
    }
  }

  /**
   * Clipping a mesh once for each side yields surfaces whose areas add up to the mesh's, seen along any direction,
   * except that triangles within the plane are kept by both.
   */
  lemma SidesShareArea(input: seq<Vec3>, plane: Plane, frame: Frame, ts: seq<Tri<nat>>)
    requires input != [] && AllInput(input, ts)
    ensures SurfaceArea(input, plane, false, ts, Swept(frame)) + SurfaceArea(input, plane, true, ts, Swept(frame))
         == MeshArea(input, ts, Swept(frame)) + MeshArea(input, Within(input, plane, ts), Swept(frame))
  {
    PlaneShares(input, plane, frame);
    SharedArea(input, plane, ClipFilter.KeptSideOf(input, plane, false), ClipFilter.KeptSideOf(input, plane, true),
               Placed(input, plane), Swept(frame), ts);
  }

  // ----- The filter's output ------------------------------------------------------------------------

  lemma CrossIsSwept(frame: Frame, a: Vec3, b: Vec3, c: Vec3)
    ensures Cross2(frame.Project(a), frame.Project(b), frame.Project(c)) == TriArea(Swept(frame), a, b, c)
  {
    CrossIsSwept2(frame.Project(a), frame.Project(b), frame.Project(c));
  }

  lemma CrossIsSwept2(a: Vec2, b: Vec2, c: Vec2)
    ensures Cross2(a, b, c) == Swept2(a, b) + Swept2(b, c) + Swept2(c, a)
  {
  }

  lemma {:induction false} LiftedArea(points: seq<Vec3>, frame: Frame, origins: seq<Origin>, ts: seq<Tri<nat>>,
                                      fans: seq<Tri<Origin>>, pos: Origin -> Vec3)
    requires ClipFilter.LiftsTo(origins, ts, fans) && |points| == |origins|
    requires forall i :: 0 <= i < |points| ==> points[i] == pos(origins[i])
    ensures CornersExist(ts, |points|) && TotalArea(points, frame, ts) == FanArea(fans, pos, Swept(frame))
  {
    if ts != [] {
      var n := |ts| - 1;
      LiftedArea(points, frame, origins, ts[..n], fans[..n], pos);
      CrossIsSwept(frame, points[ts[n].a], points[ts[n].b], points[ts[n].c]);
    }
  }

  /** The part of a returned mesh that comes from the input. */
  ghost function Surface(output: ClipOutput, ts: seq<Tri<nat>>, insideOut: bool): (r: seq<Tri<nat>>)
    requires |AllFans(ts, ClipFilter.KeptSideOf(output.input, output.plane, insideOut))| <= |output.triangles|
    reads output
  {
    output.triangles[..|AllFans(ts, ClipFilter.KeptSideOf(output.input, output.plane, insideOut))|]
  }

  lemma OutputArea(input: seq<Vec3>, ts: seq<Tri<nat>>, plane: Plane, insideOut: bool, generateCap: bool,
                   output: ClipOutput, frame: Frame)
    requires input != [] && ClipFilter.GoodClip(input, ts, plane, insideOut, generateCap, output)
    ensures CornersExist(Surface(output, ts, insideOut), |output.points|)
    ensures TotalArea(output.points, frame, Surface(output, ts, insideOut))
         == SurfaceArea(input, plane, insideOut, ts, Swept(frame))
  {
    var fans := AllFans(ts, ClipFilter.KeptSideOf(input, plane, insideOut));
    LiftedArea(output.points, frame, output.origins, Surface(output, ts, insideOut), fans, Placed(input, plane));
  }

  /** Two returned meshes, one for each side, share the input's area between them, whatever caps they carry. */
  lemma OutputsShareArea(input: seq<Vec3>, ts: seq<Tri<nat>>, plane: Plane, front: ClipOutput, back: ClipOutput,
                         frontCap: bool, backCap: bool, frame: Frame)
    requires input != [] && AllInput(input, ts)
    requires ClipFilter.GoodClip(input, ts, plane, false, frontCap, front)
    requires ClipFilter.GoodClip(input, ts, plane, true, backCap, back)
    ensures CornersExist(Surface(front, ts, false), |front.points|) && CornersExist(Surface(back, ts, true), |back.points|)
    ensures TotalArea(front.points, frame, Surface(front, ts, false)) + TotalArea(back.points, frame, Surface(back, ts, true))
         == MeshArea(input, ts, Swept(frame)) + MeshArea(input, Within(input, plane, ts), Swept(frame))
  {
    OutputArea(input, ts, plane, false, frontCap, front, frame);
    OutputArea(input, ts, plane, true, backCap, back, frame);
    SidesShareArea(input, plane, frame, ts);
  }

  /** Areas of the loops that are filled, each taken positive. */
  ghost function LoopsArea(points: seq<Vec3>, frame: Frame, loops: seq<seq<nat>>): (r: real) {
    if loops == [] then 0.0
    else
      var loop := loops[|loops| - 1];
      LoopsArea(points, frame, loops[..|loops| - 1])
      + if |loop| < 3 then 0.0 else Abs(CycleFlux(loop, AreaForm(points, frame)))
  }

  lemma {:induction false} TotalAreaConcat(points: seq<Vec3>, frame: Frame, a: seq<Tri<nat>>, b: seq<Tri<nat>>)
    requires CornersExist(a, |points|) && CornersExist(b, |points|)
    ensures TotalArea(points, frame, a + b) == TotalArea(points, frame, a) + TotalArea(points, frame, b)
    decreases |b|
  {
    if b == [] {
      assert a + b == a;
    } else {
      assert (a + b)[..|a + b| - 1] == a + b[..|b| - 1];
      TotalAreaConcat(points, frame, a, b[..|b| - 1]);
    }
  }

  /** The caps have exactly the area that the traced loops enclose. */
  lemma {:induction false} CapsHaveLoopsArea(points: seq<Vec3>, frame: Frame, loops: seq<seq<nat>>, caps: seq<Tri<nat>>)
    requires CapLoops.Patched(points, frame, loops, caps) && CornersExist(caps, |points|)
    ensures TotalArea(points, frame, caps) == LoopsArea(points, frame, loops)
  {
    if loops != [] {
      var loop := loops[|loops| - 1];
      var n := CapLoops.LastPatch(points, frame, loops, caps);
      CapsHaveLoopsArea(points, frame, loops[..|loops| - 1], caps[..n]);
      assert caps == caps[..n] + caps[n..];
      TotalAreaConcat(points, frame, caps[..n], caps[n..]);
      PatchArea(points, frame, loop, caps[n..]);
    }
  }

  lemma PatchArea(points: seq<Vec3>, frame: Frame, loop: seq<nat>, patch: seq<Tri<nat>>)
    requires CapLoops.Patch(points, frame, loop, patch) && CornersExist(patch, |points|)
    ensures TotalArea(points, frame, patch) == if |loop| < 3 then 0.0 else Abs(CycleFlux(loop, AreaForm(points, frame)))
  {
    if |loop| >= 3 { FilledArea(points, frame, loop, patch); }
  }
}
