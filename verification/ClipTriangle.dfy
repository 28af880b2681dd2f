/**
 * Clipping one triangle, on the level of origins: the polygon left of it, its fan and its cut
 * segment, and the law that ties their sides to the kept parts of the triangle's own sides.
 */
module ClipTriangles {
  import opened Geometry
  import opened Chains
  import opened ClipOutputs
  import opened CapLoops
  import opened EarClip

  /** Polygon vertices contributed by the directed side s -> e. */
  function SidePart(s: nat, e: nat, sIn: bool, eIn: bool): (r: seq<Origin>) {
    if sIn && eIn then [Corner(e)]
    else if sIn then [CrossingOf(s, e)]
    else if eIn then [CrossingOf(s, e), Corner(e)]
    else []
  }

  function Polygon(t: Tri<nat>, inA: bool, inB: bool, inC: bool): (r: seq<Origin>) {
    SidePart(t.a, t.b, inA, inB) + SidePart(t.b, t.c, inB, inC) + SidePart(t.c, t.a, inC, inA)
  }

  function Fan<V>(p: seq<V>): (r: seq<Tri<V>>) {
    if |p| < 3 then []
    else if |p| == 3 then [Tri(p[0], p[1], p[2])]
    else [Tri(p[0], p[1], p[2]), Tri(p[0], p[2], p[3])]
  }

  function Crossings(p: seq<Origin>): (r: seq<Origin>) {
    if p == [] then []
    else Crossings(p[..|p| - 1]) + if p[|p| - 1].Crossing? then [p[|p| - 1]] else []
  }

  /** The cut segment of a polygon: its two crossing vertices when they are different. */
  function Cut(p: seq<Origin>): (r: seq<Segment<Origin>>) {
    var c := Crossings(p);
    if |c| == 2 && c[0] != c[1] then [Segment(c[0], c[1])] else []
  }

  /** The part of the side {p, q} that survives: all of it, or the half at the kept end. */
  function KeptSide(p: nat, q: nat, pIn: bool, qIn: bool, x: Origin, y: Origin): (r: nat) {
    if pIn && qIn then Joins(Corner(p), Corner(q), x, y)
    else if pIn then Joins(Corner(p), CrossingOf(p, q), x, y)
    else if qIn then Joins(Corner(q), CrossingOf(p, q), x, y)
    else 0
  }

  function KeptSides(t: Tri<nat>, inA: bool, inB: bool, inC: bool, x: Origin, y: Origin): (r: nat) {
    KeptSide(t.a, t.b, inA, inB, x, y) + KeptSide(t.b, t.c, inB, inC, x, y) + KeptSide(t.c, t.a, inC, inA, x, y)
  }

  function ListSides(ts: seq<Tri<Origin>>, x: Origin, y: Origin): (r: nat)
    requires |ts| <= 2
  {
    (if |ts| > 0 then TriSides(ts[0], x, y) else 0) + (if |ts| > 1 then TriSides(ts[1], x, y) else 0)
  }

  lemma FanSides(p: seq<Origin>, x: Origin, y: Origin)
    requires |p| <= 4
    ensures SideCount(Fan(p), x, y) == ListSides(Fan(p), x, y)
  {
    var f := Fan(p);
    if |f| == 1 {
      assert f[..0] == [];
    } else if |f| == 2 {
      assert f[..1][..0] == [];
      assert SideCount(f[..1], x, y) == TriSides(f[0], x, y);
    }
  }

  /** The polygon of each of the eight keep patterns. */
  lemma PolygonCases(t: Tri<nat>, inA: bool, inB: bool, inC: bool)
    ensures var p := Polygon(t, inA, inB, inC);
            var ab, bc, ca := CrossingOf(t.a, t.b), CrossingOf(t.b, t.c), CrossingOf(t.c, t.a);
            && (inA && inB && inC ==> p == [Corner(t.b), Corner(t.c), Corner(t.a)])
            && (inA && inB && !inC ==> p == [Corner(t.b), bc, ca, Corner(t.a)])
            && (inA && !inB && inC ==> p == [ab, bc, Corner(t.c), Corner(t.a)])
            && (!inA && inB && inC ==> p == [ab, Corner(t.b), Corner(t.c), ca])
            && (inA && !inB && !inC ==> p == [ab, ca, Corner(t.a)])
            && (!inA && inB && !inC ==> p == [ab, Corner(t.b), bc])
            && (!inA && !inB && inC ==> p == [bc, Corner(t.c), ca])
            && (!inA && !inB && !inC ==> p == [])
  {
  }

  lemma ThreeOrFour(p: seq<Origin>)
    requires |p| == 3 || |p| == 4
    ensures Crossings(p) == (if p[0].Crossing? then [p[0]] else []) + (if p[1].Crossing? then [p[1]] else [])
              + (if p[2].Crossing? then [p[2]] else []) + (if |p| == 4 && p[3].Crossing? then [p[3]] else [])
  {
    assert p[..1][..0] == [] && p[..2][..1] == p[..1] && p[..3][..2] == p[..2];
    assert Crossings(p[..1]) == if p[0].Crossing? then [p[0]] else [];
    assert Crossings(p[..2]) == Crossings(p[..1]) + if p[1].Crossing? then [p[1]] else [];
    assert Crossings(p[..3]) == Crossings(p[..2]) + if p[2].Crossing? then [p[2]] else [];
    assert p == if |p| == 3 then p[..3] else p[..4];
  }

  /** The two different crossing vertices of a split triangle, or none. */
  lemma CutCases(t: Tri<nat>, inA: bool, inB: bool, inC: bool)
    ensures var c := Cut(Polygon(t, inA, inB, inC));
            var ab, bc, ca := CrossingOf(t.a, t.b), CrossingOf(t.b, t.c), CrossingOf(t.c, t.a);
            && (inA == inB == inC ==> c == [])
            && (inA == inB != inC ==> c == if bc == ca then [] else [Segment(bc, ca)])
            && (inA == inC != inB ==> c == if ab == bc then [] else [Segment(ab, bc)])
            && (inB == inC != inA ==> c == if ab == ca then [] else [Segment(ab, ca)])
  {
    PolygonCases(t, inA, inB, inC);
    var p := Polygon(t, inA, inB, inC);
    if p != [] {
      ThreeOrFour(p);
    }
  }

  lemma CutSides(s: seq<Segment<Origin>>, x: Origin, y: Origin)
    requires |s| <= 1
    ensures SegmentSides(s, x, y) == if s == [] then 0 else Joins(s[0].a, s[0].b, x, y)
    ensures Degree(s, x) == if s == [] then 0 else s[0].Ends(x)
  {
    if s != [] {
      assert s[..0] == [];
    }
  }

  /** Sides of a polygon of at most four corners. */
  function Outline(p: seq<Origin>, x: Origin, y: Origin): (r: nat) {
    if |p| == 3 then Joins(p[0], p[1], x, y) + Joins(p[1], p[2], x, y) + Joins(p[2], p[0], x, y)
    else if |p| == 4 then
      Joins(p[0], p[1], x, y) + Joins(p[1], p[2], x, y) + Joins(p[2], p[3], x, y) + Joins(p[3], p[0], x, y)
    else 0
  }

  /** The diagonal of a fan of two is a side of both. */
  lemma FanOutline(p: seq<Origin>, x: Origin, y: Origin) returns (diagonal: nat)
    requires p == [] || |p| == 3 || |p| == 4
    ensures SideCount(Fan(p), x, y) == Outline(p, x, y) + 2 * diagonal
  {
    FanSides(p, x, y);
    diagonal := if |p| == 4 then Joins(p[0], p[2], x, y) else 0;
  }

  lemma OutlineOfThree(p: Origin, q: Origin, r: Origin, x: Origin, y: Origin)
    ensures Outline([p, q, r], x, y) == Joins(p, q, x, y) + Joins(q, r, x, y) + Joins(r, p, x, y)
  {
  }

  lemma OutlineOfFour(p: Origin, q: Origin, r: Origin, s: Origin, x: Origin, y: Origin)
    ensures Outline([p, q, r, s], x, y)
         == Joins(p, q, x, y) + Joins(q, r, x, y) + Joins(r, s, x, y) + Joins(s, p, x, y)
  {
  }

  lemma JoinsIsSymmetric(p: Origin, q: Origin, x: Origin, y: Origin)
    ensures Joins(p, q, x, y) == Joins(q, p, x, y)
    ensures p == q && x != y ==> Joins(p, q, x, y) == 0
  {
  }

  /** With one corner cut off, the cut segment closes the outline across it. */
  lemma CutSide(p: Origin, q: Origin, x: Origin, y: Origin)
    requires x != y
    ensures SegmentSides(if p == q then [] else [Segment(p, q)], x, y) == Joins(p, q, x, y)
  {
    CutSides(if p == q then [] else [Segment(p, q)], x, y);
    JoinsIsSymmetric(p, q, x, y);
  }

  lemma OneCornerOut(t: Tri<nat>, inA: bool, inB: bool, inC: bool, x: Origin, y: Origin)
    requires x != y && (if inA then inB != inC else inB && inC)
    ensures var p := Polygon(t, inA, inB, inC);
            Outline(p, x, y) == KeptSides(t, inA, inB, inC, x, y) + SegmentSides(Cut(p), x, y)
  {
    var ab, bc, ca := CrossingOf(t.a, t.b), CrossingOf(t.b, t.c), CrossingOf(t.c, t.a);
    var a, b, c := Corner(t.a), Corner(t.b), Corner(t.c);
    PolygonCases(t, inA, inB, inC);
    CutCases(t, inA, inB, inC);
    if !inC {
      OutlineOfFour(b, bc, ca, a, x, y);
      CutSide(bc, ca, x, y);
      JoinsIsSymmetric(a, ca, x, y);
    } else if !inB {
      OutlineOfFour(ab, bc, c, a, x, y);
      CutSide(ab, bc, x, y);
      JoinsIsSymmetric(c, bc, x, y);
    } else {
      OutlineOfFour(ab, b, c, ca, x, y);
      CutSide(ab, ca, x, y);
      JoinsIsSymmetric(b, ab, x, y);
      JoinsIsSymmetric(ca, ab, x, y);
    }
  }

  lemma OneCornerIn(t: Tri<nat>, inA: bool, inB: bool, inC: bool, x: Origin, y: Origin)
    requires x != y && (if inA then !inB && !inC else inB != inC)
    ensures var p := Polygon(t, inA, inB, inC);
            Outline(p, x, y) == KeptSides(t, inA, inB, inC, x, y) + SegmentSides(Cut(p), x, y)
  {
    var ab, bc, ca := CrossingOf(t.a, t.b), CrossingOf(t.b, t.c), CrossingOf(t.c, t.a);
    var a, b, c := Corner(t.a), Corner(t.b), Corner(t.c);
    PolygonCases(t, inA, inB, inC);
    CutCases(t, inA, inB, inC);
    if inA {
      OutlineOfThree(ab, ca, a, x, y);
      CutSide(ab, ca, x, y);
      JoinsIsSymmetric(a, ca, x, y);
    } else if inB {
      OutlineOfThree(ab, b, bc, x, y);
      CutSide(ab, bc, x, y);
      JoinsIsSymmetric(b, ab, x, y);
      JoinsIsSymmetric(bc, ab, x, y);
    } else {
      OutlineOfThree(bc, c, ca, x, y);
      CutSide(bc, ca, x, y);
      JoinsIsSymmetric(c, bc, x, y);
      JoinsIsSymmetric(ca, bc, x, y);
    }
  }

  /** The outline of the clipped polygon: the kept parts of the sides, and the cut segment. */
  lemma KeptOutline(t: Tri<nat>, inA: bool, inB: bool, inC: bool, x: Origin, y: Origin)
    requires x != y
    requires (t.a == t.b ==> inA == inB) && (t.b == t.c ==> inB == inC) && (t.c == t.a ==> inC == inA)
    ensures var p := Polygon(t, inA, inB, inC);
            Outline(p, x, y) == KeptSides(t, inA, inB, inC, x, y) + SegmentSides(Cut(p), x, y)
  {
    if inA == inB == inC {
      PolygonCases(t, inA, inB, inC);
      CutCases(t, inA, inB, inC);
    } else if if inA then !inB && !inC else inB != inC {
      OneCornerIn(t, inA, inB, inC, x, y);
    } else {
      OneCornerOut(t, inA, inB, inC, x, y);
    }
  }

  /**
   * The law of one clipped triangle.  The fan together with the cut segment has the kept parts of
   * the triangle's sides as its boundary modulo two.
   */
  lemma ClippedBoundary(t: Tri<nat>, inA: bool, inB: bool, inC: bool, x: Origin, y: Origin)
    requires x != y
    requires (t.a == t.b ==> inA == inB) && (t.b == t.c ==> inB == inC) && (t.c == t.a ==> inC == inA)
    ensures var p := Polygon(t, inA, inB, inC);
            (SideCount(Fan(p), x, y) + SegmentSides(Cut(p), x, y)) % 2 == KeptSides(t, inA, inB, inC, x, y) % 2
  {
    var p := Polygon(t, inA, inB, inC);
    KeptOutline(t, inA, inB, inC, x, y);
    var diagonal := FanOutline(p, x, y);
    TwiceMore(KeptSides(t, inA, inB, inC, x, y), SegmentSides(Cut(p), x, y) + diagonal);
  }

  lemma TwiceMore(n: nat, d: nat)
    ensures (n + 2 * d) % 2 == n % 2
  {
  }

  // ----- Sums over the mesh -----------------------------------------------------------------

  /** Which input points are on the kept side. */
  type Side = nat -> bool

  ghost function PolygonOf(t: Tri<nat>, inside: Side): (r: seq<Origin>) {
    Polygon(t, inside(t.a), inside(t.b), inside(t.c))
  }

  /** The input side whose kept part is {x, y}, if there is one. */
  ghost function InputSide(inside: Side, x: Origin, y: Origin): (r: Option<(nat, nat)>) {
    match (x, y)
    case (Corner(u), Corner(v)) => if inside(u) && inside(v) then Some((u, v)) else None
    case (Corner(u), Crossing(lo, hi)) => HalfSide(inside, u, lo, hi)
    case (Crossing(lo, hi), Corner(u)) => HalfSide(inside, u, lo, hi)
    case (Crossing(_, _), Crossing(_, _)) => None
  }

  ghost function HalfSide(inside: Side, u: nat, lo: nat, hi: nat): (r: Option<(nat, nat)>) {
    if lo <= hi && inside(u) && ((u == lo && !inside(hi)) || (u == hi && !inside(lo))) then Some((lo, hi)) else None
  }

  /** How many input sides have {x, y} as their kept part. */
  ghost function KeptCount(ts: seq<Tri<nat>>, inside: Side, x: Origin, y: Origin): (r: nat) {
    match InputSide(inside, x, y)
    case None => 0
    case Some(side) => SideCount(ts, side.0, side.1)
  }

  lemma KeptSideCount(p: nat, q: nat, inside: Side, x: Origin, y: Origin)
    requires x != y
    ensures KeptSide(p, q, inside(p), inside(q), x, y)
            == match InputSide(inside, x, y) case None => 0 case Some(s) => Joins(p, q, s.0, s.1)
  {
  }

  lemma KeptStep(ts: seq<Tri<nat>>, t: Tri<nat>, inside: Side, x: Origin, y: Origin)
    requires x != y
    ensures KeptCount(ts + [t], inside, x, y)
            == KeptCount(ts, inside, x, y) + KeptSides(t, inside(t.a), inside(t.b), inside(t.c), x, y)
  {
    assert (ts + [t])[..|ts|] == ts;
    KeptSideCount(t.a, t.b, inside, x, y);
    KeptSideCount(t.b, t.c, inside, x, y);
    KeptSideCount(t.c, t.a, inside, x, y);
  }

  /** A split edge meets the cut segment of a triangle as often, modulo two, as it is a side of it. */
  lemma CutDegree(t: Tri<nat>, inside: Side, p: nat, q: nat)
    requires inside(p) != inside(q)
    ensures var d := Degree(Cut(PolygonOf(t, inside)), CrossingOf(p, q));
            d % 2 == TriSides(t, p, q) % 2 && (Proper(t) ==> d == TriSides(t, p, q))
  {
    CutCases(t, inside(t.a), inside(t.b), inside(t.c));
    CutSides(Cut(PolygonOf(t, inside)), CrossingOf(p, q), CrossingOf(p, q));
  }

  ghost predicate SplitEdge(inside: Side, o: Origin) {
    o.Crossing? && o.lo <= o.hi && inside(o.lo) != inside(o.hi)
  }

  /** Output vertices are kept input points or lie on split edges. */
  ghost predicate Wanted(inside: Side, o: Origin) {
    SplitEdge(inside, o) || (o.Corner? && inside(o.p))
  }

  lemma PolygonWanted(t: Tri<nat>, inside: Side)
    ensures forall i :: 0 <= i < |PolygonOf(t, inside)| ==> Wanted(inside, PolygonOf(t, inside)[i])
    ensures forall s :: s in Cut(PolygonOf(t, inside)) ==>
              SplitEdge(inside, s.a) && SplitEdge(inside, s.b) && s.a != s.b
  {
    PolygonCases(t, inside(t.a), inside(t.b), inside(t.c));
    CutCases(t, inside(t.a), inside(t.b), inside(t.c));
  }

  ghost predicate ProperFan(ts: seq<Tri<Origin>>) {
    forall t :: t in ts ==> t.a != t.b && t.b != t.c && t.c != t.a
  }

  ghost predicate AllProper(ts: seq<Tri<nat>>) {
    forall t :: t in ts ==> Proper(t)
  }

  lemma FanIsProper(t: Tri<nat>, inside: Side)
    requires Proper(t)
    ensures ProperFan(Fan(PolygonOf(t, inside)))
  {
    PolygonCases(t, inside(t.a), inside(t.b), inside(t.c));
  }

  /** Fans and cut segments together are bounded, modulo two, by the kept parts of the input sides. */
  ghost predicate BoundaryLaw(ts: seq<Tri<nat>>, inside: Side, fans: seq<Tri<Origin>>, cuts: seq<Segment<Origin>>,
                              x: Origin, y: Origin) {
    (SideCount(fans, x, y) + SegmentSides(cuts, x, y)) % 2 == KeptCount(ts, inside, x, y) % 2
  }

  /** A cut vertex has the parity of its input edge, and its exact count when no triangle is degenerate. */
  ghost predicate DegreeLaw(ts: seq<Tri<nat>>, cuts: seq<Segment<Origin>>, p: nat, q: nat) {
    && Degree(cuts, CrossingOf(p, q)) % 2 == SideCount(ts, p, q) % 2
    && (AllProper(ts) ==> Degree(cuts, CrossingOf(p, q)) == SideCount(ts, p, q))
  }

  ghost predicate CutsWanted(inside: Side, cuts: seq<Segment<Origin>>) {
    forall s :: s in cuts ==> SplitEdge(inside, s.a) && SplitEdge(inside, s.b) && s.a != s.b
  }

  /** The clipped surface: the fans of all triangles, in order. */
  ghost function AllFans(ts: seq<Tri<nat>>, inside: Side): (r: seq<Tri<Origin>>) {
    if ts == [] then []
    else AllFans(ts[..|ts| - 1], inside) + Fan(PolygonOf(ts[|ts| - 1], inside))
  }

  /** The cut segments of all triangles, in order. */
  ghost function AllCuts(ts: seq<Tri<nat>>, inside: Side): (r: seq<Segment<Origin>>) {
    if ts == [] then []
    else AllCuts(ts[..|ts| - 1], inside) + Cut(PolygonOf(ts[|ts| - 1], inside))
  }

  /** The laws that tie the clipped surface and the cut segments of the input triangles done so far to these. */
  ghost predicate FansAndCuts(ts: seq<Tri<nat>>, inside: Side, fans: seq<Tri<Origin>>, cuts: seq<Segment<Origin>>) {
    && fans == AllFans(ts, inside) && cuts == AllCuts(ts, inside)
    && |fans| <= 2 * |ts| && |cuts| <= |ts|
    && (forall x, y :: x != y ==> BoundaryLaw(ts, inside, fans, cuts, x, y))
    && (forall p, q :: inside(p) != inside(q) ==> DegreeLaw(ts, cuts, p, q))
    && CutsWanted(inside, cuts)
    && (AllProper(ts) ==> ProperFan(fans))
  }

  lemma {:induction false} DegreeConcat<V>(s: seq<Segment<V>>, t: seq<Segment<V>>, v: V)
    ensures Degree(s + t, v) == Degree(s, v) + Degree(t, v)
    decreases |t|
  {
    if t == [] {
      assert s + t == s;
    } else {
      assert (s + t)[..|s + t| - 1] == s + t[..|t| - 1];
      DegreeConcat(s, t[..|t| - 1], v);
    }
  }

  lemma {:induction false} SegmentSidesConcat<V>(s: seq<Segment<V>>, t: seq<Segment<V>>, x: V, y: V)
    ensures SegmentSides(s + t, x, y) == SegmentSides(s, x, y) + SegmentSides(t, x, y)
    decreases |t|
  {
    if t == [] {
      assert s + t == s;
    } else {
      assert (s + t)[..|s + t| - 1] == s + t[..|t| - 1];
      SegmentSidesConcat(s, t[..|t| - 1], x, y);
    }
  }

  lemma NextTriangle(ts: seq<Tri<nat>>, t: Tri<nat>, inside: Side, fans: seq<Tri<Origin>>, cuts: seq<Segment<Origin>>)
    requires FansAndCuts(ts, inside, fans, cuts)
    ensures var p := PolygonOf(t, inside);
            FansAndCuts(ts + [t], inside, fans + Fan(p), cuts + Cut(p))
  {
    var p := PolygonOf(t, inside);
    forall x, y | x != y
      ensures BoundaryLaw(ts + [t], inside, fans + Fan(p), cuts + Cut(p), x, y)
    {
      NextBoundary(ts, t, inside, fans, cuts, x, y);
    }
    forall u, v | inside(u) != inside(v)
      ensures DegreeLaw(ts + [t], cuts + Cut(p), u, v)
    {
      NextDegree(ts, t, inside, cuts, u, v);
    }
    NextWanted(ts, t, inside, fans, cuts);
    assert (ts + [t])[..|ts|] == ts;
  }

  lemma NextWanted(ts: seq<Tri<nat>>, t: Tri<nat>, inside: Side, fans: seq<Tri<Origin>>, cuts: seq<Segment<Origin>>)
    requires CutsWanted(inside, cuts) && (AllProper(ts) ==> ProperFan(fans))
    ensures CutsWanted(inside, cuts + Cut(PolygonOf(t, inside)))
    ensures AllProper(ts + [t]) ==> ProperFan(fans + Fan(PolygonOf(t, inside)))
  {
    PolygonWanted(t, inside);
    if AllProper(ts + [t]) {
      assert t in ts + [t] && forall u :: u in ts ==> u in ts + [t];
      FanIsProper(t, inside);
    }
  }

  lemma NextBoundary(ts: seq<Tri<nat>>, t: Tri<nat>, inside: Side, fans: seq<Tri<Origin>>, cuts: seq<Segment<Origin>>,
                     x: Origin, y: Origin)
    requires x != y && BoundaryLaw(ts, inside, fans, cuts, x, y)
    ensures var p := PolygonOf(t, inside);
            BoundaryLaw(ts + [t], inside, fans + Fan(p), cuts + Cut(p), x, y)
  {
    var more := TriangleStep(ts, t, inside, x, y);
    var p := PolygonOf(t, inside);
    AppendBoundary(fans, cuts, Fan(p), Cut(p), x, y, KeptCount(ts, inside, x, y), more);
  }

  lemma TriangleStep(ts: seq<Tri<nat>>, t: Tri<nat>, inside: Side, x: Origin, y: Origin) returns (more: nat)
    requires x != y
    ensures KeptCount(ts + [t], inside, x, y) == KeptCount(ts, inside, x, y) + more
    ensures var p := PolygonOf(t, inside);
            (SideCount(Fan(p), x, y) + SegmentSides(Cut(p), x, y)) % 2 == more % 2
  {
    more := KeptSides(t, inside(t.a), inside(t.b), inside(t.c), x, y);
    ClippedBoundary(t, inside(t.a), inside(t.b), inside(t.c), x, y);
    KeptStep(ts, t, inside, x, y);
  }

  lemma AppendBoundary(fans: seq<Tri<Origin>>, cuts: seq<Segment<Origin>>, fan: seq<Tri<Origin>>,
                       cut: seq<Segment<Origin>>, x: Origin, y: Origin, kept: nat, more: nat)
    requires (SideCount(fans, x, y) + SegmentSides(cuts, x, y)) % 2 == kept % 2
    requires (SideCount(fan, x, y) + SegmentSides(cut, x, y)) % 2 == more % 2
    ensures (SideCount(fans + fan, x, y) + SegmentSides(cuts + cut, x, y)) % 2 == (kept + more) % 2
  {
    SideCountConcat(fans, fan, x, y);
    SegmentSidesConcat(cuts, cut, x, y);
    AddParity(SideCount(fans, x, y) + SegmentSides(cuts, x, y), kept,
              SideCount(fan, x, y) + SegmentSides(cut, x, y), more);
  }

  lemma AddParity(a: nat, b: nat, c: nat, d: nat)
    requires a % 2 == b % 2 && c % 2 == d % 2
    ensures (a + c) % 2 == (b + d) % 2
  {
  }

  lemma NextDegree(ts: seq<Tri<nat>>, t: Tri<nat>, inside: Side, cuts: seq<Segment<Origin>>, p: nat, q: nat)
    requires inside(p) != inside(q) && DegreeLaw(ts, cuts, p, q)
    ensures DegreeLaw(ts + [t], cuts + Cut(PolygonOf(t, inside)), p, q)
  {
    var c := Cut(PolygonOf(t, inside));
    DegreeConcat(cuts, c, CrossingOf(p, q));
    CutDegree(t, inside, p, q);
    assert (ts + [t])[..|ts|] == ts;
    AddParity(Degree(cuts, CrossingOf(p, q)), SideCount(ts, p, q), Degree(c, CrossingOf(p, q)), TriSides(t, p, q));
    if AllProper(ts + [t]) {
      assert t in ts + [t] && forall u :: u in ts ==> u in ts + [t];
    }
  }
}
