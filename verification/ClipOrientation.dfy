/**
 * The orientation of a clipped and capped mesh.  Every cap loop is turned to positive area on its own, so the caps of
 * an oriented mesh may or may not fit the directed cuts that they close.
 */
module ClipOrientation {
  import opened Geometry
  import opened Chains
  import opened ClipOutputs
  import opened EarClip
  import opened CapLoops
  import opened ClipTriangles
  import opened OrientedMeshes
  import opened CutDirections
  import opened LoopDirections
  import opened ClipFilter

  // ----- From vertices to their ids -----------------------------------------------------------------

  ghost function IdOf(origins: seq<Origin>, o: Origin): (i: nat)
    requires o in origins
    ensures i < |origins| && origins[i] == o
  {
    var i :| 0 <= i < |origins| && origins[i] == o; i
  }

  /** An edge weight on ids as a form on the vertices that they stand for. */
  ghost function Pulled(origins: seq<Origin>, w: Cochain): (h: Form<Origin>) {
    (x: Origin, y: Origin) => if x in origins && y in origins then w(IdOf(origins, x), IdOf(origins, y)) else 0.0
  }

  lemma PulledTurns(origins: seq<Origin>, w: Cochain)
    requires Antisymmetric(w)
    ensures Antisymmetric(Pulled(origins, w))
  {
    var h := Pulled(origins, w);
    forall x: Origin, y: Origin ensures h(x, y) == -h(y, x) {
      if x in origins && y in origins {
        assert w(IdOf(origins, x), IdOf(origins, y)) == -w(IdOf(origins, y), IdOf(origins, x));
      }
    }
  }

  lemma PulledAt(origins: seq<Origin>, w: Cochain, i: nat, j: nat)
    requires Injective(origins) && i < |origins| && j < |origins|
    ensures Pulled(origins, w)(origins[i], origins[j]) == w(i, j)
  {
    assert IdOf(origins, origins[i]) == i && IdOf(origins, origins[j]) == j;
  }

  lemma {:induction false} LiftTriFlux(origins: seq<Origin>, ts: seq<Tri<nat>>, fans: seq<Tri<Origin>>, w: Cochain)
    requires Injective(origins) && LiftsTo(origins, ts, fans)
    ensures TriFlux(ts, w) == TriFlux(fans, Pulled(origins, w))
  {
    if ts != [] {
      var t := ts[|ts| - 1];
      LiftTriFlux(origins, ts[..|ts| - 1], fans[..|fans| - 1], w);
      PulledAt(origins, w, t.a, t.b);
      PulledAt(origins, w, t.b, t.c);
      PulledAt(origins, w, t.c, t.a);
    }
  }

  lemma {:induction false} LiftSegmentFlux(origins: seq<Origin>, ds: seq<Segment<nat>>, cuts: seq<Segment<Origin>>,
                                           w: Cochain)
    requires Injective(origins) && SegmentsLiftTo(origins, ds, cuts)
    ensures SegmentFlux(ds, w) == SegmentFlux(cuts, Pulled(origins, w))
  {
    if ds != [] {
      LiftSegmentFlux(origins, ds[..|ds| - 1], cuts[..|cuts| - 1], w);
      PulledAt(origins, w, ds[|ds| - 1].a, ds[|ds| - 1].b);
    }
  }

  lemma {:induction false} LiftOutIn(origins: seq<Origin>, ds: seq<Segment<nat>>, cuts: seq<Segment<Origin>>, v: nat)
    requires Injective(origins) && SegmentsLiftTo(origins, ds, cuts) && v < |origins|
    ensures Out(ds, v) == Out(cuts, origins[v]) && In(ds, v) == In(cuts, origins[v])
  {
    if ds != [] { LiftOutIn(origins, ds[..|ds| - 1], cuts[..|cuts| - 1], v); }
  }

  // ----- The directed cuts among the output points --------------------------------------------------

  /** The cut segments of a mesh, each directed as the polygon that it bounds runs. */
  ghost function Directed(ts: seq<Tri<nat>>, inside: Side, segments: seq<Segment<nat>>): (ds: seq<Segment<nat>>)
    requires |segments| == |AllCuts(ts, inside)|
    ensures |ds| == |segments|
  {
    CutsRedirected(ts, inside);
    seq(|segments|, i requires 0 <= i < |segments| =>
      if DirectedCuts(ts, inside)[i] == AllCuts(ts, inside)[i] then segments[i] else Flipped(segments[i]))
  }

  lemma DirectedLifts(ts: seq<Tri<nat>>, inside: Side, origins: seq<Origin>, segments: seq<Segment<nat>>)
    requires SegmentsLiftTo(origins, segments, AllCuts(ts, inside))
    ensures Redirected(segments, Directed(ts, inside, segments))
    ensures SegmentsLiftTo(origins, Directed(ts, inside, segments), DirectedCuts(ts, inside))
  {
    CutsRedirected(ts, inside);
  }

  lemma {:induction false} CutsAreSplit(ts: seq<Tri<nat>>, inside: Side)
    ensures forall i :: 0 <= i < |DirectedCuts(ts, inside)| ==>
              var s := DirectedCuts(ts, inside)[i]; SplitEdge(inside, s.a) && SplitEdge(inside, s.b) && s.a != s.b
  {
    if ts != [] {
      CutsAreSplit(ts[..|ts| - 1], inside);
      PolygonWanted(ts[|ts| - 1], inside);
      var c := Cut(PolygonOf(ts[|ts| - 1], inside));
      assert c != [] ==> c[0] in c;
    }
  }

  lemma {:induction false} EndOfSome<V>(ds: seq<Segment<V>>, v: V) returns (i: nat)
    requires Out(ds, v) + In(ds, v) > 0
    ensures i < |ds| && (ds[i].a == v || ds[i].b == v)
  {
    var n := |ds| - 1;
    if ds[n].a == v || ds[n].b == v {
      i := n;
    } else {
      i := EndOfSome(ds[..n], v);
    }
  }

  /** In an oriented manifold mesh at most one directed cut leaves and one arrives at every cut vertex. */
  lemma CutsOneWay(ts: seq<Tri<nat>>, inside: Side, origins: seq<Origin>, segments: seq<Segment<nat>>)
    requires Injective(origins) && SegmentsLiftTo(origins, segments, AllCuts(ts, inside)) && Manifold(ts) && Balanced(ts)
    ensures OneWay(Directed(ts, inside, segments))
  {
    var ds, cuts := Directed(ts, inside, segments), DirectedCuts(ts, inside);
    DirectedLifts(ts, inside, origins, segments);
    CutsAreSplit(ts, inside);
    forall v: nat ensures Out(ds, v) <= 1 && In(ds, v) <= 1 {
      if Out(ds, v) + In(ds, v) > 0 {
        var i := EndOfSome(ds, v);
        LiftOutIn(origins, ds, cuts, v);
        var o := origins[v];
        assert SplitEdge(inside, cuts[i].a) && SplitEdge(inside, cuts[i].b);
        CanonicalCrossing(o);
        if inside(o.lo) { OneCutEachWay(ts, inside, o.lo, o.hi); } else { OneCutEachWay(ts, inside, o.hi, o.lo); }
      }
    }
    forall s | s in ds ensures s.a != s.b {
      var i :| 0 <= i < |ds| && ds[i] == s;
      assert cuts[i].a != cuts[i].b;
    }
  }

  // ----- Caps and surface ---------------------------------------------------------------------------

  /** The loops, each turned to positive area. */
  ghost function Turned(points: seq<Vec3>, frame: Frame, loops: seq<seq<nat>>): (r: seq<seq<nat>>)
    ensures |r| == |loops|
  {
    seq(|loops|, i requires 0 <= i < |loops| => Oriented(points, frame, loops[i]))
  }

  lemma TurnedNext(points: seq<Vec3>, frame: Frame, loops: seq<seq<nat>>)
    requires loops != []
    ensures var n, t := |loops| - 1, Turned(points, frame, loops);
            t[..n] == Turned(points, frame, loops[..n]) && t[n] == Oriented(points, frame, loops[n])
  {
  }

  lemma PatchFlux(points: seq<Vec3>, frame: Frame, loop: seq<nat>, patch: seq<Tri<nat>>, w: Cochain)
    requires Patch(points, frame, loop, patch) && Antisymmetric(w)
    ensures TriFlux(patch, w) == CycleFlux(Oriented(points, frame, loop), w)
  {
    if |loop| < 3 { ShortFlux(Oriented(points, frame, loop), w); }
  }

  lemma {:induction false} CapsFlux(points: seq<Vec3>, frame: Frame, loops: seq<seq<nat>>, caps: seq<Tri<nat>>, w: Cochain)
    requires Patched(points, frame, loops, caps) && Antisymmetric(w)
    ensures TriFlux(caps, w) == LoopsFlux(Turned(points, frame, loops), w)
  {
    if loops != [] {
      var n := LastPatch(points, frame, loops, caps);
      CapsFlux(points, frame, loops[..|loops| - 1], caps[..n], w);
      PatchFlux(points, frame, loops[|loops| - 1], caps[n..], w);
      TriFluxSplit(caps, n, w);
      TurnedNext(points, frame, loops);
    }
  }

  /** The part of a returned mesh that comes from a balanced input is bounded by the directed cuts. */
  lemma SurfaceFlux(ts: seq<Tri<nat>>, inside: Side, output: ClipOutput, segments: seq<Segment<nat>>, w: Cochain)
    requires Injective(output.origins) && SurfaceExact(ts, inside, output) && Balanced(ts) && Antisymmetric(w)
    requires SegmentsLiftTo(output.origins, segments, AllCuts(ts, inside))
    ensures TriFlux(output.triangles[..|AllFans(ts, inside)|], w) == SegmentFlux(Directed(ts, inside, segments), w)
  {
    var h := Pulled(output.origins, w);
    PulledTurns(output.origins, w);
    BalancedSurface(ts, inside, h);
    LiftTriFlux(output.origins, output.triangles[..|AllFans(ts, inside)|], AllFans(ts, inside), w);
    DirectedLifts(ts, inside, output.origins, segments);
    LiftSegmentFlux(output.origins, Directed(ts, inside, segments), DirectedCuts(ts, inside), w);
  }

  lemma OutputFlux(ts: seq<Tri<nat>>, inside: Side, frame: Frame, output: ClipOutput, segments: seq<Segment<nat>>,
                   loops: seq<seq<nat>>, w: Cochain)
    requires Injective(output.origins) && SurfaceExact(ts, inside, output) && Balanced(ts) && Antisymmetric(w)
    requires CapsExact(ts, inside, frame, output, segments, loops)
    ensures TriFlux(output.triangles, w)
         == SegmentFlux(Directed(ts, inside, segments), w) + LoopsFlux(Turned(output.points, frame, loops), w)
  {
    var n := |AllFans(ts, inside)|;
    SurfaceFlux(ts, inside, output, segments, w);
    CapsFlux(output.points, frame, loops, output.triangles[n..], w);
    TriFluxSplit(output.triangles, n, w);
  }

  /** The turned loops together run against the directed cuts. */
  ghost predicate CutsCancelled(ds: seq<Segment<nat>>, turned: seq<seq<nat>>) {
    forall w: Cochain :: Antisymmetric(w) ==> SegmentFlux(ds, w) + LoopsFlux(turned, w) == 0.0
  }

  /**
   * Exactly when the caps of an oriented mesh fit its surface: the returned mesh is oriented if and only if the loops,
   * each turned to positive area, together run against the cuts as the clipped polygons direct them.
   */
  lemma OrientedWhenCancelled(input: seq<Vec3>, ts: seq<Tri<nat>>, plane: Plane, insideOut: bool, frame: Frame,
                              output: ClipOutput, segments: seq<Segment<nat>>, loops: seq<seq<nat>>)
    requires GoodClip(input, ts, plane, insideOut, true, output) && Balanced(ts)
    requires CapsExact(ts, KeptSideOf(input, plane, insideOut), frame, output, segments, loops)
    ensures Balanced(output.triangles) <==>
              CutsCancelled(Directed(ts, KeptSideOf(input, plane, insideOut), segments), Turned(output.points, frame, loops))
  {
    var inside := KeptSideOf(input, plane, insideOut);
    forall w: Cochain | Antisymmetric(w)
      ensures TriFlux(output.triangles, w)
           == SegmentFlux(Directed(ts, inside, segments), w) + LoopsFlux(Turned(output.points, frame, loops), w)
    {
      OutputFlux(ts, inside, frame, output, segments, loops, w);
    }
  }

  // ----- Manifold meshes ----------------------------------------------------------------------------

  lemma {:induction false} PartOfLoops(loops: seq<seq<nat>>, i: nat, x: nat, y: nat)
    requires i < |loops|
    ensures CycleSides(loops[i], x, y) <= LoopSides(loops, x, y)
  {
    if i < |loops| - 1 { PartOfLoops(loops[..|loops| - 1], i, x, y); }
  }

  lemma {:induction false} TurnedLoopSides(points: seq<Vec3>, frame: Frame, loops: seq<seq<nat>>, x: nat, y: nat)
    ensures LoopSides(Turned(points, frame, loops), x, y) == LoopSides(loops, x, y)
  {
    if loops != [] {
      TurnedLoopSides(points, frame, loops[..|loops| - 1], x, y);
      TurnedNext(points, frame, loops);
      ReversedSides(loops[|loops| - 1], x, y);
    }
  }

  /** The loops of a one-way cut are simple, and turning them keeps that. */
  lemma LoopsWithinCuts(segments: seq<Segment<nat>>, ds: seq<Segment<nat>>, points: seq<Vec3>, frame: Frame,
                        loops: seq<seq<nat>>, caps: seq<Tri<nat>>, i: nat)
    requires Redirected(segments, ds) && OneWay(ds) && Capped(segments, loops, caps) && i < |loops|
    ensures Within(ds, loops[i]) && Within(ds, Oriented(points, frame, loops[i]))
  {
    forall v: nat ensures Degree(segments, v) <= 2 {
      RedirectedDegree(segments, ds, v);
      assert Out(ds, v) <= 1;
    }
    forall x: nat, y: nat ensures CycleSides(loops[i], x, y) <= SegmentSides(ds, x, y) {
      PartOfLoops(loops, i, x, y);
      RedirectedSides(segments, ds, x, y);
    }
    ReversedWithin(ds, loops[i]);
  }

  /** Taken as the cuts are directed, the loop has negative area. */
  ghost predicate NegativeAlong(ds: seq<Segment<nat>>, points: seq<Vec3>, frame: Frame, loop: seq<nat>) {
    var area := CycleFlux(loop, AreaForm(points, frame));
    |loop| >= 3 ==> (RunsWith(ds, loop) ==> area < 0.0) && (RunsAgainst(ds, loop) ==> area > 0.0)
  }

  lemma OpposedIsNegative(ds: seq<Segment<nat>>, points: seq<Vec3>, frame: Frame, loop: seq<nat>)
    requires OneWay(ds) && Within(ds, loop) && InLoop(loop, points) && Fillable(points, frame, loop)
    ensures Opposed(ds, Oriented(points, frame, loop)) <==> NegativeAlong(ds, points, frame, loop)
  {
    if |loop| >= 3 {
      OneDirection(ds, loop);
      ReversedRuns(ds, loop);
    }
  }

  lemma CancelledIsOpposed(ds: seq<Segment<nat>>, turned: seq<seq<nat>>, triangles: seq<Tri<nat>>)
    requires OneWay(ds) && forall i :: 0 <= i < |turned| ==> Within(ds, turned[i])
    requires forall x: nat, y: nat :: LoopSides(turned, x, y) == SegmentSides(ds, x, y)
    requires forall w: Cochain :: Antisymmetric(w) ==> TriFlux(triangles, w) == SegmentFlux(ds, w) + LoopsFlux(turned, w)
    ensures Balanced(triangles) <==> forall i :: 0 <= i < |turned| ==> Opposed(ds, turned[i])
  {
    if forall i :: 0 <= i < |turned| ==> Opposed(ds, turned[i]) {
      forall x: nat, y: nat | x != y ensures TriFlux(triangles, Indicator(x, y)) == 0.0 {
        OpposedCancel(ds, turned, x, y);
      }
      BalancedByIndicators(triangles);
    } else {
      var j :| 0 <= j < |turned| && !Opposed(ds, turned[j]);
      var x, y := WrongLoopShows(ds, turned, j);
      assert TriFlux(triangles, Indicator(x, y)) > 0.0;
    }
  }

  /**
   * For an oriented manifold mesh: the returned mesh is oriented if and only if every loop of three points or more has
   * negative projected area when it is taken as the clipped polygons run.
   */
  lemma OrientedWhenNegative(input: seq<Vec3>, ts: seq<Tri<nat>>, plane: Plane, insideOut: bool, frame: Frame,
                             output: ClipOutput, segments: seq<Segment<nat>>, loops: seq<seq<nat>>)
    requires GoodClip(input, ts, plane, insideOut, true, output) && Balanced(ts) && Manifold(ts)
    requires CapsExact(ts, KeptSideOf(input, plane, insideOut), frame, output, segments, loops)
    ensures var ds := Directed(ts, KeptSideOf(input, plane, insideOut), segments);
            Balanced(output.triangles) <==>
              forall i :: 0 <= i < |loops| ==> NegativeAlong(ds, output.points, frame, loops[i])
  {
    var inside := KeptSideOf(input, plane, insideOut);
    var ds, turned := Directed(ts, inside, segments), Turned(output.points, frame, loops);
    var caps := output.triangles[|AllFans(ts, inside)|..];
    CutsOneWay(ts, inside, output.origins, segments);
    DirectedLifts(ts, inside, output.origins, segments);
    PatchedFillable(output.points, frame, loops, caps);
    forall i | 0 <= i < |loops|
      ensures Within(ds, turned[i]) && (Opposed(ds, turned[i]) <==> NegativeAlong(ds, output.points, frame, loops[i]))
    {
      LoopsWithinCuts(segments, ds, output.points, frame, loops, caps, i);
      OpposedIsNegative(ds, output.points, frame, loops[i]);
    }
    forall x: nat, y: nat ensures LoopSides(turned, x, y) == SegmentSides(ds, x, y) {
      TurnedLoopSides(output.points, frame, loops, x, y);
      RedirectedSides(segments, ds, x, y);
    }
    forall w: Cochain | Antisymmetric(w) ensures TriFlux(output.triangles, w) == SegmentFlux(ds, w) + LoopsFlux(turned, w) {
      OutputFlux(ts, inside, frame, output, segments, loops, w);
    }
    CancelledIsOpposed(ds, turned, output.triangles);
  }
}
