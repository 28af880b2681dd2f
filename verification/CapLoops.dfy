/**
 * The cut graph: one segment per split triangle, traced into closed loops that are triangulated
 * one after the other.
 */
module CapLoops {
  import opened Geometry
  import opened Chains
  import opened ClipOutputs
  import opened EarClip

  datatype Segment<V(==)> = Segment(a: V, b: V) {
    function Ends(v: V): (r: nat) { (if a == v then 1 else 0) + (if b == v then 1 else 0) }
  }

  /** Degree of a vertex in the cut graph. */
  function Degree<V(==)>(segments: seq<Segment<V>>, v: V): (n: nat) {
    if segments == [] then 0
    else Degree(segments[..|segments| - 1], v) + segments[|segments| - 1].Ends(v)
  }

  /** How many segments join x and y. */
  function SegmentSides<V(==)>(segments: seq<Segment<V>>, x: V, y: V): (n: nat) {
    if segments == [] then 0
    else
      var s := segments[|segments| - 1];
      SegmentSides(segments[..|segments| - 1], x, y) + Joins(s.a, s.b, x, y)
  }

  /** The segments whose flag equals `flag`, in order. */
  ghost function Select(segments: seq<Segment<nat>>, visited: seq<bool>, flag: bool): (r: seq<Segment<nat>>)
    requires |segments| == |visited|
  {
    if segments == [] then []
    else
      var n := |segments| - 1;
      Select(segments[..n], visited[..n], flag) + if visited[n] == flag then [segments[n]] else []
  }

  lemma {:induction false} SelectAll(segments: seq<Segment<nat>>, visited: seq<bool>, flag: bool)
    requires |segments| == |visited| && forall i :: 0 <= i < |visited| ==> visited[i] == flag
    ensures Select(segments, visited, flag) == segments && Select(segments, visited, !flag) == []
  {
    if segments != [] {
      var n := |segments| - 1;
      SelectAll(segments[..n], visited[..n], flag);
    }
  }

  /** Marking one segment moves it, and nothing else, from the open part to the visited part. */
  lemma {:induction false} MarkVisited(segments: seq<Segment<nat>>, visited: seq<bool>, i: nat, x: nat, y: nat)
    requires |segments| == |visited| && i < |visited| && !visited[i]
    ensures var after := visited[i := true];
            && Degree(Select(segments, after, false), x) + segments[i].Ends(x)
               == Degree(Select(segments, visited, false), x)
            && SegmentSides(Select(segments, after, true), x, y)
               == SegmentSides(Select(segments, visited, true), x, y) + Joins(segments[i].a, segments[i].b, x, y)
            && |Select(segments, after, true)| == |Select(segments, visited, true)| + 1
  {
    var n := |segments| - 1;
    var after := visited[i := true];
    SelectLast(segments, visited, false);
    SelectLast(segments, visited, true);
    SelectLast(segments, after, false);
    SelectLast(segments, after, true);
    if i == n {
      assert after[..n] == visited[..n];
    } else {
      assert after[..n] == visited[..n][i := true];
      MarkVisited(segments[..n], visited[..n], i, x, y);
    }
  }

  lemma SelectLast(segments: seq<Segment<nat>>, visited: seq<bool>, flag: bool)
    requires |segments| == |visited| > 0
    ensures var n := |segments| - 1;
            var s, r, t := segments[n], Select(segments[..n], visited[..n], flag), Select(segments, visited, flag);
            if visited[n] == flag then t == r + [s] && t[..|t| - 1] == r && t[|t| - 1] == s else t == r
  {
    var n := |segments| - 1;
    var r := Select(segments[..n], visited[..n], flag);
    assert r + [] == r && (r + [segments[n]])[..|r|] == r;
  }

  lemma {:induction false} SelectBound(segments: seq<Segment<nat>>, visited: seq<bool>)
    requires |segments| == |visited|
    ensures |Select(segments, visited, true)| + |Select(segments, visited, false)| == |segments|
  {
    if segments != [] {
      var n := |segments| - 1;
      SelectBound(segments[..n], visited[..n]);
    }
  }

  /** A vertex of positive open degree is the end of an open segment. */
  lemma {:induction false} OpenEnd(segments: seq<Segment<nat>>, visited: seq<bool>, v: nat) returns (i: nat)
    requires |segments| == |visited| && Degree(Select(segments, visited, false), v) > 0
    ensures i < |segments| && !visited[i] && segments[i].Ends(v) > 0
  {
    var n := |segments| - 1;
    SelectLast(segments, visited, false);
    if !visited[n] && segments[n].Ends(v) > 0 {
      i := n;
    } else {
      i := OpenEnd(segments[..n], visited[..n], v);
    }
  }

  /** First open segment that ends at `current`, or the segment count when there is none. */
  method FindNext(segments: seq<Segment<nat>>, visited: array<bool>, current: nat) returns (next: nat)
    requires visited.Length == |segments|
    ensures next <= |segments|
    ensures next < |segments| ==> !visited[next] && segments[next].Ends(current) > 0
    ensures next == |segments| ==> Degree(Select(segments, visited[..], false), current) == 0
  {
    next := 0;
    while next < |segments|
      invariant next <= |segments|
      invariant forall i :: 0 <= i < next ==> visited[i] || segments[i].Ends(current) == 0
    {
      if !visited[next] && (segments[next].a == current || segments[next].b == current) {
        return;
      }
      next := next + 1;
    }
    if Degree(Select(segments, visited[..], false), current) > 0 {
      ghost var i := OpenEnd(segments, visited[..], current);
      assert false;
    }
  }

  function Has(b: bool): (r: nat) { if b then 1 else 0 }

  /**
   * Bookkeeping of a walk along `path` that started with the flags `before`: the visited sides are
   * the path's steps, and every visit of a vertex used up two of its open segment ends.
   */
  ghost predicate Walk(segments: seq<Segment<nat>>, before: seq<bool>, visited: seq<bool>, path: seq<nat>) {
    && |before| == |visited| == |segments| && |path| >= 1
    && |Select(segments, visited, true)| == |Select(segments, before, true)| + |path| - 1
    && (forall x: nat, y: nat :: SegmentSides(Select(segments, visited, true), x, y)
                       == SegmentSides(Select(segments, before, true), x, y) + PathSides(path, x, y))
    && (forall v: nat :: Degree(Select(segments, before, false), v) + Has(v == path[0]) + Has(v == path[|path| - 1])
                    == Degree(Select(segments, visited, false), v) + 2 * multiset(path)[v])
  }

  lemma StartWalk(segments: seq<Segment<nat>>, before: seq<bool>, seed: nat)
    requires |before| == |segments| && seed < |segments| && !before[seed]
    ensures Walk(segments, before, before[seed := true], [segments[seed].a, segments[seed].b])
  {
    var path: seq<nat> := [segments[seed].a, segments[seed].b];
    assert path[..1] == [segments[seed].a];
    forall x: nat, y: nat
      ensures SegmentSides(Select(segments, before[seed := true], true), x, y)
              == SegmentSides(Select(segments, before, true), x, y) + PathSides(path, x, y)
    {
      MarkVisited(segments, before, seed, x, y);
    }
    forall x: nat
      ensures Degree(Select(segments, before, false), x) + Has(x == path[0]) + Has(x == path[1])
              == Degree(Select(segments, before[seed := true], false), x) + 2 * multiset(path)[x]
    {
      MarkVisited(segments, before, seed, x, x);
    }
    MarkVisited(segments, before, seed, 0, 0);
  }

  lemma ExtendWalk(segments: seq<Segment<nat>>, before: seq<bool>, visited: seq<bool>, path: seq<nat>, i: nat, to: nat)
    requires Walk(segments, before, visited, path) && i < |segments| && !visited[i]
    requires var s, v := segments[i], path[|path| - 1];
             (s.a == v && s.b == to) || (s.a == to && s.b == v)
    ensures Walk(segments, before, visited[i := true], path + [to])
  {
    var longer: seq<nat> := path + [to];
    assert longer[..|path|] == path;
    forall x: nat, y: nat
      ensures SegmentSides(Select(segments, visited[i := true], true), x, y)
              == SegmentSides(Select(segments, before, true), x, y) + PathSides(longer, x, y)
    {
      MarkVisited(segments, visited, i, x, y);
    }
    forall x: nat
      ensures Degree(Select(segments, before, false), x) + Has(x == longer[0]) + Has(x == to)
              == Degree(Select(segments, visited[i := true], false), x) + 2 * multiset(longer)[x]
    {
      MarkVisited(segments, visited, i, x, x);
    }
    MarkVisited(segments, visited, i, 0, 0);
  }

  /** The open part of the cut graph has an odd vertex. */
  ghost predicate OpenOdd(segments: seq<Segment<nat>>, visited: seq<bool>)
    requires |segments| == |visited|
  {
    exists v: nat :: Degree(Select(segments, visited, false), v) % 2 == 1
  }

  lemma DeadEndIsOdd(segments: seq<Segment<nat>>, before: seq<bool>, visited: seq<bool>, path: seq<nat>)
    requires Walk(segments, before, visited, path) && path[|path| - 1] != path[0]
    requires Degree(Select(segments, visited, false), path[|path| - 1]) == 0
    ensures OpenOdd(segments, before)
  {
    var v := path[|path| - 1];
    assert Degree(Select(segments, before, false), v) + 1 == 2 * multiset(path)[v];
  }

  /** A walk of as many steps as there are segments leaves no segment open. */
  lemma ExhaustedIsOdd(segments: seq<Segment<nat>>, before: seq<bool>, visited: seq<bool>, path: seq<nat>)
    requires Walk(segments, before, visited, path) && path[|path| - 1] != path[0]
    requires |path| - 1 >= |segments|
    ensures OpenOdd(segments, before)
  {
    SelectBound(segments, visited);
    DeadEndIsOdd(segments, before, visited, path);
  }

  /** One step of the walk: record `current` and leave it by the first open segment. */
  method Advance(segments: seq<Segment<nat>>, visited: array<bool>, loop: array<nat>, loopCount: nat, current: nat,
                 ghost before: seq<bool>)
    returns (status: CapStatus, to: nat)
    requires visited.Length == |segments| == loop.Length && 1 <= loopCount <= |segments|
    requires Walk(segments, before, visited[..], loop[..loopCount] + [current]) && current != loop[0]
    modifies visited, loop
    ensures status == Done || status == NotSimpleLoop || status == OpenLoop
    ensures forall i :: 0 <= i < |segments| && old(visited[i]) ==> visited[i]
    ensures status == Done ==> loopCount < |segments| && loop[0] == old(loop[0])
    ensures status == Done ==> Walk(segments, before, visited[..], loop[..loopCount + 1] + [to])
    ensures status != Done ==> OpenOdd(segments, before)
  {
    to := current;
    ghost var path := loop[..loopCount] + [current];
    if loopCount >= |segments| {
      ExhaustedIsOdd(segments, before, visited[..], path);
      return NotSimpleLoop, to;
    }
    loop[loopCount] := current;
    assert loop[..loopCount + 1] == path;
    var next := FindNext(segments, visited, current);
    if next == |segments| {
      DeadEndIsOdd(segments, before, visited[..], path);
      return OpenLoop, to;
    }
    to := if segments[next].a == current then segments[next].b else segments[next].a;
    ExtendWalk(segments, before, visited[..], path, next, to);
    ghost var flags := visited[..];
    visited[next] := true;
    assert visited[..] == flags[next := true];
    status := Done;
  }

  /**
   * Follows open segments from `seed` until the walk is back at its start.  Fails only when the
   * open part of the cut graph has a vertex of odd degree.
   */
  method TraceLoop(segments: seq<Segment<nat>>, visited: array<bool>, seed: nat, loop: array<nat>)
    returns (status: CapStatus, loopCount: nat)
    requires visited.Length == |segments| == loop.Length && seed < |segments| && !visited[seed]
    modifies visited, loop
    ensures status == Done || status == NotSimpleLoop || status == OpenLoop
    ensures forall i :: 0 <= i < |segments| && (old(visited[i]) || i == seed) ==> visited[i]
    ensures status == Done ==> 1 <= loopCount <= |segments|
    ensures status == Done ==> Walk(segments, old(visited[..]), visited[..], loop[..loopCount] + [loop[0]])
    ensures status != Done ==> OpenOdd(segments, old(visited[..]))
  {
    ghost var before := visited[..];
    var start: nat, current: nat := segments[seed].a, segments[seed].b;
    visited[seed] := true;
    loop[0] := start;
    loopCount := 1;
    status := Done;
    StartWalk(segments, before, seed);
    assert visited[..] == before[seed := true];
    assert loop[..1] + [current] == [start, current];
    while current != start
      invariant status == Done && 1 <= loopCount <= |segments| && loop[0] == start
      invariant forall i :: 0 <= i < |segments| && (before[i] || i == seed) ==> visited[i]
      invariant Walk(segments, before, visited[..], loop[..loopCount] + [current])
      decreases |segments| - loopCount
    {
      status, current := Advance(segments, visited, loop, loopCount, current, before);
      if status != Done {
        return;
      }
      loopCount := loopCount + 1;
    }
  }

  ghost function LoopSides(loops: seq<seq<nat>>, x: nat, y: nat): (r: nat) {
    if loops == [] then 0 else LoopSides(loops[..|loops| - 1], x, y) + CycleSides(loops[|loops| - 1], x, y)
  }

  ghost function TotalLength(loops: seq<seq<nat>>): (r: nat) {
    if loops == [] then 0 else TotalLength(loops[..|loops| - 1]) + |loops[|loops| - 1]|
  }

  /** State between two seeds: the visited segments are exactly the steps of the closed loops so far. */
  ghost predicate Traced(segments: seq<Segment<nat>>, visited: seq<bool>, loops: seq<seq<nat>>, caps: seq<Tri<nat>>) {
    && |visited| == |segments|
    && TotalLength(loops) == |Select(segments, visited, true)|
    && |caps| <= TotalLength(loops)
    && (forall x: nat, y: nat :: LoopSides(loops, x, y) == SegmentSides(Select(segments, visited, true), x, y))
    && (forall x: nat, y: nat :: x != y ==> SideCount(caps, x, y) % 2 == LoopSides(loops, x, y) % 2)
    && (forall v: nat :: Degree(Select(segments, visited, false), v) <= Degree(segments, v))
    && (forall v: nat :: Degree(Select(segments, visited, false), v) % 2 == Degree(segments, v) % 2)
    && (AtMostTwo(segments) ==>
         (forall i :: 0 <= i < |caps| ==> Proper(caps[i])) && forall i :: 0 <= i < |loops| ==> Distinct(loops[i]))
  }

  ghost predicate AtMostTwo(segments: seq<Segment<nat>>) {
    forall v: nat :: Degree(segments, v) <= 2
  }

  /** Closing a walk takes two open ends from a vertex for every time the loop meets it. */
  lemma ClosedDegree(segments: seq<Segment<nat>>, before: seq<bool>, visited: seq<bool>, loop: seq<nat>, v: nat)
    requires loop != [] && Walk(segments, before, visited, loop + [loop[0]])
    ensures Degree(Select(segments, before, false), v)
            == Degree(Select(segments, visited, false), v) + 2 * multiset(loop)[v]
  {
    var path := loop + [loop[0]];
    assert path[0] == loop[0] && path[|path| - 1] == loop[0];
    assert multiset(path)[v] == multiset(loop)[v] + Has(v == loop[0]);
  }

  lemma TwiceInLoop(loop: seq<nat>, i: nat, j: nat)
    requires i < j < |loop| && loop[i] == loop[j]
    ensures multiset(loop)[loop[i]] >= 2
  {
    assert loop == loop[..j] + [loop[j]] + loop[j + 1..];
    assert loop[..j][i] == loop[i];
  }

  /** In a cut graph of degree at most two no loop meets a vertex twice. */
  lemma LoopIsSimple(segments: seq<Segment<nat>>, before: seq<bool>, visited: seq<bool>, loop: seq<nat>)
    requires loop != [] && Walk(segments, before, visited, loop + [loop[0]])
    requires forall v: nat :: Degree(Select(segments, before, false), v) <= 2
    ensures Distinct(loop)
  {
    forall i, j | 0 <= i < j < |loop|
      ensures loop[i] != loop[j]
    {
      ClosedDegree(segments, before, visited, loop, loop[i]);
      if loop[i] == loop[j] {
        TwiceInLoop(loop, i, j);
      }
    }
  }

  lemma NextLoop(segments: seq<Segment<nat>>, before: seq<bool>, visited: seq<bool>, loop: seq<nat>,
                 loops: seq<seq<nat>>, caps: seq<Tri<nat>>, more: seq<Tri<nat>>)
    requires loop != [] && Walk(segments, before, visited, loop + [loop[0]])
    requires Traced(segments, before, loops, caps)
    requires |more| <= |loop| && CapsOk(more, loop)
    requires forall x: nat, y: nat :: x != y ==> SideCount(more, x, y) % 2 == CycleSides(loop, x, y) % 2
    ensures Traced(segments, visited, loops + [loop], caps + more)
  {
    assert (loops + [loop])[..|loops|] == loops;
    NextLoopSides(segments, before, visited, loop, loops);
    NextLoopParity(loop, loops, caps, more);
    NextLoopDegrees(segments, before, visited, loop);
    if AtMostTwo(segments) {
      NextLoopSimple(segments, before, visited, loop, loops, caps);
    }
  }

  lemma NextLoopDegrees(segments: seq<Segment<nat>>, before: seq<bool>, visited: seq<bool>, loop: seq<nat>)
    requires loop != [] && Walk(segments, before, visited, loop + [loop[0]])
    requires forall v: nat :: Degree(Select(segments, before, false), v) <= Degree(segments, v)
    requires forall v: nat :: Degree(Select(segments, before, false), v) % 2 == Degree(segments, v) % 2
    ensures forall v: nat :: Degree(Select(segments, visited, false), v) <= Degree(segments, v)
    ensures forall v: nat :: Degree(Select(segments, visited, false), v) % 2 == Degree(segments, v) % 2
  {
    forall v: nat
      ensures Degree(Select(segments, visited, false), v) <= Degree(segments, v)
      ensures Degree(Select(segments, visited, false), v) % 2 == Degree(segments, v) % 2
    {
      ClosedDegree(segments, before, visited, loop, v);
      TakeTwice(Degree(Select(segments, before, false), v), Degree(Select(segments, visited, false), v),
                multiset(loop)[v], Degree(segments, v));
    }
  }

  lemma TakeTwice(a: nat, b: nat, m: nat, c: nat)
    requires a == b + 2 * m && a <= c && a % 2 == c % 2
    ensures b <= c && b % 2 == c % 2
  {
  }

  lemma NextLoopSimple(segments: seq<Segment<nat>>, before: seq<bool>, visited: seq<bool>, loop: seq<nat>,
                       loops: seq<seq<nat>>, caps: seq<Tri<nat>>)
    requires loop != [] && Walk(segments, before, visited, loop + [loop[0]])
    requires Traced(segments, before, loops, caps) && AtMostTwo(segments)
    ensures Distinct(loop)
  {
    forall v: nat
      ensures Degree(Select(segments, before, false), v) <= 2
    {
      assert Degree(segments, v) <= 2;
    }
    LoopIsSimple(segments, before, visited, loop);
  }

  lemma NextLoopSides(segments: seq<Segment<nat>>, before: seq<bool>, visited: seq<bool>, loop: seq<nat>,
                      loops: seq<seq<nat>>)
    requires loop != [] && Walk(segments, before, visited, loop + [loop[0]])
    requires forall x: nat, y: nat :: LoopSides(loops, x, y) == SegmentSides(Select(segments, before, true), x, y)
    ensures forall x: nat, y: nat :: LoopSides(loops + [loop], x, y) == SegmentSides(Select(segments, visited, true), x, y)
  {
    assert (loops + [loop])[..|loops|] == loops;
    assert (loop + [loop[0]])[..|loop|] == loop;
  }

  lemma NextLoopParity(loop: seq<nat>, loops: seq<seq<nat>>, caps: seq<Tri<nat>>, more: seq<Tri<nat>>)
    requires forall x: nat, y: nat :: x != y ==> SideCount(caps, x, y) % 2 == LoopSides(loops, x, y) % 2
    requires forall x: nat, y: nat :: x != y ==> SideCount(more, x, y) % 2 == CycleSides(loop, x, y) % 2
    ensures forall x: nat, y: nat :: x != y ==> SideCount(caps + more, x, y) % 2 == LoopSides(loops + [loop], x, y) % 2
  {
    assert (loops + [loop])[..|loops|] == loops;
    forall x: nat, y: nat | x != y
      ensures SideCount(caps + more, x, y) % 2 == LoopSides(loops + [loop], x, y) % 2
    {
      SideCountConcat(caps, more, x, y);
    }
  }

  /** Loops of one or two points have no boundary, so leaving them out loses nothing. */
  lemma ShortLoop(loop: seq<nat>, x: nat, y: nat)
    requires 0 < |loop| < 3 && x != y
    ensures CycleSides(loop, x, y) % 2 == 0
  {
    if |loop| == 2 {
      assert PathSides(loop[..1], x, y) == 0;
    }
  }

  ghost predicate InRange(segments: seq<Segment<nat>>, points: seq<Vec3>) {
    forall i :: 0 <= i < |segments| ==> segments[i].a < |points| && segments[i].b < |points|
  }

  /** Some vertex of the cut graph has odd degree. */
  ghost predicate Odd(segments: seq<Segment<nat>>) {
    exists v: nat :: Degree(segments, v) % 2 == 1
  }

  /** Every triangle of a loop of segment ends is bounded by that loop. */
  lemma LoopParity(points: seq<Vec3>, frame: Frame, loop: seq<nat>, more: seq<Tri<nat>>)
    requires loop != []
    requires |loop| < 3 ==> more == []
    requires |loop| >= 3 ==> Fills(more, Oriented(points, frame, loop))
    ensures forall x: nat, y: nat :: x != y ==> SideCount(more, x, y) % 2 == CycleSides(loop, x, y) % 2
  {
    forall x: nat, y: nat | x != y
      ensures SideCount(more, x, y) % 2 == CycleSides(loop, x, y) % 2
    {
      if |loop| < 3 {
        ShortLoop(loop, x, y);
      } else {
        FillParity(more, loop, x, y);
      }
    }
  }

  /**
   * The segments are used exactly once each, as the steps of the closed `loops`, and the triangles
   * `caps` are bounded by the segments modulo two.
   */
  ghost predicate Capped(segments: seq<Segment<nat>>, loops: seq<seq<nat>>, caps: seq<Tri<nat>>) {
    && TotalLength(loops) == |segments|
    && (forall x: nat, y: nat :: LoopSides(loops, x, y) == SegmentSides(segments, x, y))
    && (forall x: nat, y: nat :: x != y ==> SideCount(caps, x, y) % 2 == SegmentSides(segments, x, y) % 2)
    && (AtMostTwo(segments) ==> forall i :: 0 <= i < |loops| ==> Distinct(loops[i]))
  }

  lemma AllTraced(segments: seq<Segment<nat>>, visited: seq<bool>, loops: seq<seq<nat>>, caps: seq<Tri<nat>>)
    requires Traced(segments, visited, loops, caps) && forall i :: 0 <= i < |visited| ==> visited[i]
    ensures Capped(segments, loops, caps) && !Odd(segments)
  {
    SelectAll(segments, visited, true);
    forall v: nat
      ensures Degree(segments, v) % 2 == 0
    {
      assert Degree<nat>([], v) % 2 == Degree(segments, v) % 2;
    }
  }

  lemma NoneTraced(segments: seq<Segment<nat>>, visited: seq<bool>)
    requires |visited| == |segments| && forall i :: 0 <= i < |visited| ==> !visited[i]
    ensures Traced(segments, visited, [], [])
  {
    SelectAll(segments, visited, false);
  }

  lemma CapCornersExist(caps: seq<Tri<nat>>, loop: seq<nat>, points: seq<Vec3>)
    requires CapsOk(caps, loop) && InLoop(loop, points)
    ensures CornersExist(caps, |points|)
  {
    forall i | 0 <= i < |caps|
      ensures caps[i].a < |points| && caps[i].b < |points| && caps[i].c < |points|
    {
      assert CornersFrom(caps[i], loop);
    }
  }

  /** How many triangles a loop takes. */
  function CapSize(loop: seq<nat>): (r: nat) { if |loop| < 3 then 0 else |loop| - 2 }

  /** The triangles of one loop, which they fill in the direction that makes its projected area positive. */
  ghost predicate Patch(points: seq<Vec3>, frame: Frame, loop: seq<nat>, patch: seq<Tri<nat>>) {
    && InLoop(loop, points) && Fillable(points, frame, loop) && |patch| == CapSize(loop)
    && (|loop| >= 3 ==> Fills(patch, Oriented(points, frame, loop)))
  }

  /** The caps are one patch for each loop, in order. */
  ghost predicate Patched(points: seq<Vec3>, frame: Frame, loops: seq<seq<nat>>, caps: seq<Tri<nat>>) {
    if loops == [] then caps == []
    else
      var loop := loops[|loops| - 1];
      var n := |caps| - CapSize(loop);
      n >= 0 && Patch(points, frame, loop, caps[n..]) && Patched(points, frame, loops[..|loops| - 1], caps[..n])
  }

  lemma LastPatch(points: seq<Vec3>, frame: Frame, loops: seq<seq<nat>>, caps: seq<Tri<nat>>) returns (n: nat)
    requires Patched(points, frame, loops, caps) && loops != []
    ensures n <= |caps| && Patch(points, frame, loops[|loops| - 1], caps[n..])
    ensures Patched(points, frame, loops[..|loops| - 1], caps[..n])
  {
    n := |caps| - CapSize(loops[|loops| - 1]);
  }

  ghost predicate AllFillable(points: seq<Vec3>, frame: Frame, loops: seq<seq<nat>>) {
    forall i :: 0 <= i < |loops| ==> InLoop(loops[i], points) && Fillable(points, frame, loops[i])
  }

  lemma NextFillable(points: seq<Vec3>, frame: Frame, loops: seq<seq<nat>>)
    requires loops != [] && AllFillable(points, frame, loops[..|loops| - 1])
    requires InLoop(loops[|loops| - 1], points) && Fillable(points, frame, loops[|loops| - 1])
    ensures AllFillable(points, frame, loops)
  {
    forall i | 0 <= i < |loops| ensures InLoop(loops[i], points) && Fillable(points, frame, loops[i]) {
      if i < |loops| - 1 { assert loops[i] == loops[..|loops| - 1][i]; }
    }
  }

  lemma {:induction false} PatchedFillable(points: seq<Vec3>, frame: Frame, loops: seq<seq<nat>>, caps: seq<Tri<nat>>)
    requires Patched(points, frame, loops, caps)
    ensures AllFillable(points, frame, loops)
  {
    if loops != [] {
      var n := LastPatch(points, frame, loops, caps);
      PatchedFillable(points, frame, loops[..|loops| - 1], caps[..n]);
      NextFillable(points, frame, loops);
    }
  }

  /** A closed way that takes no segment more often than it is there. */
  ghost predicate ClosedWay(segments: seq<Segment<nat>>, points: seq<Vec3>, loop: seq<nat>) {
    && loop != [] && InLoop(loop, points)
    && forall x: nat, y: nat :: CycleSides(loop, x, y) <= SegmentSides(segments, x, y)
  }

  /** The closed ways take no segment more often together than it is there. */
  ghost predicate LoopsWithin(segments: seq<Segment<nat>>, loops: seq<seq<nat>>) {
    forall x: nat, y: nat :: LoopSides(loops, x, y) <= SegmentSides(segments, x, y)
  }

  /** A closed way along the segments that has no area, or whose ear clipping, after `part`, has no ear left. */
  ghost predicate NotFilled(why: CapStatus, segments: seq<Segment<nat>>, points: seq<Vec3>, frame: Frame, loop: seq<nat>,
                            part: seq<Tri<nat>>) {
    && ClosedWay(segments, points, loop) && |loop| >= 3 && !Fillable(points, frame, loop)
    && (why == ZeroArea <==> Abs(CycleFlux(loop, AreaForm(points, frame))) <= MIN_AREA)
    && (why == NoEar ==> OutOfEars(part, loop, Oriented(points, frame, loop), Coordinates(points, loop, frame)))
  }

  /** The last of the traced loops is not filled; the others are, by the first `done` triangles. */
  ghost predicate StoppedAt(why: CapStatus, segments: seq<Segment<nat>>, points: seq<Vec3>, frame: Frame,
                            loops: seq<seq<nat>>, caps: seq<Tri<nat>>, done: nat) {
    && loops != [] && done <= |caps| && LoopsWithin(segments, loops)
    && Patched(points, frame, loops[..|loops| - 1], caps[..done])
    && NotFilled(why, segments, points, frame, loops[|loops| - 1], caps[done..])
  }

  lemma {:induction false} SelectSides(segments: seq<Segment<nat>>, visited: seq<bool>, x: nat, y: nat)
    requires |segments| == |visited|
    ensures SegmentSides(Select(segments, visited, true), x, y) <= SegmentSides(segments, x, y)
  {
    if segments != [] {
      var n := |segments| - 1;
      SelectSides(segments[..n], visited[..n], x, y);
      SelectLast(segments, visited, true);
    }
  }

  lemma TracedIsWay(segments: seq<Segment<nat>>, before: seq<bool>, after: seq<bool>, points: seq<Vec3>, loop: seq<nat>)
    requires loop != [] && Walk(segments, before, after, loop + [loop[0]]) && InLoop(loop, points)
    ensures ClosedWay(segments, points, loop)
  {
    forall x: nat, y: nat ensures CycleSides(loop, x, y) <= SegmentSides(segments, x, y) {
      SelectSides(segments, after, x, y);
      assert (loop + [loop[0]])[..|loop|] == loop;
    }
  }

  lemma TracedWithin(segments: seq<Segment<nat>>, before: seq<bool>, after: seq<bool>, loop: seq<nat>,
                     loops: seq<seq<nat>>, caps: seq<Tri<nat>>)
    requires loop != [] && Walk(segments, before, after, loop + [loop[0]]) && Traced(segments, before, loops, caps)
    ensures LoopsWithin(segments, loops + [loop])
  {
    NextLoopSides(segments, before, after, loop, loops);
    forall x: nat, y: nat ensures LoopSides(loops + [loop], x, y) <= SegmentSides(segments, x, y) {
      SelectSides(segments, after, x, y);
    }
  }

  lemma NextPatch(points: seq<Vec3>, frame: Frame, loops: seq<seq<nat>>, caps: seq<Tri<nat>>, loop: seq<nat>,
                  more: seq<Tri<nat>>)
    requires Patched(points, frame, loops, caps) && Patch(points, frame, loop, more)
    ensures Patched(points, frame, loops + [loop], caps + more)
  {
    assert (loops + [loop])[..|loops|] == loops;
    assert (caps + more)[|caps|..] == more && (caps + more)[..|caps|] == caps;
  }

  /** State between two seeds: what has been traced has been patched. */
  ghost predicate Capping(segments: seq<Segment<nat>>, visited: seq<bool>, points: seq<Vec3>, frame: Frame,
                          loops: seq<seq<nat>>, caps: seq<Tri<nat>>) {
    Traced(segments, visited, loops, caps) && CornersExist(caps, |points|) && Patched(points, frame, loops, caps)
  }

  /** What is known when the caps have been generated, or have been given up. */
  ghost predicate CapsOutcome(status: CapStatus, segments: seq<Segment<nat>>, points: seq<Vec3>, frame: Frame,
                              loops: seq<seq<nat>>, caps: seq<Tri<nat>>, done: nat) {
    && |caps| <= |segments| && CornersExist(caps, |points|)
    && (AtMostTwo(segments) ==> forall i :: 0 <= i < |caps| ==> Proper(caps[i]))
    && match status
       case Done => Capped(segments, loops, caps) && !Odd(segments) && Patched(points, frame, loops, caps)
       case CapacityExceeded => true
       case NotSimpleLoop => Odd(segments)
       case OpenLoop => Odd(segments)
       case _ => StoppedAt(status, segments, points, frame, loops, caps, done)
  }

  /** What is known after one loop has been walked and triangulated, with those before it. */
  ghost predicate LoopOutcome(status: CapStatus, segments: seq<Segment<nat>>, visited: seq<bool>, points: seq<Vec3>,
                              frame: Frame, loops: seq<seq<nat>>, caps: seq<Tri<nat>>, traced: seq<nat>,
                              more: seq<Tri<nat>>) {
    && |caps| + |more| <= |segments| && CornersExist(more, |points|)
    && (AtMostTwo(segments) ==> forall i :: 0 <= i < |caps + more| ==> Proper((caps + more)[i]))
    && match status
       case Done => Traced(segments, visited, loops + [traced], caps + more) && Patch(points, frame, traced, more)
       case CapacityExceeded => true
       case NotSimpleLoop => Odd(segments)
       case OpenLoop => Odd(segments)
       case _ => LoopsWithin(segments, loops + [traced]) && NotFilled(status, segments, points, frame, traced, more)
  }

  /** The walk of one loop has failed, or has closed and been triangulated. */
  ghost predicate LoopDone(status: CapStatus, segments: seq<Segment<nat>>, before: seq<bool>, visited: seq<bool>,
                           points: seq<Vec3>, frame: Frame, traced: seq<nat>, more: seq<Tri<nat>>) {
    if traced == [] then more == [] && OddWalk(status, segments, before)
    else Walk(segments, before, visited, traced + [traced[0]]) && LoopResult(status, more, points, frame, traced)
  }

  ghost predicate OddWalk(status: CapStatus, segments: seq<Segment<nat>>, before: seq<bool>) {
    (status == NotSimpleLoop || status == OpenLoop) && |before| == |segments| && OpenOdd(segments, before)
  }

  /** One more loop: the caps go on, or their outcome is known. */
  lemma LoopAdds(status: CapStatus, segments: seq<Segment<nat>>, before: seq<bool>, visited: seq<bool>,
                 points: seq<Vec3>, frame: Frame, loops: seq<seq<nat>>, caps: seq<Tri<nat>>, traced: seq<nat>,
                 more: seq<Tri<nat>>)
    requires Capping(segments, before, points, frame, loops, caps) && InRange(segments, points)
    requires LoopDone(status, segments, before, visited, points, frame, traced, more)
    ensures if status == Done then Capping(segments, visited, points, frame, loops + [traced], caps + more)
            else CapsOutcome(status, segments, points, frame, loops + [traced], caps + more, |caps|)
    ensures |caps| + |traced| <= |segments|
  {
    if traced == [] {
      LoopFails(status, segments, before, visited, points, frame, loops, caps);
      SelectBound(segments, before);
    } else {
      LoopEnds(status, segments, before, visited, points, frame, loops, caps, traced, more);
      LoopFits(segments, before, visited, points, loops, caps, traced);
    }
    if status == Done { NextPatch(points, frame, loops, caps, traced, more); }
    assert (loops + [traced])[..|loops|] == loops;
    assert (caps + more)[..|caps|] == caps && (caps + more)[|caps|..] == more;
  }

  lemma CappingEnds(segments: seq<Segment<nat>>, visited: seq<bool>, points: seq<Vec3>, frame: Frame,
                    loops: seq<seq<nat>>, caps: seq<Tri<nat>>, done: nat)
    requires Capping(segments, visited, points, frame, loops, caps) && forall i :: 0 <= i < |visited| ==> visited[i]
    ensures CapsOutcome(Done, segments, points, frame, loops, caps, done)
  {
    AllTraced(segments, visited, loops, caps);
  }

  /**
   * Traces and triangulates every loop.  The tracing can only go wrong when the cut graph has a
   * vertex of odd degree, and always does then; a loop is given up exactly when it is not fillable;
   * the buffer can only be full when it did not hold one triangle per segment.
   */
  method GenerateCaps(output: ClipOutput, segments: seq<Segment<nat>>, frame: Frame, capacity: nat)
    returns (status: CapStatus, ghost caps: seq<Tri<nat>>, ghost loops: seq<seq<nat>>, ghost done: nat)
    requires output.Valid() && InRange(segments, output.points)
    modifies output`triangles, output`sourceIds
    ensures output.Valid()
    ensures CapsAdded(old(output.triangles), old(output.sourceIds), output.triangles, output.sourceIds, caps)
    ensures |caps| <= |segments| && CornersExist(caps, |output.points|)
    ensures AtMostTwo(segments) ==> forall i :: 0 <= i < |caps| ==> Proper(caps[i])
    ensures status == Done ==> Capped(segments, loops, caps) && !Odd(segments)
    ensures status == Done ==> Patched(output.points, frame, loops, caps)
    ensures status == NotSimpleLoop || status == OpenLoop ==> Odd(segments)
    ensures status == ZeroArea || status == NoEar ==>
              StoppedAt(status, segments, output.points, frame, loops, caps, done)
    ensures status == CapacityExceeded ==> |old(output.triangles)| + |segments| > capacity
  {
    var visited := new bool[|segments|](_ => false);
    var loop := new nat[|segments|](_ => 0);
    NoneTraced(segments, visited[..]);
    status, caps, loops, done := CapFromSeeds(output, segments, visited, loop, frame, capacity);
  }

  /** The seed loop: every segment not yet visited starts a walk. */
  method CapFromSeeds(output: ClipOutput, segments: seq<Segment<nat>>, visited: array<bool>, loop: array<nat>,
                      frame: Frame, capacity: nat)
    returns (status: CapStatus, ghost caps: seq<Tri<nat>>, ghost loops: seq<seq<nat>>, ghost done: nat)
    requires output.Valid() && InRange(segments, output.points)
    requires visited.Length == |segments| == loop.Length && Traced(segments, visited[..], [], [])
    modifies output`triangles, output`sourceIds, visited, loop
    ensures output.Valid()
    ensures CapsAdded(old(output.triangles), old(output.sourceIds), output.triangles, output.sourceIds, caps)
    ensures CapsOutcome(status, segments, output.points, frame, loops, caps, done)
    ensures status == CapacityExceeded ==> |old(output.triangles)| + |segments| > capacity
  {
    ghost var ts, ids := output.triangles, output.sourceIds;
    caps, loops, done, status := [], [], 0, Done;
    var seed := 0;
    while seed < |segments|
      invariant seed <= |segments| && forall i :: 0 <= i < seed ==> visited[i]
      invariant output.Valid() && CapsAdded(ts, ids, output.triangles, output.sourceIds, caps)
      invariant Capping(segments, visited[..], output.points, frame, loops, caps)
    {
      status, loops, caps, done := CapFromSeed(output, segments, visited, seed, loop, frame, capacity, ts, ids, loops, caps);
      if status != Done {
        return;
      }
      seed := seed + 1;
    }
    CappingEnds(segments, visited[..], output.points, frame, loops, caps, done);
    status := Done;
  }

  /** The body of the seed loop; segments that a walk has visited start none. */
  method CapFromSeed(output: ClipOutput, segments: seq<Segment<nat>>, visited: array<bool>, seed: nat, loop: array<nat>,
                     frame: Frame, capacity: nat, ghost ts: seq<Tri<nat>>, ghost ids: seq<Option<nat>>,
                     ghost loops: seq<seq<nat>>, ghost caps: seq<Tri<nat>>)
    returns (status: CapStatus, ghost loops': seq<seq<nat>>, ghost caps': seq<Tri<nat>>, ghost done: nat)
    requires output.Valid() && InRange(segments, output.points)
    requires visited.Length == |segments| == loop.Length && seed < |segments|
    requires CapsAdded(ts, ids, output.triangles, output.sourceIds, caps)
    requires Capping(segments, visited[..], output.points, frame, loops, caps)
    modifies output`triangles, output`sourceIds, visited, loop
    ensures output.Valid()
    ensures CapsAdded(ts, ids, output.triangles, output.sourceIds, caps')
    ensures forall i :: 0 <= i < |segments| && (old(visited[i]) || i == seed) ==> visited[i]
    ensures if status == Done then Capping(segments, visited[..], output.points, frame, loops', caps')
            else CapsOutcome(status, segments, output.points, frame, loops', caps', done)
    ensures status == CapacityExceeded ==> |ts| + |segments| > capacity
  {
    status, loops', caps', done := Done, loops, caps, |caps|;
    if visited[seed] {
      return;
    }
    ghost var before := visited[..];
    ghost var more: seq<Tri<nat>>, traced: seq<nat>;
    status, more, traced := CapLoop(output, segments, visited, seed, loop, frame, capacity);
    AppendCaps(ts, ids, old(output.triangles), old(output.sourceIds), caps, more);
    LoopAdds(status, segments, before, visited[..], output.points, frame, loops, caps, traced, more);
    loops', caps' := loops + [traced], caps + more;
  }

  /** One walk, one triangulation. */
  method CapLoop(output: ClipOutput, segments: seq<Segment<nat>>, visited: array<bool>, seed: nat, loop: array<nat>,
                 frame: Frame, capacity: nat)
    returns (status: CapStatus, ghost more: seq<Tri<nat>>, ghost traced: seq<nat>)
    requires output.Valid() && InRange(segments, output.points)
    requires visited.Length == |segments| == loop.Length && seed < |segments| && !visited[seed]
    modifies output`triangles, output`sourceIds, visited, loop
    ensures output.Valid()
    ensures CapsAdded(old(output.triangles), old(output.sourceIds), output.triangles, output.sourceIds, more)
    ensures forall i :: 0 <= i < |segments| && (old(visited[i]) || i == seed) ==> visited[i]
    ensures LoopDone(status, segments, old(visited[..]), visited[..], output.points, frame, traced, more)
    ensures status == CapacityExceeded ==> |old(output.triangles)| + |traced| > capacity
  {
    ghost var before := visited[..];
    more, traced := [], [];
    var loopCount;
    status, loopCount := TraceLoop(segments, visited, seed, loop);
    if status != Done {
      return;
    }
    traced := loop[..loopCount];
    TracedInRange(segments, before, visited[..], traced, output.points);
    status, more := TriangulateCapLoop(output, loop[..loopCount], frame, capacity);
  }

  /** A walk that fails. */
  lemma LoopFails(status: CapStatus, segments: seq<Segment<nat>>, before: seq<bool>, visited: seq<bool>,
                  points: seq<Vec3>, frame: Frame, loops: seq<seq<nat>>, caps: seq<Tri<nat>>)
    requires Traced(segments, before, loops, caps) && OddWalk(status, segments, before)
    ensures LoopOutcome(status, segments, visited, points, frame, loops, caps, [], [])
  {
    SelectBound(segments, before);
    OddBefore(segments, before, loops, caps);
    assert caps + [] == caps;
  }

  /** A closed walk stays among the points, and the buffer has room for it if it had room for every segment. */
  lemma LoopFits(segments: seq<Segment<nat>>, before: seq<bool>, after: seq<bool>, points: seq<Vec3>,
                 loops: seq<seq<nat>>, caps: seq<Tri<nat>>, traced: seq<nat>)
    requires traced != [] && Walk(segments, before, after, traced + [traced[0]])
    requires Traced(segments, before, loops, caps) && InRange(segments, points)
    ensures InLoop(traced, points) && |caps| + |traced| <= |segments|
  {
    SelectBound(segments, after);
    TracedInRange(segments, before, after, traced, points);
  }

  /** A closed walk whose triangulation has ended. */
  lemma LoopEnds(status: CapStatus, segments: seq<Segment<nat>>, before: seq<bool>, after: seq<bool>,
                 points: seq<Vec3>, frame: Frame, loops: seq<seq<nat>>, caps: seq<Tri<nat>>, traced: seq<nat>,
                 more: seq<Tri<nat>>)
    requires traced != [] && Walk(segments, before, after, traced + [traced[0]]) && Traced(segments, before, loops, caps)
    requires InRange(segments, points) && LoopResult(status, more, points, frame, traced)
    ensures LoopOutcome(status, segments, after, points, frame, loops, caps, traced, more)
  {
    LoopFits(segments, before, after, points, loops, caps, traced);
    CapCornersExist(more, traced, points);
    ProperCaps(segments, before, after, traced, loops, caps, more);
    TracedIsWay(segments, before, after, points, traced);
    TracedWithin(segments, before, after, traced, loops, caps);
    if status == Done {
      LoopParity(points, frame, traced, more);
      NextLoop(segments, before, after, traced, loops, caps, more);
    }
  }

  lemma OddBefore(segments: seq<Segment<nat>>, before: seq<bool>, loops: seq<seq<nat>>, caps: seq<Tri<nat>>)
    requires Traced(segments, before, loops, caps) && OpenOdd(segments, before)
    ensures Odd(segments)
  {
    var v: nat :| Degree(Select(segments, before, false), v) % 2 == 1;
    assert Degree(segments, v) % 2 == 1;
  }

  lemma TracedInRange(segments: seq<Segment<nat>>, before: seq<bool>, after: seq<bool>, loop: seq<nat>, points: seq<Vec3>)
    requires loop != [] && Walk(segments, before, after, loop + [loop[0]]) && InRange(segments, points)
    ensures InLoop(loop, points)
  {
    forall i | 0 <= i < |loop|
      ensures loop[i] < |points|
    {
      ClosedDegree(segments, before, after, loop, loop[i]);
      assert loop[i] in multiset(loop);
      var s := OpenEnd(segments, before, loop[i]);
    }
  }

  lemma ProperCaps(segments: seq<Segment<nat>>, before: seq<bool>, after: seq<bool>, loop: seq<nat>,
                   loops: seq<seq<nat>>, caps: seq<Tri<nat>>, more: seq<Tri<nat>>)
    requires loop != [] && Walk(segments, before, after, loop + [loop[0]])
    requires Traced(segments, before, loops, caps) && CapsOk(more, loop)
    ensures AtMostTwo(segments) ==> forall i :: 0 <= i < |caps + more| ==> Proper((caps + more)[i])
  {
    if AtMostTwo(segments) {
      NextLoopSimple(segments, before, after, loop, loops, caps);
    }
  }
}
