/**
 * Closed loops through a graph of directed segments in which at most one segment leaves and one arrives at every
 * vertex: a loop runs with all of its segments or against all of them, and turned loops cancel the segments exactly
 * when every loop of three vertices or more is turned against them.
 */
module LoopDirections {
  import opened Chains
  import opened CapLoops
  import opened CutDirections
  import EarClip

  ghost predicate OneWay(ds: seq<Segment<nat>>) {
    && (forall v: nat :: Out(ds, v) <= 1 && In(ds, v) <= 1)
    && forall s :: s in ds ==> s.a != s.b
  }

  /** Every step of the loop is a segment. */
  ghost predicate RunsWith(ds: seq<Segment<nat>>, s: seq<nat>) {
    forall i :: 0 <= i < |s| ==> Segment(s[i], s[After(i, |s|)]) in ds
  }

  /** Every step of the loop is a segment taken backwards. */
  ghost predicate RunsAgainst(ds: seq<Segment<nat>>, s: seq<nat>) {
    forall i :: 0 <= i < |s| ==> Segment(s[After(i, |s|)], s[i]) in ds
  }

  // ----- Counting segments --------------------------------------------------------------------------

  lemma {:induction false} MemberCounts<V>(ds: seq<Segment<V>>, s: Segment<V>)
    requires s in ds
    ensures Out(ds, s.a) >= 1 && In(ds, s.b) >= 1
  {
    if ds[|ds| - 1] != s { MemberCounts(ds[..|ds| - 1], s); }
  }

  lemma {:induction false} TwoMembersCount<V>(ds: seq<Segment<V>>, s: Segment<V>, t: Segment<V>)
    requires s in ds && t in ds && s != t
    ensures s.a == t.a ==> Out(ds, s.a) >= 2
    ensures s.b == t.b ==> In(ds, s.b) >= 2
  {
    var n := |ds| - 1;
    if ds[n] == s {
      MemberCounts(ds[..n], t);
    } else if ds[n] == t {
      MemberCounts(ds[..n], s);
    } else {
      TwoMembersCount(ds[..n], s, t);
    }
  }

  /** No other segment of a one-way graph leaves or arrives where this one does. */
  lemma OnlyOne(ds: seq<Segment<nat>>, s: Segment<nat>, t: Segment<nat>)
    requires OneWay(ds) && s in ds && t in ds && (s.a == t.a || s.b == t.b)
    ensures s == t
  {
    if s != t { TwoMembersCount(ds, s, t); }
  }

  lemma {:induction false} SidesCount(ds: seq<Segment<nat>>, x: nat, y: nat)
    requires x != y
    ensures SegmentSides(ds, x, y) == multiset(ds)[Segment(x, y)] + multiset(ds)[Segment(y, x)]
    ensures SegmentFlux(ds, Indicator(x, y)) == multiset(ds)[Segment(x, y)] as real - multiset(ds)[Segment(y, x)] as real
    ensures multiset(ds)[Segment(x, y)] <= Out(ds, x) && multiset(ds)[Segment(y, x)] <= In(ds, x)
  {
    if ds != [] {
      var n := |ds| - 1;
      SidesCount(ds[..n], x, y);
      assert ds == ds[..n] + [ds[n]];
      assert multiset(ds) == multiset(ds[..n]) + multiset{ds[n]};
      assert Indicator(x, y)(ds[n].a, ds[n].b) == Step(ds[n].a, ds[n].b, x, y) as real;
    }
  }

  /** +1 for an edge that has a segment one way only, -1 for one that has it the other way only. */
  ghost function Net(ds: seq<Segment<nat>>, x: nat, y: nat): (r: int) {
    Has(Segment(x, y) in ds) - Has(Segment(y, x) in ds)
  }

  /** n crossings of an edge, all of them the way that the sign says. */
  function Signed(sign: int, n: nat): (r: real) {
    if sign == 0 then 0.0 else if sign > 0 then n as real else -(n as real)
  }

  lemma NetCounts(ds: seq<Segment<nat>>, x: nat, y: nat)
    requires OneWay(ds) && x != y
    ensures SegmentFlux(ds, Indicator(x, y)) == Net(ds, x, y) as real
    ensures SegmentSides(ds, x, y) == Has(Segment(x, y) in ds) + Has(Segment(y, x) in ds)
  {
    SidesCount(ds, x, y);
  }

  lemma {:induction false} RedirectedSides(ss: seq<Segment<nat>>, ds: seq<Segment<nat>>, x: nat, y: nat)
    requires Redirected(ss, ds)
    ensures SegmentSides(ds, x, y) == SegmentSides(ss, x, y)
  {
    if ss != [] { RedirectedSides(ss[..|ss| - 1], ds[..|ds| - 1], x, y); }
  }

  lemma {:induction false} RedirectedDegree(ss: seq<Segment<nat>>, ds: seq<Segment<nat>>, v: nat)
    requires Redirected(ss, ds)
    ensures Degree(ss, v) == Out(ds, v) + In(ds, v)
  {
    if ss != [] { RedirectedDegree(ss[..|ss| - 1], ds[..|ds| - 1], v); }
  }

  // ----- One loop -----------------------------------------------------------------------------------

  lemma {:induction false} PathStep(s: seq<nat>, i: nat)
    requires i + 1 < |s|
    ensures PathSides(s, s[i], s[i + 1]) >= 1
  {
    if i + 2 < |s| { PathStep(s[..|s| - 1], i); }
  }

  lemma LoopStep(s: seq<nat>, i: nat)
    requires i < |s|
    ensures CycleSides(s, s[i], s[After(i, |s|)]) >= 1
  {
    if i + 1 < |s| { PathStep(s, i); }
  }

  /** A loop that takes no segment more often than it is there. */
  ghost predicate Within(ds: seq<Segment<nat>>, s: seq<nat>) {
    EarClip.Distinct(s) && forall x: nat, y: nat :: CycleSides(s, x, y) <= SegmentSides(ds, x, y)
  }

  lemma StepIsSegment(ds: seq<Segment<nat>>, s: seq<nat>, i: nat)
    requires OneWay(ds) && Within(ds, s) && i < |s| && |s| >= 2
    ensures s[i] != s[After(i, |s|)]
    ensures Segment(s[i], s[After(i, |s|)]) in ds || Segment(s[After(i, |s|)], s[i]) in ds
  {
    LoopStep(s, i);
    assert CycleSides(s, s[i], s[After(i, |s|)]) <= SegmentSides(ds, s[i], s[After(i, |s|)]);
    NetCounts(ds, s[i], s[After(i, |s|)]);
  }

  lemma {:induction false} GoesOn(ds: seq<Segment<nat>>, s: seq<nat>, i: nat)
    requires OneWay(ds) && Within(ds, s) && i < |s| && |s| >= 3
    ensures Segment(s[0], s[1]) in ds ==> Segment(s[i], s[After(i, |s|)]) in ds
    ensures Segment(s[1], s[0]) in ds ==> Segment(s[After(i, |s|)], s[i]) in ds
  {
    if i > 0 {
      GoesOn(ds, s, i - 1);
      StepIsSegment(ds, s, i);
      var p, v, q := s[i - 1], s[i], s[After(i, |s|)];
      if Segment(p, v) in ds && Segment(q, v) in ds { OnlyOne(ds, Segment(p, v), Segment(q, v)); }
      if Segment(v, p) in ds && Segment(v, q) in ds { OnlyOne(ds, Segment(v, p), Segment(v, q)); }
    }
  }

  /** A loop of three vertices or more runs with all of its segments or against all of them, not both. */
  lemma OneDirection(ds: seq<Segment<nat>>, s: seq<nat>)
    requires OneWay(ds) && Within(ds, s) && |s| >= 3
    ensures RunsWith(ds, s) <==> !RunsAgainst(ds, s)
  {
    StepIsSegment(ds, s, 0);
    forall i | 0 <= i < |s|
      ensures Segment(s[0], s[1]) in ds ==> Segment(s[i], s[After(i, |s|)]) in ds
      ensures Segment(s[1], s[0]) in ds ==> Segment(s[After(i, |s|)], s[i]) in ds
    {
      GoesOn(ds, s, i);
    }
    if RunsWith(ds, s) && RunsAgainst(ds, s) {
      assert Segment(s[1], s[After(1, |s|)]) in ds && Segment(s[After(0, |s|)], s[0]) in ds;
      OnlyOne(ds, Segment(s[1], s[2]), Segment(s[1], s[0]));
    }
  }

  ghost predicate Steps(s: seq<nat>, x: nat, y: nat) {
    exists i :: 0 <= i < |s| && s[i] == x && s[After(i, |s|)] == y
  }

  lemma {:induction false} PathBound(s: seq<nat>, x: nat, y: nat)
    requires x != y
    ensures -(PathSides(s, x, y) as real) <= PathFlux(s, Indicator(x, y)) <= PathSides(s, x, y) as real
    ensures (forall i :: 0 <= i && i + 1 < |s| ==> s[i] != x || s[i + 1] != y) ==>
              PathFlux(s, Indicator(x, y)) == -(PathSides(s, x, y) as real)
    ensures (forall i :: 0 <= i && i + 1 < |s| ==> s[i] != y || s[i + 1] != x) ==>
              PathFlux(s, Indicator(x, y)) == PathSides(s, x, y) as real
  {
    if |s| >= 2 {
      PathBound(s[..|s| - 1], x, y);
      assert Indicator(x, y)(s[|s| - 2], s[|s| - 1]) == Step(s[|s| - 2], s[|s| - 1], x, y) as real;
    }
  }

  lemma NoStep(s: seq<nat>, x: nat, y: nat)
    requires s != [] && !Steps(s, x, y)
    ensures (forall i :: 0 <= i && i + 1 < |s| ==> s[i] != x || s[i + 1] != y) && (s[|s| - 1] != x || s[0] != y)
  {
    assert s[After(|s| - 1, |s|)] == s[0];
    forall i | 0 <= i && i + 1 < |s| ensures s[i] != x || s[i + 1] != y {
      assert After(i, |s|) == i + 1;
    }
  }

  /** A loop crosses an edge one way or the other; without a step one way, all its crossings are the other way. */
  lemma LoopBound(s: seq<nat>, x: nat, y: nat)
    requires x != y
    ensures -(CycleSides(s, x, y) as real) <= CycleFlux(s, Indicator(x, y)) <= CycleSides(s, x, y) as real
    ensures !Steps(s, x, y) ==> CycleFlux(s, Indicator(x, y)) == -(CycleSides(s, x, y) as real)
    ensures !Steps(s, y, x) ==> CycleFlux(s, Indicator(x, y)) == CycleSides(s, x, y) as real
  {
    PathBound(s, x, y);
    if s != [] {
      assert Indicator(x, y)(s[|s| - 1], s[0]) == Step(s[|s| - 1], s[0], x, y) as real;
      if !Steps(s, x, y) { NoStep(s, x, y); }
      if !Steps(s, y, x) { NoStep(s, y, x); }
    }
  }

  /** A loop that runs with the segments never meets an edge that has them both ways. */
  lemma WithIsNet(ds: seq<Segment<nat>>, s: seq<nat>, x: nat, y: nat)
    requires OneWay(ds) && Within(ds, s) && |s| >= 3 && RunsWith(ds, s) && x != y
    ensures CycleFlux(s, Indicator(x, y)) == Signed(Net(ds, x, y), CycleSides(s, x, y))
  {
    LoopBound(s, x, y);
    if Steps(s, x, y) { StepIsNet(ds, s, x, y); }
    if Steps(s, y, x) { StepIsNet(ds, s, y, x); }
  }

  /** A step of a loop that runs with the segments has no segment the other way. */
  lemma StepIsNet(ds: seq<Segment<nat>>, s: seq<nat>, x: nat, y: nat)
    requires OneWay(ds) && EarClip.Distinct(s) && |s| >= 3 && RunsWith(ds, s) && Steps(s, x, y)
    ensures Segment(x, y) in ds && Segment(y, x) !in ds
  {
    var i :| 0 <= i < |s| && s[i] == x && s[After(i, |s|)] == y;
    var j := After(i, |s|);
    assert Segment(s[j], s[After(j, |s|)]) in ds;
    if Segment(y, x) in ds { OnlyOne(ds, Segment(y, x), Segment(s[j], s[After(j, |s|)])); }
  }

  lemma AgainstIsNet(ds: seq<Segment<nat>>, s: seq<nat>, x: nat, y: nat)
    requires OneWay(ds) && Within(ds, s) && |s| >= 3 && RunsAgainst(ds, s) && x != y
    ensures CycleFlux(s, Indicator(x, y)) == Signed(-Net(ds, x, y), CycleSides(s, x, y))
  {
    LoopBound(s, x, y);
    if Steps(s, x, y) { BackIsNet(ds, s, x, y); }
    if Steps(s, y, x) { BackIsNet(ds, s, y, x); }
  }

  lemma BackIsNet(ds: seq<Segment<nat>>, s: seq<nat>, x: nat, y: nat)
    requires OneWay(ds) && EarClip.Distinct(s) && |s| >= 3 && RunsAgainst(ds, s) && Steps(s, x, y)
    ensures Segment(y, x) in ds && Segment(x, y) !in ds
  {
    var i :| 0 <= i < |s| && s[i] == x && s[After(i, |s|)] == y;
    var h := Before(i, |s|);
    assert After(h, |s|) == i && Segment(s[After(h, |s|)], s[h]) in ds;
    if Segment(x, y) in ds { OnlyOne(ds, Segment(x, y), Segment(x, s[h])); }
  }

  // ----- Turning a loop round -----------------------------------------------------------------------

  lemma {:induction false} TurnedSides(s: seq<nat>, x: nat, y: nat)
    ensures PathSides(s, x, y) == PathSides(s, y, x) && CycleSides(s, x, y) == CycleSides(s, y, x)
  {
    if |s| >= 2 { TurnedSides(s[..|s| - 1], x, y); }
  }

  lemma {:induction false} PathSidesConcat(s: seq<nat>, t: seq<nat>, x: nat, y: nat)
    requires s != [] && t != []
    ensures PathSides(s + t, x, y) == PathSides(s, x, y) + Joins(s[|s| - 1], t[0], x, y) + PathSides(t, x, y)
    decreases |t|
  {
    assert (s + t)[..|s + t| - 1] == s + t[..|t| - 1];
    if |t| == 1 {
      assert s + t[..0] == s;
    } else {
      PathSidesConcat(s, t[..|t| - 1], x, y);
    }
  }

  lemma {:induction false} ReversedPathSides(s: seq<nat>, x: nat, y: nat)
    ensures PathSides(Reversed(s), x, y) == PathSides(s, x, y)
  {
    if |s| >= 2 {
      ReversedPathSides(s[..|s| - 1], x, y);
      PathSidesConcat([s[|s| - 1]], Reversed(s[..|s| - 1]), x, y);
    }
  }

  lemma ReversedSides(s: seq<nat>, x: nat, y: nat)
    ensures CycleSides(Reversed(s), x, y) == CycleSides(s, x, y)
  {
    ReversedPathSides(s, x, y);
  }

  lemma ReversedWithin(ds: seq<Segment<nat>>, s: seq<nat>)
    requires Within(ds, s)
    ensures Within(ds, Reversed(s))
  {
    forall x: nat, y: nat ensures CycleSides(Reversed(s), x, y) <= SegmentSides(ds, x, y) {
      ReversedSides(s, x, y);
      assert CycleSides(s, x, y) <= SegmentSides(ds, x, y);
    }
  }

  /** Mirrored, a step from i leads back. */
  lemma MirroredStep(i: nat, n: nat)
    requires i < n
    ensures After(n - 1 - After(i, n), n) == n - 1 - i
  {
  }

  /** Turned round, a loop runs with its segments where it ran against them. */
  lemma ReversedRuns(ds: seq<Segment<nat>>, s: seq<nat>)
    ensures RunsAgainst(ds, Reversed(s)) <==> RunsWith(ds, s)
  {
    var r, n := Reversed(s), |s|;
    if RunsWith(ds, s) {
      forall i | 0 <= i < n ensures Segment(r[After(i, n)], r[i]) in ds {
        MirroredStep(i, n);
        var h := n - 1 - After(i, n);
        assert Segment(s[h], s[After(h, n)]) in ds;
      }
    } else if RunsAgainst(ds, r) {
      forall i | 0 <= i < n ensures Segment(s[i], s[After(i, n)]) in ds {
        MirroredStep(i, n);
        var h := n - 1 - After(i, n);
        assert Segment(r[After(h, n)], r[h]) in ds;
      }
    }
  }

  // ----- All loops ----------------------------------------------------------------------------------

  ghost function LoopsFlux(loops: seq<seq<nat>>, w: Cochain): (r: real) {
    if loops == [] then 0.0 else LoopsFlux(loops[..|loops| - 1], w) + CycleFlux(loops[|loops| - 1], w)
  }

  /** Loops of one or two vertices have no direction; longer ones run against the segments. */
  ghost predicate Opposed(ds: seq<Segment<nat>>, loop: seq<nat>) { |loop| >= 3 ==> RunsAgainst(ds, loop) }

  lemma ShortFlux(loop: seq<nat>, w: Cochain)
    requires |loop| < 3 && Antisymmetric(w)
    ensures CycleFlux(loop, w) == 0.0
  {
    if |loop| == 1 {
      assert w(loop[0], loop[0]) == -w(loop[0], loop[0]);
    } else if |loop| == 2 {
      assert w(loop[0], loop[1]) == -w(loop[1], loop[0]);
      assert PathFlux(loop[..1], w) == 0.0;
    }
  }

  ghost function Long(loop: seq<nat>, x: nat, y: nat): (r: nat) { if |loop| < 3 then 0 else CycleSides(loop, x, y) }

  ghost function LongSides(loops: seq<seq<nat>>, x: nat, y: nat): (r: nat) {
    if loops == [] then 0 else LongSides(loops[..|loops| - 1], x, y) + Long(loops[|loops| - 1], x, y)
  }

  /** What one loop makes of an edge: with its segments when it is not opposed to them, against them when it is. */
  lemma LoopIsNet(ds: seq<Segment<nat>>, loop: seq<nat>, x: nat, y: nat)
    requires OneWay(ds) && Within(ds, loop) && x != y
    ensures CycleFlux(loop, Indicator(x, y))
         == Signed(if Opposed(ds, loop) then -Net(ds, x, y) else Net(ds, x, y), Long(loop, x, y))
  {
    if |loop| < 3 {
      ShortFlux(loop, Indicator(x, y));
    } else {
      OneDirection(ds, loop);
      if RunsWith(ds, loop) { WithIsNet(ds, loop, x, y); } else { AgainstIsNet(ds, loop, x, y); }
    }
  }

  lemma SignedAdds(sign: int, a: nat, b: nat)
    ensures Signed(sign, a + b) == Signed(sign, a) + Signed(sign, b)
  {
  }

  lemma {:induction false} OpposedLoops(ds: seq<Segment<nat>>, loops: seq<seq<nat>>, x: nat, y: nat)
    requires OneWay(ds) && x != y && forall i :: 0 <= i < |loops| ==> Within(ds, loops[i]) && Opposed(ds, loops[i])
    ensures LoopsFlux(loops, Indicator(x, y)) == Signed(-Net(ds, x, y), LongSides(loops, x, y))
  {
    if loops != [] {
      var n := |loops| - 1;
      OpposedLoops(ds, loops[..n], x, y);
      LoopIsNet(ds, loops[n], x, y);
      SignedAdds(-Net(ds, x, y), LongSides(loops[..n], x, y), Long(loops[n], x, y));
    }
  }

  /** Loops of one or two vertices cross an edge an even number of times. */
  lemma {:induction false} ShortLoopsEven(loops: seq<seq<nat>>, x: nat, y: nat) returns (half: nat)
    requires x != y
    ensures LoopSides(loops, x, y) == LongSides(loops, x, y) + 2 * half
  {
    half := 0;
    if loops != [] {
      half := ShortLoopsEven(loops[..|loops| - 1], x, y);
      var loop := loops[|loops| - 1];
      if 0 < |loop| < 3 {
        ShortLoop(loop, x, y);
        half := half + CycleSides(loop, x, y) / 2;
      }
    }
  }

  lemma NetCancels(one: nat, other: nat, long: nat, half: nat)
    requires one <= 1 && other <= 1 && one + other == long + 2 * half
    ensures (one - other) as real + Signed(other - one, long) == 0.0
  {
  }

  /** Opposed loops cancel the segments, edge by edge. */
  lemma OpposedCancel(ds: seq<Segment<nat>>, loops: seq<seq<nat>>, x: nat, y: nat)
    requires OneWay(ds) && x != y && LoopSides(loops, x, y) == SegmentSides(ds, x, y)
    requires forall i :: 0 <= i < |loops| ==> Within(ds, loops[i]) && Opposed(ds, loops[i])
    ensures SegmentFlux(ds, Indicator(x, y)) + LoopsFlux(loops, Indicator(x, y)) == 0.0
  {
    OpposedLoops(ds, loops, x, y);
    NetCounts(ds, x, y);
    var half := ShortLoopsEven(loops, x, y);
    NetCancels(Has(Segment(x, y) in ds), Has(Segment(y, x) in ds), LongSides(loops, x, y), half);
  }

  lemma {:induction false} FluxAtLeast(loops: seq<seq<nat>>, x: nat, y: nat)
    requires x != y
    ensures LoopsFlux(loops, Indicator(x, y)) >= -(LoopSides(loops, x, y) as real)
  {
    if loops != [] {
      LoopBound(loops[|loops| - 1], x, y);
      FluxAtLeast(loops[..|loops| - 1], x, y);
    }
  }

  /** Whatever the other loops do, they do not outweigh one loop by more crossings than there are. */
  lemma {:induction false} NotOutweighed(loops: seq<seq<nat>>, j: nat, x: nat, y: nat)
    requires j < |loops| && x != y
    ensures LoopsFlux(loops, Indicator(x, y))
         >= CycleFlux(loops[j], Indicator(x, y)) + CycleSides(loops[j], x, y) as real - LoopSides(loops, x, y) as real
  {
    var n := |loops| - 1;
    if j < n {
      LoopBound(loops[n], x, y);
      NotOutweighed(loops[..n], j, x, y);
    } else {
      FluxAtLeast(loops[..n], x, y);
    }
  }

  /** The first step of a loop, as its segment runs. */
  lemma FirstSegment(ds: seq<Segment<nat>>, loop: seq<nat>) returns (x: nat, y: nat)
    requires OneWay(ds) && Within(ds, loop) && |loop| >= 3
    ensures x != y && Net(ds, x, y) == 1 && CycleSides(loop, x, y) >= 1
  {
    OneDirection(ds, loop);
    LoopStep(loop, 0);
    StepIsSegment(ds, loop, 0);
    assert After(0, |loop|) == 1;
    if RunsWith(ds, loop) {
      x, y := loop[0], loop[1];
      StepIsNet(ds, loop, x, y);
    } else {
      x, y := loop[1], loop[0];
      BackIsNet(ds, loop, y, x);
      TurnedSides(loop, x, y);
    }
  }

  /** A loop that is not opposed to its segments leaves an edge uncancelled. */
  lemma WrongLoopShows(ds: seq<Segment<nat>>, loops: seq<seq<nat>>, j: nat) returns (x: nat, y: nat)
    requires OneWay(ds) && j < |loops| && Within(ds, loops[j]) && !Opposed(ds, loops[j])
    requires forall x: nat, y: nat :: LoopSides(loops, x, y) == SegmentSides(ds, x, y)
    ensures x != y && SegmentFlux(ds, Indicator(x, y)) + LoopsFlux(loops, Indicator(x, y)) > 0.0
  {
    x, y := FirstSegment(ds, loops[j]);
    NetCounts(ds, x, y);
    assert LoopSides(loops, x, y) == 1;
    LoopIsNet(ds, loops[j], x, y);
    NotOutweighed(loops, j, x, y);
  }
}
