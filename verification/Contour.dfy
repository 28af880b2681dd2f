/** Marching triangles: the segment of each triangle and level, and the contour lines collected from them. */
module Contour {
  import opened Geometry
  import opened Chains
  import opened Chunks
  import opened EdgeSums

  const MAX_INDEX := 0xFFFF_FFFF

  /** What the filter reads: one scalar for each point. */
  datatype Field = Field(points: seq<Vec3>, scalars: seq<real>, triangles: seq<Tri<nat>>, levels: seq<real>) {
    ghost predicate Valid() {
      |scalars| == |points| && forall i :: 0 <= i < |triangles| ==> Has(triangles[i])
    }

    predicate Has(t: Tri<nat>) {
      t.a < |scalars| && t.b < |scalars| && t.c < |scalars| && |scalars| == |points|
    }

    /** The level separates the ends of an edge; a value on the level counts as above it. */
    predicate Crossed(p: nat, q: nat, level: real)
      requires p < |scalars| && q < |scalars|
    {
      (scalars[p] >= level) != (scalars[q] >= level)
    }

    function Parameter(p: nat, q: nat, level: real): (r: real)
      requires p < |scalars| && q < |scalars| && Crossed(p, q, level)
    {
      (level - scalars[p]) / (scalars[q] - scalars[p])
    }

    /** Where the level meets an edge, measured from p. */
    function CrossingPoint(p: nat, q: nat, level: real): (r: Vec3)
      requires p < |scalars| == |points| && q < |scalars| && Crossed(p, q, level)
    {
      points[p].Plus(points[q].Minus(points[p]).Scale(Parameter(p, q, level)))
    }

    function Side(t: Tri<nat>, k: nat): (side: (nat, nat))
      requires Has(t) && k < 3
      ensures side.0 < |scalars| && side.1 < |scalars|
    {
      if k == 0 then (t.a, t.b) else if k == 1 then (t.b, t.c) else (t.c, t.a)
    }

    /** The crossed ones among the first n sides. */
    function SidesUpTo(t: Tri<nat>, level: real, n: nat): (sides: seq<(nat, nat)>)
      requires Has(t) && n <= 3
      ensures forall k :: 0 <= k < |sides| ==>
        sides[k].0 < |scalars| && sides[k].1 < |scalars| && Crossed(sides[k].0, sides[k].1, level)
    {
      if n == 0 then []
      else SidesUpTo(t, level, n - 1)
           + (if Crossed(Side(t, n - 1).0, Side(t, n - 1).1, level) then [Side(t, n - 1)] else [])
    }

    function CrossedSides(t: Tri<nat>, level: real): (sides: seq<(nat, nat)>)
      requires Has(t)
      ensures forall k :: 0 <= k < |sides| ==>
        sides[k].0 < |scalars| && sides[k].1 < |scalars| && Crossed(sides[k].0, sides[k].1, level)
    {
      SidesUpTo(t, level, 3)
    }

    function SegmentOf(t: Tri<nat>, level: real): (r: Segment)
      requires Has(t)
    {
      var sides := CrossedSides(t, level);
      if |sides| == 2 then
        Segment(CrossingPoint(sides[0].0, sides[0].1, level), CrossingPoint(sides[1].0, sides[1].1, level), true)
      else NO_SEGMENT
    }
  }

  datatype Segment = Segment(a: Vec3, b: Vec3, valid: bool)

  const NO_SEGMENT := Segment(ZERO, ZERO, false)

  // ----- One triangle -----------------------------------------------------------------------------------

  /** A level crosses no side of a triangle or exactly two. */
  lemma NoneOrTwo(f: Field, t: Tri<nat>, level: real)
    requires f.Has(t)
    ensures |f.CrossedSides(t, level)| == 0 || |f.CrossedSides(t, level)| == 2
  {
    assert |f.SidesUpTo(t, level, 1)| == if f.Crossed(t.a, t.b, level) then 1 else 0;
    assert |f.SidesUpTo(t, level, 2)| == |f.SidesUpTo(t, level, 1)| + if f.Crossed(t.b, t.c, level) then 1 else 0;
  }

  lemma QuotientWithin(n: real, d: real)
    requires d > 0.0 && 0.0 <= n <= d
    ensures 0.0 <= n / d <= 1.0 && Product(d, n / d) == n
  {
    assert n / d * d == n;
  }

  lemma QuotientOfNegatives(n: real, d: real)
    requires d != 0.0
    ensures n / d == -n / -d
  {
    var u, v := n / d, -n / -d;
    assert u * d == n && v * -d == -n;
    Cancel(u, v, d);
  }

  /** The crossing lies on its edge, and interpolating the scalars there gives the level exactly. */
  lemma CrossingHitsLevel(f: Field, p: nat, q: nat, level: real)
    requires p < |f.scalars| && q < |f.scalars| && f.Crossed(p, q, level)
    ensures 0.0 <= f.Parameter(p, q, level) <= 1.0
    ensures f.scalars[p] + Product(f.scalars[q] - f.scalars[p], f.Parameter(p, q, level)) == level
  {
    var n, d := level - f.scalars[p], f.scalars[q] - f.scalars[p];
    if d > 0.0 {
      QuotientWithin(n, d);
    } else {
      QuotientOfNegatives(n, d);
      QuotientWithin(-n, -d);
      Negated(d, n / d);
    }
  }

  lemma Negated(d: real, t: real)
    ensures Product(-d, t) == -Product(d, t)
  {
  }

  lemma Complement(l: real, a: real, b: real)
    requires a != b
    ensures (l - b) / (a - b) == 1.0 - (l - a) / (b - a)
  {
    var d := b - a;
    var u, v := (l - a) / d, (l - b) / -d;
    assert u * d == l - a && v * -d == l - b;
    Cancel(u + v, 1.0, d);
    assert a - b == -d;
  }

  lemma FromEitherEnd(x: real, y: real, t: real)
    ensures x + (y - x) * t == y + (x - y) * (1.0 - t)
  {
  }

  /** Two triangles that share an edge meet the level there in exactly the same point. */
  lemma CrossingIsShared(f: Field, p: nat, q: nat, level: real)
    requires p < |f.scalars| == |f.points| && q < |f.scalars| && f.Crossed(p, q, level)
    ensures f.CrossingPoint(p, q, level) == f.CrossingPoint(q, p, level)
  {
    var t := f.Parameter(p, q, level);
    Complement(level, f.scalars[p], f.scalars[q]);
    var x, y := f.points[p], f.points[q];
    FromEitherEnd(x.x, y.x, t);
    FromEitherEnd(x.y, y.y, t);
    FromEitherEnd(x.z, y.z, t);
  }

  // ----- Closed contours ----------------------------------------------------------------------------------

  /** How many segment ends a list of sides puts on the undirected edge {p, q}. */
  function EndsOn(sides: seq<(nat, nat)>, p: nat, q: nat): (r: nat) {
    if sides == [] then 0
    else EndsOn(sides[..|sides| - 1], p, q) + Joins(sides[|sides| - 1].0, sides[|sides| - 1].1, p, q)
  }

  /** How many segment ends of a level lie on the undirected edge {p, q}, over all triangles. */
  function Ends(f: Field, ts: seq<Tri<nat>>, level: real, p: nat, q: nat): (r: nat)
    requires forall i :: 0 <= i < |ts| ==> f.Has(ts[i])
  {
    if ts == [] then 0
    else Ends(f, ts[..|ts| - 1], level, p, q) + EndsOn(f.CrossedSides(ts[|ts| - 1], level), p, q)
  }

  lemma EndsOnSplit(a: seq<(nat, nat)>, b: seq<(nat, nat)>, p: nat, q: nat)
    requires |b| <= 1
    ensures EndsOn(a + b, p, q) == EndsOn(a, p, q) + EndsOn(b, p, q)
  {
    if b == [] { assert a + b == a; } else { assert (a + b)[..|a|] == a && b[..0] == []; }
  }

  lemma EndsOfTriangle(f: Field, t: Tri<nat>, level: real, p: nat, q: nat)
    requires f.Has(t) && p < |f.scalars| && q < |f.scalars|
    ensures EndsOn(f.CrossedSides(t, level), p, q) == if f.Crossed(p, q, level) then TriSides(t, p, q) else 0
  {
    var one, two := f.SidesUpTo(t, level, 1), f.SidesUpTo(t, level, 2);
    var a, b, c := EndIf(f, f.Side(t, 0), level), EndIf(f, f.Side(t, 1), level), EndIf(f, f.Side(t, 2), level);
    assert f.SidesUpTo(t, level, 0) == [] && one == [] + a;
    assert two == one + b;
    assert f.SidesUpTo(t, level, 3) == two + c;
    EndsOnSplit([], a, p, q);
    EndsOnSplit(one, b, p, q);
    EndsOnSplit(two, c, p, q);
    EndsOfSide(f, f.Side(t, 0), level, p, q);
    EndsOfSide(f, f.Side(t, 1), level, p, q);
    EndsOfSide(f, f.Side(t, 2), level, p, q);
  }

  function EndIf(f: Field, side: (nat, nat), level: real): (ends: seq<(nat, nat)>)
    requires side.0 < |f.scalars| && side.1 < |f.scalars|
    ensures |ends| <= 1
  {
    if f.Crossed(side.0, side.1, level) then [side] else []
  }

  lemma EndsOfSide(f: Field, side: (nat, nat), level: real, p: nat, q: nat)
    requires side.0 < |f.scalars| && side.1 < |f.scalars| && p < |f.scalars| && q < |f.scalars|
    ensures EndsOn(EndIf(f, side, level), p, q) == if f.Crossed(p, q, level) then Joins(side.0, side.1, p, q) else 0
  {
    assert [side][..0] == [];
  }

  /** A crossed edge carries one segment end for each triangle side it is; other edges carry none. */
  lemma {:induction false} EndsCountSides(f: Field, ts: seq<Tri<nat>>, level: real, p: nat, q: nat)
    requires (forall i :: 0 <= i < |ts| ==> f.Has(ts[i])) && p < |f.scalars| && q < |f.scalars|
    ensures Ends(f, ts, level, p, q) == if f.Crossed(p, q, level) then SideCount(ts, p, q) else 0
  {
    if ts != [] {
      EndsCountSides(f, ts[..|ts| - 1], level, p, q);
      EndsOfTriangle(f, ts[|ts| - 1], level, p, q);
    }
  }

  /** On a mesh where every side belongs to two triangles, ends of segments come in pairs on the same edge. */
  lemma ContoursClose(f: Field, level: real, p: nat, q: nat)
    requires f.Valid() && p < |f.scalars| && q < |f.scalars|
    requires SideCount(f.triangles, p, q) == 0 || SideCount(f.triangles, p, q) == 2
    ensures Ends(f, f.triangles, level, p, q) == 0 || Ends(f, f.triangles, level, p, q) == 2
    ensures Ends(f, f.triangles, level, p, q) == 2 ==>
      f.Crossed(p, q, level) && f.CrossingPoint(p, q, level) == f.CrossingPoint(q, p, level)
  {
    EndsCountSides(f, f.triangles, level, p, q);
    if f.Crossed(p, q, level) { CrossingIsShared(f, p, q, level); }
  }

  // ----- Computing segments ---------------------------------------------------------------------------------

  method ContourTriangle(f: Field, t: Tri<nat>, level: real) returns (segment: Segment)
    requires f.Has(t)
    ensures segment == f.SegmentOf(t, level)
  {
    var a, b, count := ZERO, ZERO, 0;
    var edge := 0;
    while edge < 3
      invariant 0 <= edge <= 3 && count == |f.SidesUpTo(t, level, edge)|
      invariant count >= 1 ==> a == EndPoint(f, f.SidesUpTo(t, level, edge)[0], level)
      invariant count >= 2 ==> b == EndPoint(f, f.SidesUpTo(t, level, edge)[count - 1], level)
    {
      var (p, q) := f.Side(t, edge);
      if f.Crossed(p, q, level) {
        var point := f.CrossingPoint(p, q, level);
        if count == 0 { a := point; } else { b := point; }
        count := count + 1;
      }
      edge := edge + 1;
    }
    NoneOrTwo(f, t, level);
    segment := if count == 2 then Segment(a, b, true) else NO_SEGMENT;
  }

  function EndPoint(f: Field, side: (nat, nat), level: real): (r: Vec3)
    requires side.0 < |f.scalars| == |f.points| && side.1 < |f.scalars| && f.Crossed(side.0, side.1, level)
  {
    f.CrossingPoint(side.0, side.1, level)
  }

  lemma IndexInGrid(index: nat, rows: nat, width: nat)
    requires index < rows * width
    ensures width > 0 && index / width < rows && index % width < width
    ensures index == (index / width) * width + index % width
  {
    assert width != 0;
    var row := index / width;
    assert index == row * width + index % width;
    if row >= rows { Rows(rows, row, width); }
  }

  lemma Rows(r: nat, s: nat, width: nat)
    requires r <= s
    ensures r * width <= s * width
  {
  }

  lemma GridIndex(row: nat, column: nat, rows: nat, width: nat)
    requires row < rows && column < width
    ensures row * width + column < rows * width
    ensures (row * width + column) / width == row && (row * width + column) % width == column
  {
    var index := row * width + column;
    Rows(row + 1, rows, width);
    NextRow(row, width);
    assert index == (index / width) * width + index % width;
    UniqueDivision(index / width, index % width, row, column, width);
  }

  lemma NextRow(row: nat, width: nat)
    ensures (row + 1) * width == row * width + width
  {
  }

  lemma UniqueDivision(q: nat, r: nat, q': nat, r': nat, width: nat)
    requires q * width + r == q' * width + r' && r < width && r' < width
    ensures q == q' && r == r'
  {
    if q < q' {
      NextRow(q, width);
      Rows(q + 1, q', width);
    } else if q' < q {
      NextRow(q', width);
      Rows(q' + 1, q, width);
    }
  }

  /** The slot of each index: levels outside, triangles inside. */
  function SlotOf(f: Field, index: nat): (r: Segment)
    requires f.Valid() && index < |f.levels| * |f.triangles|
  {
    IndexInGrid(index, |f.levels|, |f.triangles|);
    f.SegmentOf(f.triangles[index % |f.triangles|], f.levels[index / |f.triangles|])
  }

  method ContourRange(f: Field, segments: array<Segment>, begin: nat, end: nat)
    requires f.Valid() && segments.Length == |f.levels| * |f.triangles| && begin <= end <= segments.Length
    modifies segments
    ensures forall i: nat :: begin <= i < end ==> segments[i] == SlotOf(f, i)
    ensures forall i: nat :: i < segments.Length && !(begin <= i < end) ==> segments[i] == old(segments[i])
  {
    var index := begin;
    while index < end
      invariant begin <= index <= end
      invariant forall i: nat :: begin <= i < index ==> segments[i] == SlotOf(f, i)
      invariant forall i: nat :: i < segments.Length && !(begin <= i < index) ==> segments[i] == old(segments[i])
    {
      IndexInGrid(index, |f.levels|, |f.triangles|);
      var level, triangle := index / |f.triangles|, index % |f.triangles|;
      segments[index] := ContourTriangle(f, f.triangles[triangle], f.levels[level]);
      index := index + 1;
    }
  }

  method ContourChunks(f: Field, chunks: seq<Chunk>) returns (segments: array<Segment>)
    requires f.Valid() && Cover(chunks, |f.levels| * |f.triangles|)
    ensures fresh(segments) && segments.Length == |f.levels| * |f.triangles|
    ensures forall i: nat :: i < segments.Length ==> segments[i] == SlotOf(f, i)
  {
    segments := new Segment[|f.levels| * |f.triangles|](_ => NO_SEGMENT);
    var i := 0;
    while i < |chunks|
      invariant 0 <= i <= |chunks|
      invariant forall t: nat :: t < segments.Length && InSome(chunks[..i], t) ==> segments[t] == SlotOf(f, t)
    {
      ContourRange(f, segments, chunks[i].0, chunks[i].1);
      forall t: nat ensures InSome(chunks[..i + 1], t) <==> InSome(chunks[..i], t) || chunks[i].0 <= t < chunks[i].1 {
        InSomeNext(chunks, i, t);
      }
      i := i + 1;
    }
    assert chunks[..i] == chunks;
  }

  // ----- Collecting lines -----------------------------------------------------------------------------------

  datatype ContourLine = ContourLine(a: Vec3, b: Vec3, level: real)

  /** The lines of one level, in triangle order. */
  function LinesOf(f: Field, level: real, n: nat): (r: seq<ContourLine>)
    requires f.Valid() && n <= |f.triangles|
  {
    if n == 0 then []
    else
      var s := f.SegmentOf(f.triangles[n - 1], level);
      LinesOf(f, level, n - 1) + LineIf(s, level)
  }

  function LineIf(s: Segment, level: real): (r: seq<ContourLine>) {
    if s.valid then [ContourLine(s.a, s.b, level)] else []
  }

  /** All lines: level by level, whatever the workers did first. */
  function AllLines(f: Field, n: nat): (r: seq<ContourLine>)
    requires f.Valid() && n <= |f.levels|
  {
    if n == 0 then [] else AllLines(f, n - 1) + LinesOf(f, f.levels[n - 1], |f.triangles|)
  }

  method Collect(f: Field, segments: array<Segment>) returns (lines: seq<ContourLine>)
    requires f.Valid() && segments.Length == |f.levels| * |f.triangles|
    requires forall i: nat :: i < segments.Length ==> segments[i] == SlotOf(f, i)
    ensures lines == AllLines(f, |f.levels|)
  {
    lines := [];
    var level := 0;
    while level < |f.levels|
      invariant 0 <= level <= |f.levels| && lines == AllLines(f, level)
    {
      var more := CollectLevel(f, segments, level);
      lines := lines + more;
      level := level + 1;
    }
  }

  method CollectLevel(f: Field, segments: array<Segment>, level: nat) returns (lines: seq<ContourLine>)
    requires f.Valid() && segments.Length == |f.levels| * |f.triangles| && level < |f.levels|
    requires forall i: nat :: i < segments.Length ==> segments[i] == SlotOf(f, i)
    ensures lines == LinesOf(f, f.levels[level], |f.triangles|)
  {
    lines := [];
    var i := 0;
    while i < |f.triangles|
      invariant 0 <= i <= |f.triangles| && lines == LinesOf(f, f.levels[level], i)
    {
      GridIndex(level, i, |f.levels|, |f.triangles|);
      var index := level * |f.triangles| + i;
      assert SlotOf(f, index) == f.SegmentOf(f.triangles[i], f.levels[level]);
      var segment := segments[index];
      if segment.valid { lines := lines + [ContourLine(segment.a, segment.b, f.levels[level])]; }
      i := i + 1;
    }
  }

  // ----- Closed output ------------------------------------------------------------------------------------

  function At(p: Vec3, q: Vec3): (r: nat) { if p == q then 1 else 0 }

  /** How many line ends of a level lie at a position. */
  function EndsAt(lines: seq<ContourLine>, at: Vec3, level: real): (r: nat) {
    if lines == [] then 0
    else
      var l := lines[|lines| - 1];
      EndsAt(lines[..|lines| - 1], at, level) + if l.level == level then At(l.a, at) + At(l.b, at) else 0
  }

  lemma {:induction false} EndsAtConcat(a: seq<ContourLine>, b: seq<ContourLine>, at: Vec3, level: real)
    ensures EndsAt(a + b, at, level) == EndsAt(a, at, level) + EndsAt(b, at, level)
    decreases |b|
  {
    if b == [] {
      assert a + b == a;
    } else {
      assert (a + b)[..|a + b| - 1] == a + b[..|b| - 1];
      EndsAtConcat(a, b[..|b| - 1], at, level);
    }
  }

  /** The edges that the level meets at a position. */
  ghost function MeetsAt(f: Field, level: real, at: Vec3): (r: (nat, nat) -> bool) {
    (p: nat, q: nat) =>
      p < |f.scalars| == |f.points| && q < |f.scalars| && f.Crossed(p, q, level) && f.CrossingPoint(p, q, level) == at
  }

  /** Segment ends on those edges, by edge. */
  ghost function EndWeights(f: Field, ts: seq<Tri<nat>>, level: real, at: Vec3): (r: Weight)
    requires forall i :: 0 <= i < |ts| ==> f.Has(ts[i])
  {
    (p: nat, q: nat) => if MeetsAt(f, level, at)(p, q) then Ends(f, ts, level, p, q) else 0
  }

  ghost function SidesAt(f: Field, sides: seq<(nat, nat)>, level: real, at: Vec3): (r: Weight) {
    (p: nat, q: nat) => if MeetsAt(f, level, at)(p, q) then EndsOn(sides, p, q) else 0
  }

  ghost predicate SidesCross(f: Field, sides: seq<(nat, nat)>, level: real) {
    forall k :: 0 <= k < |sides| ==>
      sides[k].0 < |f.scalars| && sides[k].1 < |f.scalars| && f.Crossed(sides[k].0, sides[k].1, level)
  }

  /** How many of these sides meet the level at the position. */
  ghost function HitsOf(f: Field, sides: seq<(nat, nat)>, level: real, at: Vec3): (r: nat)
    requires |f.scalars| == |f.points| && SidesCross(f, sides, level)
  {
    if sides == [] then 0
    else
      var s := sides[|sides| - 1];
      HitsOf(f, sides[..|sides| - 1], level, at) + At(f.CrossingPoint(s.0, s.1, level), at)
  }

  lemma MeetsAtIsSymmetric(f: Field, level: real, at: Vec3, p: nat, q: nat)
    ensures MeetsAt(f, level, at)(p, q) == MeetsAt(f, level, at)(q, p)
  {
    if p < |f.scalars| == |f.points| && q < |f.scalars| && f.Crossed(p, q, level) { CrossingIsShared(f, p, q, level); }
  }

  /** Edge by edge the sides that meet the level at the position add up to all that do. */
  lemma {:induction false} HitsByEdge(f: Field, sides: seq<(nat, nat)>, level: real, at: Vec3)
    requires |f.scalars| == |f.points| && SidesCross(f, sides, level)
    ensures EdgeSum(SidesAt(f, sides, level, at), |f.points|) == HitsOf(f, sides, level, at)
  {
    var n := |f.points|;
    if sides == [] {
      var w := SidesAt(f, sides, level, at);
      forall p: nat, q: nat | p < q ensures w(p, q) == 0 {
        assert EndsOn(sides, p, q) == 0;
      }
      EdgeSumZero(w, n);
    } else {
      var rest, s := sides[..|sides| - 1], sides[|sides| - 1];
      var v, w := SidesAt(f, rest, level, at), SideWeight(MeetsAt(f, level, at), s.0, s.1);
      HitsByEdge(f, rest, level, at);
      var all := SidesAt(f, sides, level, at);
      forall p: nat, q: nat | p < q < n ensures all(p, q) == Added(v, w)(p, q) {
        assert EndsOn(sides, p, q) == EndsOn(rest, p, q) + Joins(s.0, s.1, p, q);
      }
      EdgeSumEqual(all, Added(v, w), n);
      EdgeSumAdded(v, w, n);
      MeetsAtIsSymmetric(f, level, at, s.0, s.1);
      SideIsCountedOnce(MeetsAt(f, level, at), s.0, s.1, n);
    }
  }

  /** The line of one triangle has its ends where its crossed sides meet the level. */
  lemma EndsOfLine(f: Field, t: Tri<nat>, level: real, at: Vec3)
    requires f.Has(t)
    ensures HitsOf(f, f.CrossedSides(t, level), level, at)
         == EndsAt(LineIf(f.SegmentOf(t, level), level), at, level)
  {
    NoneOrTwo(f, t, level);
    var sides := f.CrossedSides(t, level);
    var line := LineIf(f.SegmentOf(t, level), level);
    if |sides| == 2 {
      assert HitsOf(f, sides[..1][..0], level, at) == 0 && EndsAt(line[..0], at, level) == 0;
      assert HitsOf(f, sides[..1], level, at) == At(f.CrossingPoint(sides[0].0, sides[0].1, level), at);
    }
  }

  lemma EndWeightsAdd(f: Field, ts: seq<Tri<nat>>, level: real, at: Vec3)
    requires ts != [] && forall i :: 0 <= i < |ts| ==> f.Has(ts[i])
    ensures EdgeSum(EndWeights(f, ts, level, at), |f.points|)
         == EdgeSum(EndWeights(f, ts[..|ts| - 1], level, at), |f.points|)
          + EdgeSum(SidesAt(f, f.CrossedSides(ts[|ts| - 1], level), level, at), |f.points|)
  {
    var n, t := |ts| - 1, ts[|ts| - 1];
    var all, v := EndWeights(f, ts, level, at), EndWeights(f, ts[..n], level, at);
    var w := SidesAt(f, f.CrossedSides(t, level), level, at);
    forall p: nat, q: nat | p < q < |f.points| ensures all(p, q) == Added(v, w)(p, q) {
      assert Ends(f, ts, level, p, q) == Ends(f, ts[..n], level, p, q) + EndsOn(f.CrossedSides(t, level), p, q);
    }
    EdgeSumEqual(all, Added(v, w), |f.points|);
    EdgeSumAdded(v, w, |f.points|);
  }

  /** At every position a level has as many line ends as there are triangle sides whose edge it meets there. */
  lemma {:induction false} LineEndsAreSides(f: Field, level: real, n: nat, at: Vec3)
    requires f.Valid() && n <= |f.triangles|
    ensures EndsAt(LinesOf(f, level, n), at, level) == EdgeSum(EndWeights(f, f.triangles[..n], level, at), |f.points|)
  {
    var ts := f.triangles[..n];
    if n == 0 {
      var w := EndWeights(f, ts, level, at);
      forall p: nat, q: nat | p < q ensures w(p, q) == 0 {
        assert Ends(f, ts, level, p, q) == 0;
      }
      EdgeSumZero(w, |f.points|);
    } else {
      var t := f.triangles[n - 1];
      assert ts[..n - 1] == f.triangles[..n - 1];
      LineEndsAreSides(f, level, n - 1, at);
      EndsAtConcat(LinesOf(f, level, n - 1), LineIf(f.SegmentOf(t, level), level), at, level);
      EndsOfLine(f, t, level, at);
      HitsByEdge(f, f.CrossedSides(t, level), level, at);
      EndWeightsAdd(f, ts, level, at);
    }
  }

  lemma {:induction false} OtherLevelsEndElsewhere(f: Field, level: real, n: nat, at: Vec3, other: real)
    requires f.Valid() && n <= |f.triangles| && other != level
    ensures EndsAt(LinesOf(f, level, n), at, other) == 0
  {
    if n > 0 {
      var line := LineIf(f.SegmentOf(f.triangles[n - 1], level), level);
      OtherLevelsEndElsewhere(f, level, n - 1, at, other);
      EndsAtConcat(LinesOf(f, level, n - 1), line, at, other);
      if line != [] { assert line == [line[0]] && EndsAt(line[..0], at, other) == 0; }
    }
  }

  lemma WeightIsEven(f: Field, level: real, at: Vec3, p: nat, q: nat)
    requires f.Valid() && Closed(f.triangles) && p < q < |f.points|
    ensures EndWeights(f, f.triangles, level, at)(p, q) % 2 == 0
  {
    EndsCountSides(f, f.triangles, level, p, q);
    Chosen(MeetsAt(f, level, at)(p, q), f.Crossed(p, q, level), SideCount(f.triangles, p, q),
           EndWeights(f, f.triangles, level, at)(p, q));
  }

  lemma Chosen(meets: bool, crossed: bool, count: nat, weight: int)
    requires count % 2 == 0 && weight == if meets then (if crossed then count else 0) else 0
    ensures weight % 2 == 0
  {
  }

  /** On a closed mesh every contour closes: at every position an even number of its line ends meet. */
  lemma LevelCloses(f: Field, level: real, at: Vec3) returns (half: nat)
    requires f.Valid() && Closed(f.triangles)
    ensures EndsAt(LinesOf(f, level, |f.triangles|), at, level) == 2 * half
  {
    var w := EndWeights(f, f.triangles, level, at);
    LineEndsAreSides(f, level, |f.triangles|, at);
    assert f.triangles[..|f.triangles|] == f.triangles;
    forall p: nat, q: nat | p < q < |f.points| ensures w(p, q) % 2 == 0 {
      WeightIsEven(f, level, at, p, q);
    }
    half := EdgeSumEven(w, |f.points|);
  }

  /** What the levels' line ends are halves of. */
  ghost predicate HalvedEnds(f: Field, at: Vec3, level: real, halves: seq<nat>)
    requires f.Valid() && |halves| <= |f.levels|
  {
    forall i :: 0 <= i < |halves| ==> EndsAt(LinesOf(f, f.levels[i], |f.triangles|), at, level) == 2 * halves[i]
  }

  lemma {:induction false} LevelsClose(f: Field, n: nat, at: Vec3, level: real) returns (halves: seq<nat>)
    requires f.Valid() && Closed(f.triangles) && n <= |f.levels|
    ensures |halves| == n && HalvedEnds(f, at, level, halves)
  {
    halves := [];
    if n > 0 {
      halves := LevelsClose(f, n - 1, at, level);
      var half := NextLevelCloses(f, f.levels[n - 1], at, level);
      halves := halves + [half];
    }
  }

  lemma {:induction false} HalvesAddUp(f: Field, at: Vec3, level: real, halves: seq<nat>) returns (half: nat)
    requires f.Valid() && |halves| <= |f.levels| && HalvedEnds(f, at, level, halves)
    ensures EndsAt(AllLines(f, |halves|), at, level) == 2 * half
  {
    half := 0;
    if halves != [] {
      var n := |halves| - 1;
      half := HalvesAddUp(f, at, level, halves[..n]);
      EndsOfNextLevel(f, n + 1, at, level);
      half := half + halves[n];
    }
  }

  lemma {:induction false} EndsOfNextLevel(f: Field, n: nat, at: Vec3, level: real)
    requires f.Valid() && 0 < n <= |f.levels|
    ensures EndsAt(AllLines(f, n), at, level)
         == EndsAt(AllLines(f, n - 1), at, level) + EndsAt(LinesOf(f, f.levels[n - 1], |f.triangles|), at, level)
  {
    EndsAtConcat(AllLines(f, n - 1), LinesOf(f, f.levels[n - 1], |f.triangles|), at, level);
  }

  lemma NextLevelCloses(f: Field, next: real, at: Vec3, level: real) returns (half: nat)
    requires f.Valid() && Closed(f.triangles)
    ensures EndsAt(LinesOf(f, next, |f.triangles|), at, level) == 2 * half
  {
    if level == next {
      half := LevelCloses(f, level, at);
    } else {
      OtherLevelsEndElsewhere(f, next, |f.triangles|, at, level);
      half := 0;
    }
  }

  /** Lines as an indexed mesh: each line has its own two points, and both carry its level. */
  datatype Mesh = Mesh(points: seq<Vec3>, lines: seq<(nat, nat)>, levels: seq<real>)

  function MeshOf(lines: seq<ContourLine>): (m: Mesh)
    ensures |m.points| == |m.levels| == 2 * |lines| && |m.lines| == |lines|
  {
    if lines == [] then Mesh([], [], [])
    else
      var n := |lines| - 1;
      var m, l := MeshOf(lines[..n]), lines[n];
      Mesh(m.points + [l.a, l.b], m.lines + [(2 * n, 2 * n + 1)], m.levels + [l.level, l.level])
  }

  /** How many points of a mesh lie at a position and carry a level. */
  function CopiesAt(points: seq<Vec3>, levels: seq<real>, at: Vec3, level: real): (r: nat)
    requires |points| == |levels|
  {
    if points == [] then 0
    else
      var n := |points| - 1;
      CopiesAt(points[..n], levels[..n], at, level) + if levels[n] == level then At(points[n], at) else 0
  }

  lemma TwoMorePoints(points: seq<Vec3>, levels: seq<real>, l: ContourLine, at: Vec3, level: real)
    requires |points| == |levels|
    ensures CopiesAt(points + [l.a, l.b], levels + [l.level, l.level], at, level)
         == CopiesAt(points, levels, at, level) + if l.level == level then At(l.a, at) + At(l.b, at) else 0
  {
    var n := |points|;
    var more, moreLevels := points + [l.a, l.b], levels + [l.level, l.level];
    assert more[..n + 1] == points + [l.a] && moreLevels[..n + 1] == levels + [l.level];
    assert more[..n + 1][..n] == points && moreLevels[..n + 1][..n] == levels;
  }

  /** The points of a mesh are the ends of its lines. */
  lemma {:induction false} MeshHasLineEnds(lines: seq<ContourLine>, at: Vec3, level: real)
    ensures var m := MeshOf(lines); CopiesAt(m.points, m.levels, at, level) == EndsAt(lines, at, level)
  {
    if lines != [] {
      var n := |lines| - 1;
      var m := MeshOf(lines[..n]);
      MeshHasLineEnds(lines[..n], at, level);
      TwoMorePoints(m.points, m.levels, lines[n], at, level);
    }
  }

  /** Each line joins its own two points, which lie at its ends and carry its level. */
  lemma {:induction false} MeshJoinsLineEnds(lines: seq<ContourLine>, k: nat)
    requires k < |lines|
    ensures var m := MeshOf(lines);
            && m.lines[k] == (2 * k, 2 * k + 1)
            && m.points[2 * k] == lines[k].a && m.points[2 * k + 1] == lines[k].b
            && m.levels[2 * k] == m.levels[2 * k + 1] == lines[k].level
  {
    if k < |lines| - 1 { MeshJoinsLineEnds(lines[..|lines| - 1], k); }
  }

  /** At every position and level an even number of the mesh's points meet. */
  ghost predicate Paired(m: Mesh) {
    |m.points| == |m.levels| && forall at, level :: CopiesAt(m.points, m.levels, at, level) % 2 == 0
  }

  lemma MeshCloses(f: Field)
    requires f.Valid()
    ensures Closed(f.triangles) ==> Paired(MeshOf(AllLines(f, |f.levels|)))
  {
    if Closed(f.triangles) {
      var lines := AllLines(f, |f.levels|);
      var m := MeshOf(lines);
      forall at, level ensures CopiesAt(m.points, m.levels, at, level) % 2 == 0 {
        MeshHasLineEnds(lines, at, level);
        var halves := LevelsClose(f, |f.levels|, at, level);
        var half := HalvesAddUp(f, at, level, halves);
        Doubled(CopiesAt(m.points, m.levels, at, level), half);
      }
    }
  }

  lemma Doubled(n: nat, half: nat)
    requires n == 2 * half
    ensures n % 2 == 0
  {
  }

  /**
   * The filter: fails only when the points would not fit 32-bit indices.  The lines come level by level and, within
   * a level, in triangle order, and on a closed mesh they close.
   */
  method Execute(f: Field, chunks: seq<Chunk>) returns (r: Option<Mesh>)
    requires f.Valid() && Cover(chunks, |f.levels| * |f.triangles|)
    ensures r == if |AllLines(f, |f.levels|)| > MAX_INDEX / 2 then None else Some(MeshOf(AllLines(f, |f.levels|)))
    ensures r.Some? && Closed(f.triangles) ==> Paired(r.value)
  {
    var segments := ContourChunks(f, chunks);
    var lines := Collect(f, segments);
    MeshCloses(f);
    r := if |lines| > MAX_INDEX / 2 then None else Some(MeshOf(lines));
  }
}
