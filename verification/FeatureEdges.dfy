/** Feature edges: sort edge uses by their end points, then classify each group by its size. */
module FeatureEdges {
  import opened Geometry
  import opened Chains
  import opened EdgeKeys
  import opened Sorting

  /** One use of an undirected edge by a cell, with the cell's normal. */
  datatype Use = Use(key0: nat, key1: nat, normal: Vec3)

  datatype EdgeType = Boundary | Feature | NonManifold | Manifold

  datatype Line = Line(key0: nat, key1: nat, kind: EdgeType)

  /** The filter's switches; `angle` is the angle in degrees whose cosine is given. */
  datatype Settings = Settings(boundary: bool, feature: bool, nonManifold: bool, manifold: bool,
                               featureAngle: real, angle: real -> real)

  function UseOf(a: nat, b: nat, normal: Vec3): (r: Use) {
    if a < b then Use(a, b, normal) else Use(b, a, normal)
  }

  // ----- Collecting uses ----------------------------------------------------------------------------

  /** Normals of polygons and of strip triangles, as the geometry code computes them. */
  datatype Normals = Normals(polygon: seq<nat> -> Vec3, triangle: (nat, nat, nat) -> Vec3)

  /** The first j sides of a polygon; sides between equal ids are skipped. */
  function PolygonUses(ids: seq<nat>, j: nat, normal: Vec3): (r: seq<Use>)
    requires j <= |ids|
  {
    if j == 0 then []
    else
      var a, b := ids[j - 1], ids[j % |ids|];
      PolygonUses(ids, j - 1, normal) + (if a == b then [] else [UseOf(a, b, normal)])
  }

  /** The j-th triangle of a strip: odd ones are turned around. */
  function StripTriangle(ids: seq<nat>, j: nat): (r: Tri<nat>)
    requires j + 2 < |ids|
  {
    if j % 2 == 0 then Tri(ids[j], ids[j + 1], ids[j + 2]) else Tri(ids[j + 1], ids[j], ids[j + 2])
  }

  function StripTriangles(ids: seq<nat>, j: nat): (r: seq<Tri<nat>>)
    requires j == 0 || j + 1 < |ids|
  {
    if j == 0 then [] else StripTriangles(ids, j - 1) + [StripTriangle(ids, j - 1)]
  }

  /** The sides of the first j triangles of a strip; sides between equal ids are not skipped. */
  function StripUses(ids: seq<nat>, j: nat, normals: Normals): (r: seq<Use>)
    requires j == 0 || j + 1 < |ids|
  {
    if j == 0 then []
    else
      var t := StripTriangle(ids, j - 1);
      var n := normals.triangle(t.a, t.b, t.c);
      StripUses(ids, j - 1, normals) + [UseOf(t.a, t.b, n), UseOf(t.b, t.c, n), UseOf(t.c, t.a, n)]
  }

  function StripLength(ids: seq<nat>): (r: nat) { if |ids| < 3 then 0 else |ids| - 2 }

  function Uses(polys: seq<seq<nat>>, strips: seq<seq<nat>>, normals: Normals): (r: seq<Use>) {
    if strips != [] then
      var s := strips[|strips| - 1];
      Uses(polys, strips[..|strips| - 1], normals) + StripUses(s, StripLength(s), normals)
    else if polys != [] then
      var p := polys[|polys| - 1];
      Uses(polys[..|polys| - 1], [], normals) + PolygonUses(p, |p|, normals.polygon(p))
    else []
  }

  /** The sides of one polygon, appended. */
  method CollectPolygon(ids: seq<nat>, normal: Vec3, before: seq<Use>) returns (uses: seq<Use>)
    ensures uses == before + PolygonUses(ids, |ids|, normal)
  {
    uses := before;
    var j := 0;
    while j < |ids|
      invariant 0 <= j <= |ids| && uses == before + PolygonUses(ids, j, normal)
    {
      var a, b := ids[j], ids[(j + 1) % |ids|];
      if a != b { uses := uses + [UseOf(a, b, normal)]; }
      j := j + 1;
    }
  }

  /** The sides of the triangles of one strip, appended. */
  method CollectStrip(ids: seq<nat>, normals: Normals, before: seq<Use>) returns (uses: seq<Use>)
    ensures uses == before + StripUses(ids, StripLength(ids), normals)
  {
    uses := before;
    var j := 0;
    while j + 2 < |ids|
      invariant 0 <= j <= StripLength(ids) && uses == before + StripUses(ids, j, normals)
    {
      var t := StripTriangle(ids, j);
      var n := normals.triangle(t.a, t.b, t.c);
      uses := uses + [UseOf(t.a, t.b, n), UseOf(t.b, t.c, n), UseOf(t.c, t.a, n)];
      j := j + 1;
    }
  }

  lemma UsesOfNextPolygon(polys: seq<seq<nat>>, i: nat, normals: Normals)
    requires i < |polys|
    ensures Uses(polys[..i + 1], [], normals) ==
            Uses(polys[..i], [], normals) + PolygonUses(polys[i], |polys[i]|, normals.polygon(polys[i]))
  {
    assert polys[..i + 1][..i] == polys[..i];
  }

  lemma UsesOfNextStrip(polys: seq<seq<nat>>, strips: seq<seq<nat>>, i: nat, normals: Normals)
    requires i < |strips|
    ensures Uses(polys, strips[..i + 1], normals) ==
            Uses(polys, strips[..i], normals) + StripUses(strips[i], StripLength(strips[i]), normals)
  {
    assert strips[..i + 1][..i] == strips[..i];
  }

  method CollectUses(polys: seq<seq<nat>>, strips: seq<seq<nat>>, normals: Normals) returns (uses: seq<Use>)
    ensures uses == Uses(polys, strips, normals)
  {
    uses := [];
    var i := 0;
    assert polys[..0] == [];
    while i < |polys|
      invariant 0 <= i <= |polys| && uses == Uses(polys[..i], [], normals)
    {
      uses := CollectPolygon(polys[i], normals.polygon(polys[i]), uses);
      UsesOfNextPolygon(polys, i, normals);
      i := i + 1;
    }
    assert polys[..i] == polys && strips[..0] == [];
    i := 0;
    while i < |strips|
      invariant 0 <= i <= |strips| && uses == Uses(polys, strips[..i], normals)
    {
      uses := CollectStrip(strips[i], normals, uses);
      UsesOfNextStrip(polys, strips, i, normals);
      i := i + 1;
    }
    assert strips[..i] == strips;
  }

  // ----- Uses of one edge -----------------------------------------------------------------------------

  /** Normals of the cells that use an edge, in list order. */
  function OfEdge(uses: seq<Use>, key0: nat, key1: nat): (r: seq<Vec3>) {
    if uses == [] then []
    else
      var u := uses[|uses| - 1];
      OfEdge(uses[..|uses| - 1], key0, key1) + (if u.key0 == key0 && u.key1 == key1 then [u.normal] else [])
  }

  lemma {:induction false} OfEdgeConcat(a: seq<Use>, b: seq<Use>, key0: nat, key1: nat)
    ensures OfEdge(a + b, key0, key1) == OfEdge(a, key0, key1) + OfEdge(b, key0, key1)
  {
    if b == [] {
      assert a + b == a;
    } else {
      assert (a + b)[..|a + b| - 1] == a + b[..|b| - 1];
      OfEdgeConcat(a, b[..|b| - 1], key0, key1);
    }
  }

  lemma {:induction false} OfEdgeCounts(uses: seq<Use>, key0: nat, key1: nat, normal: Vec3)
    ensures multiset(OfEdge(uses, key0, key1))[normal] == multiset(uses)[Use(key0, key1, normal)]
  {
    if uses != [] {
      var n := |uses| - 1;
      OfEdgeCounts(uses[..n], key0, key1, normal);
      assert uses == uses[..n] + [uses[n]];
      assert multiset(uses)[Use(key0, key1, normal)] ==
             multiset(uses[..n])[Use(key0, key1, normal)] + (if uses[n] == Use(key0, key1, normal) then 1 else 0);
    }
  }

  /** Rearranging the uses only rearranges the normals of each edge. */
  lemma OfEdgeRearranged(us: seq<Use>, vs: seq<Use>, key0: nat, key1: nat)
    requires multiset(us) == multiset(vs)
    ensures multiset(OfEdge(us, key0, key1)) == multiset(OfEdge(vs, key0, key1))
  {
    forall n: Vec3
      ensures multiset(OfEdge(us, key0, key1))[n] == multiset(OfEdge(vs, key0, key1))[n]
    {
      OfEdgeCounts(us, key0, key1, n);
      OfEdgeCounts(vs, key0, key1, n);
    }
  }

  /** What the filter makes of an edge with the given cell normals. */
  function Classified(normals: seq<Vec3>, s: Settings): (r: Option<EdgeType>) {
    if |normals| == 0 then None
    else if |normals| == 1 then (if s.boundary then Some(Boundary) else None)
    else if |normals| > 2 then (if s.nonManifold then Some(NonManifold) else None)
    else if s.feature && s.angle(Clamped(normals[0].Dot(normals[1]))) > s.featureAngle then Some(Feature)
    else if s.manifold then Some(Manifold)
    else None
  }

  function Clamped(d: real): (r: real) {
    if d < -1.0 then -1.0 else if d > 1.0 then 1.0 else d
  }

  lemma DotIsSymmetric(a: Vec3, b: Vec3)
    ensures a.Dot(b) == b.Dot(a)
  {
  }

  /** The order in which an edge's cells are met does not matter. */
  lemma ClassifiedByMultiset(m: seq<Vec3>, n: seq<Vec3>, s: Settings)
    requires multiset(m) == multiset(n)
    ensures Classified(m, s) == Classified(n, s)
  {
    assert |m| == |multiset(m)| == |multiset(n)| == |n|;
    if |m| == 1 {
      assert m == [m[0]] && n == [n[0]];
    } else if |m| == 2 {
      assert m == [m[0], m[1]] && n == [n[0], n[1]];
      DotIsSymmetric(m[0], m[1]);
      assert m[0] in multiset(n) && m[1] in multiset(n) && n[0] in multiset(m) && n[1] in multiset(m);
    }
  }

  // ----- Grouping --------------------------------------------------------------------------------------

  predicate UseLeq(u: Use, v: Use) {
    u.key0 < v.key0 || (u.key0 == v.key0 && u.key1 <= v.key1)
  }

  predicate SameKey(u: Use, v: Use) { u.key0 == v.key0 && u.key1 == v.key1 }

  predicate LineBefore(l: Line, m: Line) {
    l.key0 < m.key0 || (l.key0 == m.key0 && l.key1 < m.key1)
  }

  ghost predicate StrictlyAscending(lines: seq<Line>) {
    forall i, j :: 0 <= i < j < |lines| ==> LineBefore(lines[i], lines[j])
  }

  /** An edge is used, and the filter wants a line of this kind for it. */
  ghost predicate Wanted(uses: seq<Use>, s: Settings, l: Line) {
    Classified(OfEdge(uses, l.key0, l.key1), s) == Some(l.kind)
  }

  /** The output: one line for each wanted edge, no edge twice. */
  ghost predicate IsOutput(lines: seq<Line>, uses: seq<Use>, s: Settings) {
    StrictlyAscending(lines) && forall l :: l in lines <==> Wanted(uses, s, l)
  }

  lemma Something(b: seq<Line>)
    ensures b == [] || exists l :: l in b
  {
    if b != [] { assert b[0] in b; }
  }

  lemma {:induction false} AscendingIsUnique(a: seq<Line>, b: seq<Line>)
    requires StrictlyAscending(a) && StrictlyAscending(b) && forall l :: l in a <==> l in b
    ensures a == b
    decreases |a|
  {
    if a == [] {
      Something(b);
    } else {
      assert a[|a| - 1] in b;
      assert b[|b| - 1] in a;
      var m, n := |a| - 1, |b| - 1;
      assert a[m] == b[n];
      forall l ensures l in a[..m] <==> l in b[..n] {
        assert l in a <==> l in a[..m] || l == a[m];
        assert l in b <==> l in b[..n] || l == b[n];
      }
      AscendingIsUnique(a[..m], b[..n]);
    }
  }

  /** However the sort breaks ties, the output is the same. */
  lemma OutputIgnoresTies(lines: seq<Line>, lines': seq<Line>, uses: seq<Use>, sorted: seq<Use>, sorted': seq<Use>, s: Settings)
    requires IsSortOf(sorted, uses, UseLeq) && IsSortOf(sorted', uses, UseLeq)
    requires IsOutput(lines, sorted, s) && IsOutput(lines', sorted', s)
    ensures lines == lines'
  {
    forall l ensures l in lines <==> l in lines' { WantedRearranged(sorted, sorted', s, l); }
    AscendingIsUnique(lines, lines');
  }

  lemma WantedRearranged(us: seq<Use>, vs: seq<Use>, s: Settings, l: Line)
    requires multiset(us) == multiset(vs)
    ensures Wanted(us, s, l) <==> Wanted(vs, s, l)
  {
    OfEdgeRearranged(us, vs, l.key0, l.key1);
    ClassifiedByMultiset(OfEdge(us, l.key0, l.key1), OfEdge(vs, l.key0, l.key1), s);
  }

  /** The stretch of sorted uses that share the end points of the i-th. */
  ghost predicate Group(sorted: seq<Use>, i: nat, end: nat) {
    && i < end <= |sorted| && (forall k :: i <= k < end ==> SameKey(sorted[k], sorted[i]))
    && (i > 0 ==> !SameKey(sorted[i - 1], sorted[i])) && (end < |sorted| ==> !SameKey(sorted[end], sorted[i]))
  }

  lemma GroupHoldsEdge(sorted: seq<Use>, i: nat, end: nat, k: nat)
    requires SortedBy(sorted, UseLeq) && Group(sorted, i, end) && k < |sorted|
    ensures SameKey(sorted[k], sorted[i]) <==> i <= k < end
  {
    if k < i {
      assert k < i - 1 ==> UseLeq(sorted[k], sorted[i - 1]);
      assert UseLeq(sorted[i - 1], sorted[i]);
    } else if k >= end {
      assert end < k ==> UseLeq(sorted[end], sorted[k]);
      assert UseLeq(sorted[i], sorted[end]);
    }
  }

  lemma {:induction false} OfAbsent(uses: seq<Use>, key0: nat, key1: nat)
    requires forall k :: 0 <= k < |uses| ==> !(uses[k].key0 == key0 && uses[k].key1 == key1)
    ensures OfEdge(uses, key0, key1) == []
  {
    if uses != [] { OfAbsent(uses[..|uses| - 1], key0, key1); }
  }

  lemma {:induction false} OfPresent(uses: seq<Use>, key0: nat, key1: nat)
    requires forall k :: 0 <= k < |uses| ==> uses[k].key0 == key0 && uses[k].key1 == key1
    ensures |OfEdge(uses, key0, key1)| == |uses|
    ensures forall k :: 0 <= k < |uses| ==> OfEdge(uses, key0, key1)[k] == uses[k].normal
  {
    if uses != [] { OfPresent(uses[..|uses| - 1], key0, key1); }
  }

  /** A group holds every use of its edge, in order. */
  lemma {:induction false} GroupIsEdge(sorted: seq<Use>, i: nat, end: nat)
    requires SortedBy(sorted, UseLeq) && Group(sorted, i, end)
    ensures var normals := OfEdge(sorted, sorted[i].key0, sorted[i].key1);
            |normals| == end - i && forall k :: 0 <= k < end - i ==> normals[k] == sorted[i + k].normal
  {
    var key0, key1, b := sorted[i].key0, sorted[i].key1, sorted[i..end];
    OnlyGroup(sorted, i, end);
    AroundGroup(sorted, i, end);
    OfPresent(b, key0, key1);
    forall k | 0 <= k < end - i ensures OfEdge(b, key0, key1)[k] == sorted[i + k].normal {
      assert b[k] == sorted[i + k];
    }
  }

  lemma {:induction false} OnlyGroup(sorted: seq<Use>, i: nat, end: nat)
    requires SortedBy(sorted, UseLeq) && Group(sorted, i, end)
    ensures OfEdge(sorted, sorted[i].key0, sorted[i].key1) == OfEdge(sorted[i..end], sorted[i].key0, sorted[i].key1)
  {
    var key0, key1 := sorted[i].key0, sorted[i].key1;
    AroundGroup(sorted, i, end);
    OfAbsent(sorted[..i], key0, key1);
    OfAbsent(sorted[end..], key0, key1);
    OfMiddle(sorted[..i], sorted[i..end], sorted[end..], key0, key1);
    InThree(sorted, i, end);
  }

  lemma {:induction false} AroundGroup(sorted: seq<Use>, i: nat, end: nat)
    requires SortedBy(sorted, UseLeq) && Group(sorted, i, end)
    ensures forall k :: 0 <= k < i ==> !SameKey(sorted[..i][k], sorted[i])
    ensures forall k :: 0 <= k < end - i ==> SameKey(sorted[i..end][k], sorted[i])
    ensures forall k :: 0 <= k < |sorted| - end ==> !SameKey(sorted[end..][k], sorted[i])
  {
    forall k | 0 <= k < |sorted| ensures SameKey(sorted[k], sorted[i]) <==> i <= k < end {
      GroupHoldsEdge(sorted, i, end, k);
    }
  }

  lemma InThree<T>(xs: seq<T>, i: nat, end: nat)
    requires i <= end <= |xs|
    ensures xs == xs[..i] + xs[i..end] + xs[end..]
  {
  }

  lemma {:induction false} OfMiddle(a: seq<Use>, b: seq<Use>, c: seq<Use>, key0: nat, key1: nat)
    requires OfEdge(a, key0, key1) == [] == OfEdge(c, key0, key1)
    ensures OfEdge(a + b + c, key0, key1) == OfEdge(b, key0, key1)
  {
    OfEdgeConcat(a + b, c, key0, key1);
    OfEdgeConcat(a, b, key0, key1);
  }

  ghost predicate KeyBefore(sorted: seq<Use>, i: nat, l: Line) {
    exists k :: 0 <= k < i && k < |sorted| && sorted[k].key0 == l.key0 && sorted[k].key1 == l.key1
  }

  /** The output for the groups before the i-th use. */
  ghost predicate OutputUpTo(lines: seq<Line>, sorted: seq<Use>, s: Settings, i: nat) {
    StrictlyAscending(lines) && forall l :: l in lines <==> Wanted(sorted, s, l) && KeyBefore(sorted, i, l)
  }

  lemma KeyBeforeGroupEnd(sorted: seq<Use>, i: nat, end: nat, l: Line)
    requires SortedBy(sorted, UseLeq) && Group(sorted, i, end)
    ensures KeyBefore(sorted, end, l) <==> KeyBefore(sorted, i, l) || (l.key0 == sorted[i].key0 && l.key1 == sorted[i].key1)
    ensures KeyBefore(sorted, i, l) ==> l.key0 < sorted[i].key0 || (l.key0 == sorted[i].key0 && l.key1 < sorted[i].key1)
  {
    if KeyBefore(sorted, end, l) {
      var k :| 0 <= k < end && k < |sorted| && sorted[k].key0 == l.key0 && sorted[k].key1 == l.key1;
      assert k >= i ==> SameKey(sorted[k], sorted[i]);
    }
    if KeyBefore(sorted, i, l) {
      var k :| 0 <= k < i && k < |sorted| && sorted[k].key0 == l.key0 && sorted[k].key1 == l.key1;
      GroupHoldsEdge(sorted, i, end, k);
      assert UseLeq(sorted[k], sorted[i]);
    }
  }

  lemma GroupDone(lines: seq<Line>, sorted: seq<Use>, s: Settings, i: nat, end: nat, kind: Option<EdgeType>)
    requires SortedBy(sorted, UseLeq) && Group(sorted, i, end) && OutputUpTo(lines, sorted, s, i)
    requires kind == Classified(OfEdge(sorted, sorted[i].key0, sorted[i].key1), s)
    ensures OutputUpTo(if kind.Some? then lines + [Line(sorted[i].key0, sorted[i].key1, kind.value)] else lines,
                       sorted, s, end)
  {
    var key0, key1 := sorted[i].key0, sorted[i].key1;
    var more := if kind.Some? then lines + [Line(key0, key1, kind.value)] else lines;
    forall l ensures l in more <==> Wanted(sorted, s, l) && KeyBefore(sorted, end, l) {
      KeyBeforeGroupEnd(sorted, i, end, l);
      assert l in lines <==> Wanted(sorted, s, l) && KeyBefore(sorted, i, l);
    }
    forall k | 0 <= k < |lines| && kind.Some? ensures LineBefore(lines[k], Line(key0, key1, kind.value)) {
      assert lines[k] in lines;
      KeyBeforeGroupEnd(sorted, i, end, lines[k]);
    }
  }

  lemma {:induction false} UsedOccurs(uses: seq<Use>, key0: nat, key1: nat) returns (k: nat)
    requires OfEdge(uses, key0, key1) != []
    ensures k < |uses| && uses[k].key0 == key0 && uses[k].key1 == key1
  {
    var n := |uses| - 1;
    if uses[n].key0 == key0 && uses[n].key1 == key1 { k := n; } else { k := UsedOccurs(uses[..n], key0, key1); }
  }

  lemma AllGroupsDone(lines: seq<Line>, sorted: seq<Use>, s: Settings)
    requires OutputUpTo(lines, sorted, s, |sorted|)
    ensures IsOutput(lines, sorted, s)
  {
    forall l ensures l in lines <==> Wanted(sorted, s, l) {
      if Wanted(sorted, s, l) { var k := UsedOccurs(sorted, l.key0, l.key1); }
    }
  }

  method GroupEnd(sorted: seq<Use>, i: nat) returns (end: nat)
    requires i < |sorted| && (i > 0 ==> !SameKey(sorted[i - 1], sorted[i]))
    ensures Group(sorted, i, end)
  {
    end := i + 1;
    while end < |sorted| && sorted[end].key0 == sorted[i].key0 && sorted[end].key1 == sorted[i].key1
      invariant i < end <= |sorted| && forall k :: i <= k < end ==> SameKey(sorted[k], sorted[i])
    {
      end := end + 1;
    }
  }

  /** The kind of line a group gets, if any. */
  method Kind(sorted: seq<Use>, i: nat, end: nat, s: Settings) returns (kind: Option<EdgeType>)
    requires SortedBy(sorted, UseLeq) && Group(sorted, i, end)
    ensures kind == Classified(OfEdge(sorted, sorted[i].key0, sorted[i].key1), s)
  {
    GroupIsEdge(sorted, i, end);
    if end - i == 1 {
      kind := if s.boundary then Some(Boundary) else None;
    } else if end - i > 2 {
      kind := if s.nonManifold then Some(NonManifold) else None;
    } else {
      var dot := sorted[i].normal.Dot(sorted[i + 1].normal);
      if dot < -1.0 { dot := -1.0; }
      if dot > 1.0 { dot := 1.0; }
      if s.feature && s.angle(dot) > s.featureAngle {
        kind := Some(Feature);
      } else if s.manifold {
        kind := Some(Manifold);
      } else {
        kind := None;
      }
    }
  }

  method Classify(sorted: seq<Use>, s: Settings) returns (lines: seq<Line>)
    requires SortedBy(sorted, UseLeq)
    ensures IsOutput(lines, sorted, s)
  {
    lines := [];
    var i := 0;
    while i < |sorted|
      invariant 0 <= i <= |sorted| && (0 < i < |sorted| ==> !SameKey(sorted[i - 1], sorted[i]))
      invariant OutputUpTo(lines, sorted, s, i)
    {
      var end := GroupEnd(sorted, i);
      var kind := Kind(sorted, i, end, s);
      GroupDone(lines, sorted, s, i, end, kind);
      if kind.Some? { lines := lines + [Line(sorted[i].key0, sorted[i].key1, kind.value)]; }
      i := end;
    }
    AllGroupsDone(lines, sorted, s);
  }

  // ----- Incidence counting ------------------------------------------------------------------------------

  lemma UsesAreOrdered()
    ensures TotalOrder(UseLeq)
  {
  }

  /** How often the cells run along an edge: around each polygon and over each triangle of each strip. */
  function Incidences(polys: seq<seq<nat>>, strips: seq<seq<nat>>, p: nat, q: nat): (r: nat) {
    if strips != [] then
      var s := strips[|strips| - 1];
      Incidences(polys, strips[..|strips| - 1], p, q) + SideCount(StripTriangles(s, StripLength(s)), p, q)
    else if polys != [] then
      Incidences(polys[..|polys| - 1], [], p, q) + CycleSides(polys[|polys| - 1], p, q)
    else 0
  }

  lemma OneUse(a: nat, b: nat, normal: Vec3, p: nat, q: nat)
    ensures |OfEdge([UseOf(a, b, normal)], Lower(p, q), Upper(p, q))| == Joins(a, b, p, q)
  {
    assert [UseOf(a, b, normal)][..0] == [];
  }

  lemma SmallModulo(j: nat, n: nat)
    requires j < n
    ensures j % n == j
  {
  }

  /** One more side of a polygon, before the last. */
  lemma SideUse(ids: seq<nat>, j: nat, normal: Vec3, p: nat, q: nat)
    requires 0 < j < |ids| && p != q
    ensures |OfEdge(PolygonUses(ids, j, normal), Lower(p, q), Upper(p, q))| ==
            |OfEdge(PolygonUses(ids, j - 1, normal), Lower(p, q), Upper(p, q))| + Joins(ids[j - 1], ids[j], p, q)
  {
    var a, b := ids[j - 1], ids[j];
    SmallModulo(j, |ids|);
    OfEdgeConcat(PolygonUses(ids, j - 1, normal), if a == b then [] else [UseOf(a, b, normal)], Lower(p, q), Upper(p, q));
    OneUse(a, b, normal, p, q);
  }

  lemma {:induction false} PolygonCounts(ids: seq<nat>, j: nat, normal: Vec3, p: nat, q: nat)
    requires 0 < j <= |ids| && p != q
    ensures |OfEdge(PolygonUses(ids, j - 1, normal), Lower(p, q), Upper(p, q))| == PathSides(ids[..j], p, q)
  {
    if j > 1 {
      PolygonCounts(ids, j - 1, normal, p, q);
      assert ids[..j][..j - 1] == ids[..j - 1];
      SideUse(ids, j - 1, normal, p, q);
    }
  }

  lemma PolygonIsCycle(ids: seq<nat>, normal: Vec3, p: nat, q: nat)
    requires p != q
    ensures |OfEdge(PolygonUses(ids, |ids|, normal), Lower(p, q), Upper(p, q))| == CycleSides(ids, p, q)
  {
    if ids != [] {
      var n := |ids|;
      var a, b := ids[n - 1], ids[0];
      PolygonCounts(ids, n, normal, p, q);
      assert ids[..n] == ids;
      OfEdgeConcat(PolygonUses(ids, n - 1, normal), if a == b then [] else [UseOf(a, b, normal)], Lower(p, q), Upper(p, q));
      OneUse(a, b, normal, p, q);
    }
  }

  lemma ThreeUses(t: Tri<nat>, n: Vec3, p: nat, q: nat)
    ensures |OfEdge([UseOf(t.a, t.b, n), UseOf(t.b, t.c, n), UseOf(t.c, t.a, n)], Lower(p, q), Upper(p, q))|
         == TriSides(t, p, q)
  {
    var low, high := Lower(p, q), Upper(p, q);
    var u, v, w := UseOf(t.a, t.b, n), UseOf(t.b, t.c, n), UseOf(t.c, t.a, n);
    assert [u, v, w] == [u] + [v] + [w];
    OfEdgeConcat([u] + [v], [w], low, high);
    OfEdgeConcat([u], [v], low, high);
    OneUse(t.a, t.b, n, p, q);
    OneUse(t.b, t.c, n, p, q);
    OneUse(t.c, t.a, n, p, q);
  }

  lemma {:induction false} StripCounts(ids: seq<nat>, j: nat, normals: Normals, p: nat, q: nat)
    requires j == 0 || j + 1 < |ids|
    ensures |OfEdge(StripUses(ids, j, normals), Lower(p, q), Upper(p, q))| == SideCount(StripTriangles(ids, j), p, q)
  {
    if j > 0 {
      var t := StripTriangle(ids, j - 1);
      var n := normals.triangle(t.a, t.b, t.c);
      var front, ts := StripUses(ids, j - 1, normals), StripTriangles(ids, j - 1);
      var more := [UseOf(t.a, t.b, n), UseOf(t.b, t.c, n), UseOf(t.c, t.a, n)];
      StripCounts(ids, j - 1, normals, p, q);
      assert StripUses(ids, j, normals) == front + more && StripTriangles(ids, j) == ts + [t];
      OfEdgeConcat(front, more, Lower(p, q), Upper(p, q));
      ThreeUses(t, n, p, q);
      assert (ts + [t])[..|ts|] == ts;
    }
  }

  /** The number of uses of an edge is the number of times a cell runs along it. */
  lemma {:induction false} UsesCountIncidences(polys: seq<seq<nat>>, strips: seq<seq<nat>>, normals: Normals, p: nat, q: nat)
    requires p != q
    ensures |OfEdge(Uses(polys, strips, normals), Lower(p, q), Upper(p, q))| == Incidences(polys, strips, p, q)
    decreases |strips|, |polys|
  {
    if strips != [] {
      var n := |strips| - 1;
      var s := strips[n];
      UsesCountIncidences(polys, strips[..n], normals, p, q);
      OfEdgeConcat(Uses(polys, strips[..n], normals), StripUses(s, StripLength(s), normals), Lower(p, q), Upper(p, q));
      StripCounts(s, StripLength(s), normals, p, q);
    } else if polys != [] {
      var n := |polys| - 1;
      UsesCountIncidences(polys[..n], [], normals, p, q);
      OfEdgeConcat(Uses(polys[..n], [], normals), PolygonUses(polys[n], |polys[n]|, normals.polygon(polys[n])),
                   Lower(p, q), Upper(p, q));
      PolygonIsCycle(polys[n], normals.polygon(polys[n]), p, q);
    }
  }

  /** The lines of the output, edge by edge, against incidence counting over the cells. */
  ghost predicate ByIncidence(lines: seq<Line>, polys: seq<seq<nat>>, strips: seq<seq<nat>>, s: Settings, p: nat, q: nat) {
    var n := Incidences(polys, strips, p, q);
    && (Line(p, q, Boundary) in lines <==> n == 1 && s.boundary)
    && (Line(p, q, NonManifold) in lines <==> n > 2 && s.nonManifold)
    && ((Line(p, q, Feature) in lines || Line(p, q, Manifold) in lines) ==> n == 2)
    && (n == 2 && s.manifold ==> Line(p, q, Feature) in lines || Line(p, q, Manifold) in lines)
  }

  method FeatureLines(polys: seq<seq<nat>>, strips: seq<seq<nat>>, normals: Normals, s: Settings)
    returns (lines: seq<Line>)
    ensures IsOutput(lines, Uses(polys, strips, normals), s)
    ensures forall p: nat, q: nat :: p < q ==> ByIncidence(lines, polys, strips, s, p, q)
  {
    var uses := CollectUses(polys, strips, normals);
    UsesAreOrdered();
    var sorted := Sort(uses, UseLeq);
    lines := Classify(sorted, s);
    forall l ensures Wanted(sorted, s, l) <==> Wanted(uses, s, l) { WantedRearranged(sorted, uses, s, l); }
    forall p: nat, q: nat | p < q ensures ByIncidence(lines, polys, strips, s, p, q) {
      CountDecides(lines, polys, strips, normals, s, p, q);
    }
  }

  lemma CountDecides(lines: seq<Line>, polys: seq<seq<nat>>, strips: seq<seq<nat>>, normals: Normals, s: Settings,
                     p: nat, q: nat)
    requires IsOutput(lines, Uses(polys, strips, normals), s) && p < q
    ensures ByIncidence(lines, polys, strips, s, p, q)
  {
    var uses := Uses(polys, strips, normals);
    UsesCountIncidences(polys, strips, normals, p, q);
    forall k: EdgeType ensures Line(p, q, k) in lines <==> Classified(OfEdge(uses, p, q), s) == Some(k) {
      assert Line(p, q, k) in lines <==> Wanted(uses, s, Line(p, q, k));
    }
  }
}
