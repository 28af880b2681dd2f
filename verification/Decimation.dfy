/** Decimation by vertex clustering: grid cells become points, and triangles between cells are kept once. */
module Decimation {
  import opened Geometry
  import opened Chains
  import opened Sorting
  import opened Totals

  const CELL_LIMIT := 0x20_0000

  // ----- Grid cells ---------------------------------------------------------------------------------

  datatype Cell = Cell(x: nat, y: nat, z: nat)

  datatype Grid = Grid(low: Vec3, extent: real, resolution: nat) {
    predicate Valid() { 1 <= resolution < CELL_LIMIT }

    /** The cell of a coordinate: both ends of the box are clamped into the grid. */
    function Slot(v: real, low: real): (s: nat)
      requires Valid()
      ensures s < resolution
    {
      var e := if extent > 0.0 then (v - low) / extent else 0.0;
      if e <= 0.0 then 0 else if e >= 1.0 then resolution - 1 else InsideSlot(e)
    }

    function InsideSlot(e: real): (s: nat)
      requires Valid() && 0.0 < e < 1.0
      ensures s < resolution
    {
      SlotInside(e, resolution);
      Product(e, resolution as real).Floor
    }

    function CellOf(p: Vec3): (c: Cell)
      requires Valid()
      ensures c.x < CELL_LIMIT && c.y < CELL_LIMIT && c.z < CELL_LIMIT
    {
      Cell(Slot(p.x, low.x), Slot(p.y, low.y), Slot(p.z, low.z))
    }

    function KeyOf(p: Vec3): (r: nat)
      requires Valid()
    {
      CellKey(CellOf(p))
    }
  }

  lemma SlotInside(e: real, n: nat)
    requires 0.0 < e < 1.0 && n >= 1
    ensures 0 <= Product(e, n as real).Floor < n
  {
    ProperPart(e, n as real);
    FloorWithin(Product(e, n as real), n);
  }

  lemma ProperPart(e: real, r: real)
    requires 0.0 < e < 1.0 && r > 0.0
    ensures 0.0 < Product(e, r) < r
  {
    Positive(e, r);
    Positive(1.0 - e, r);
    Parts(e, r);
  }

  lemma Positive(a: real, b: real)
    requires a > 0.0 && b > 0.0
    ensures Product(a, b) > 0.0
  {
  }

  lemma Parts(e: real, r: real)
    ensures Product(e, r) + Product(1.0 - e, r) == r
  {
  }

  lemma FloorWithin(x: real, n: nat)
    requires 0.0 <= x < n as real
    ensures 0 <= x.Floor < n
  {
  }

  /** Three 21-bit slots packed into one 63-bit key. */
  function CellKey(c: Cell): (r: nat) {
    (c.x * CELL_LIMIT + c.y) * CELL_LIMIT + c.z
  }

  lemma Digits(q: nat, r: nat, q': nat, r': nat)
    requires r < CELL_LIMIT && r' < CELL_LIMIT && q * CELL_LIMIT + r == q' * CELL_LIMIT + r'
    ensures q == q' && r == r'
  {
  }

  /** Packing loses nothing. */
  lemma CellKeyInjective(c: Cell, d: Cell)
    requires c.y < CELL_LIMIT && c.z < CELL_LIMIT && d.y < CELL_LIMIT && d.z < CELL_LIMIT
    ensures CellKey(c) == CellKey(d) <==> c == d
  {
    if CellKey(c) == CellKey(d) {
      Digits(c.x * CELL_LIMIT + c.y, c.z, d.x * CELL_LIMIT + d.y, d.z);
      Digits(c.x, c.y, d.x, d.y);
    }
  }

  /** Keys agree exactly when points share a grid cell. */
  lemma SameKeyMeansSameCell(g: Grid, p: Vec3, q: Vec3)
    requires g.Valid()
    ensures g.KeyOf(p) == g.KeyOf(q) <==> g.CellOf(p) == g.CellOf(q)
  {
    CellKeyInjective(g.CellOf(p), g.CellOf(q));
  }

  // ----- Clusters -----------------------------------------------------------------------------------

  /** How many of some points were mapped to a cluster. */
  function Members(mapping: seq<nat>, c: nat): (r: nat) {
    if mapping == [] then 0 else Members(mapping[..|mapping| - 1], c) + (if mapping[|mapping| - 1] == c then 1 else 0)
  }

  /** The sum of the points mapped to a cluster. */
  function MemberSum(points: seq<Vec3>, mapping: seq<nat>, c: nat): (r: Vec3)
    requires |mapping| <= |points|
  {
    if mapping == [] then ZERO
    else
      var n := |mapping| - 1;
      var rest := MemberSum(points, mapping[..n], c);
      if mapping[n] == c then rest.Plus(points[n]) else rest
  }

  /** The state after some points: cluster of each key, cluster of each point, and per-cluster totals. */
  datatype Clusters = Clusters(ids: map<nat, nat>, mapping: seq<nat>, sums: seq<Vec3>, counts: seq<nat>)

  /** Each key seen leads to its own cluster, and each point to the cluster of its key. */
  ghost predicate Numbered(keys: seq<nat>, ids: map<nat, nat>, mapping: seq<nat>, count: nat) {
    && |mapping| == |keys|
    && (forall k :: k in ids ==> ids[k] < count)
    && (forall k, l :: k in ids && l in ids && ids[k] == ids[l] ==> k == l)
    && forall i :: 0 <= i < |keys| ==> keys[i] in ids && mapping[i] == ids[keys[i]]
  }

  ghost predicate Totalled(points: seq<Vec3>, mapping: seq<nat>, sums: seq<Vec3>, counts: seq<nat>) {
    && |mapping| <= |points| && |sums| == |counts|
    && forall j: nat :: j < |counts| ==>
         counts[j] > 0 && counts[j] == Members(mapping, j) && sums[j] == MemberSum(points, mapping, j)
  }

  ghost predicate Clustered(points: seq<Vec3>, keys: seq<nat>, c: Clusters) {
    && Numbered(keys, c.ids, c.mapping, |c.counts|) && Totalled(points, c.mapping, c.sums, c.counts)
    && Total(c.counts) == |keys|
  }

  /** One point: its cell's cluster, opened on first use, takes it in. */
  function Join(c: Clusters, key: nat, p: Vec3): (r: Clusters)
    requires |c.sums| == |c.counts| && (key in c.ids ==> c.ids[key] < |c.counts|)
  {
    var fresh' := key !in c.ids;
    var id := if fresh' then |c.counts| else c.ids[key];
    var sums := if fresh' then c.sums + [ZERO] else c.sums;
    var counts := if fresh' then c.counts + [0] else c.counts;
    Clusters(c.ids[key := id], c.mapping + [id], sums[id := sums[id].Plus(p)], counts[id := counts[id] + 1])
  }

  lemma {:induction false} NoMembers(points: seq<Vec3>, mapping: seq<nat>, c: nat)
    requires |mapping| <= |points| && forall i :: 0 <= i < |mapping| ==> mapping[i] != c
    ensures Members(mapping, c) == 0 && MemberSum(points, mapping, c) == ZERO
  {
    if mapping != [] { NoMembers(points, mapping[..|mapping| - 1], c); }
  }

  lemma NumberedNext(keys: seq<nat>, ids: map<nat, nat>, mapping: seq<nat>, count: nat, key: nat)
    requires Numbered(keys, ids, mapping, count)
    ensures key in ids ==> Numbered(keys + [key], ids, mapping + [ids[key]], count)
    ensures key !in ids ==> Numbered(keys + [key], ids[key := count], mapping + [count], count + 1)
  {
    if key !in ids {
      var ids' := ids[key := count];
      forall k, l | k in ids' && l in ids' && ids'[k] == ids'[l] ensures k == l {
        assert k != key ==> k in ids && ids[k] < count;
        assert l != key ==> l in ids && ids[l] < count;
      }
    }
  }

  lemma MembersNext(points: seq<Vec3>, mapping: seq<nat>, id: nat, j: nat)
    requires |mapping| < |points|
    ensures Members(mapping + [id], j) == Members(mapping, j) + if id == j then 1 else 0
    ensures MemberSum(points, mapping + [id], j)
         == if id == j then MemberSum(points, mapping, j).Plus(points[|mapping|]) else MemberSum(points, mapping, j)
  {
    assert (mapping + [id])[..|mapping|] == mapping;
  }

  lemma TotalledNext(points: seq<Vec3>, mapping: seq<nat>, sums: seq<Vec3>, counts: seq<nat>, id: nat)
    requires |mapping| < |points| && |sums| == |counts| && id < |counts|
    requires forall j: nat :: j < |counts| ==>
      counts[j] == Members(mapping, j) && sums[j] == MemberSum(points, mapping, j) && (j != id ==> counts[j] > 0)
    ensures Totalled(points, mapping + [id], sums[id := sums[id].Plus(points[|mapping|])], counts[id := counts[id] + 1])
  {
    forall j: nat | j < |counts|
      ensures Members(mapping + [id], j) == Members(mapping, j) + if id == j then 1 else 0
      ensures MemberSum(points, mapping + [id], j)
           == if id == j then MemberSum(points, mapping, j).Plus(points[|mapping|]) else MemberSum(points, mapping, j)
    {
      MembersNext(points, mapping, id, j);
    }
  }

  lemma JoinKnown(points: seq<Vec3>, keys: seq<nat>, c: Clusters, key: nat)
    requires Clustered(points, keys, c) && |keys| < |points| && key in c.ids
    ensures Clustered(points, keys + [key], Join(c, key, points[|keys|]))
  {
    var id := c.ids[key];
    NumberedNext(keys, c.ids, c.mapping, |c.counts|, key);
    assert c.ids[key := id] == c.ids;
    TotalledNext(points, c.mapping, c.sums, c.counts, id);
    TotalUpdated(c.counts, id, c.counts[id] + 1);
  }

  lemma OpenedTotals(points: seq<Vec3>, keys: seq<nat>, c: Clusters)
    requires Clustered(points, keys, c)
    ensures var id := |c.counts|;
            Members(c.mapping, id) == 0 && MemberSum(points, c.mapping, id) == ZERO
  {
    forall i | 0 <= i < |keys| ensures c.mapping[i] != |c.counts| { assert keys[i] in c.ids; }
    NoMembers(points, c.mapping, |c.counts|);
  }

  lemma JoinNew(points: seq<Vec3>, keys: seq<nat>, c: Clusters, key: nat)
    requires Clustered(points, keys, c) && |keys| < |points| && key !in c.ids
    ensures Clustered(points, keys + [key], Join(c, key, points[|keys|]))
  {
    var id := |c.counts|;
    var sums, counts := c.sums + [ZERO], c.counts + [0];
    NumberedNext(keys, c.ids, c.mapping, id, key);
    OpenedTotals(points, keys, c);
    TotalledOpened(points, c.mapping, c.sums, c.counts);
    TotalAppended(c.counts, 0);
    TotalUpdated(counts, id, counts[id] + 1);
    Together(points, keys + [key], c.ids[key := id], c.mapping + [id], sums[id := sums[id].Plus(points[|c.mapping|])],
             counts[id := counts[id] + 1]);
  }

  lemma Together(points: seq<Vec3>, keys: seq<nat>, ids: map<nat, nat>, mapping: seq<nat>, sums: seq<Vec3>,
                 counts: seq<nat>)
    requires Numbered(keys, ids, mapping, |counts|) && Totalled(points, mapping, sums, counts)
    requires Total(counts) == |keys|
    ensures Clustered(points, keys, Clusters(ids, mapping, sums, counts))
  {
  }

  /** A cluster opened for the next point. */
  lemma TotalledOpened(points: seq<Vec3>, mapping: seq<nat>, sums: seq<Vec3>, counts: seq<nat>)
    requires Totalled(points, mapping, sums, counts) && |mapping| < |points|
    requires Members(mapping, |counts|) == 0 && MemberSum(points, mapping, |counts|) == ZERO
    ensures var id, sums', counts' := |counts|, sums + [ZERO], counts + [0];
            Totalled(points, mapping + [id], sums'[id := sums'[id].Plus(points[|mapping|])], counts'[id := counts'[id] + 1])
  {
    TotalledNext(points, mapping, sums + [ZERO], counts + [0], |counts|);
  }

  lemma JoinKeeps(points: seq<Vec3>, keys: seq<nat>, c: Clusters, key: nat)
    requires Clustered(points, keys, c) && |keys| < |points|
    ensures Clustered(points, keys + [key], Join(c, key, points[|keys|]))
  {
    if key in c.ids { JoinKnown(points, keys, c, key); } else { JoinNew(points, keys, c, key); }
  }

  /** Groups the points of a grid, cell by cell in order of first point. */
  method ClusterPoints(points: seq<Vec3>, g: Grid) returns (c: Clusters)
    requires g.Valid()
    ensures Clustered(points, Keys(points, g), c)
  {
    c := Clusters(map[], [], [], []);
    var i := 0;
    while i < |points|
      invariant 0 <= i <= |points| && Clustered(points, Keys(points, g)[..i], c)
    {
      JoinKeeps(points, Keys(points, g)[..i], c, g.KeyOf(points[i]));
      assert Keys(points, g)[..i + 1] == Keys(points, g)[..i] + [g.KeyOf(points[i])];
      c := Join(c, g.KeyOf(points[i]), points[i]);
      i := i + 1;
    }
    assert Keys(points, g)[..i] == Keys(points, g);
  }

  function Keys(points: seq<Vec3>, g: Grid): (ks: seq<nat>)
    requires g.Valid()
    ensures |ks| == |points|
  {
    seq(|points|, (i: nat) requires i < |points| => g.KeyOf(points[i]))
  }

  /** Two points share a cluster exactly when they share a grid cell; clusters are non-empty and partition the points. */
  lemma ClustersAreCells(points: seq<Vec3>, g: Grid, c: Clusters)
    requires g.Valid() && Clustered(points, Keys(points, g), c)
    ensures forall i, j :: 0 <= i < |points| && 0 <= j < |points| ==>
      (c.mapping[i] == c.mapping[j] <==> g.CellOf(points[i]) == g.CellOf(points[j]))
    ensures forall k: nat :: k < |c.counts| ==> Members(c.mapping, k) > 0
    ensures Total(c.counts) == |points|
  {
    forall i, j | 0 <= i < |points| && 0 <= j < |points|
      ensures c.mapping[i] == c.mapping[j] <==> g.CellOf(points[i]) == g.CellOf(points[j])
    {
      SameKeyMeansSameCell(g, points[i], points[j]);
      assert Keys(points, g)[i] in c.ids && Keys(points, g)[j] in c.ids;
    }
  }

  // ----- Triangles between clusters -----------------------------------------------------------------

  /** A triangle of cluster ids with its ids in ascending order and the input triangle it came from. */
  datatype Record = Record(a: nat, b: nat, c: nat, k0: nat, k1: nat, k2: nat, source: nat)

  function Ascending3(a: nat, b: nat, c: nat): (k: (nat, nat, nat))
    ensures k.0 <= k.1 <= k.2 && Rearranged(a, b, c, k.0, k.1, k.2)
  {
    if a <= b then (if b <= c then (a, b, c) else if a <= c then (a, c, b) else (c, a, b))
    else (if a <= c then (b, a, c) else if b <= c then (b, c, a) else (c, b, a))
  }

  /** The same three ids in some order. */
  predicate Rearranged(a: nat, b: nat, c: nat, d: nat, e: nat, f: nat) {
    || (a == d && ((b == e && c == f) || (b == f && c == e)))
    || (a == e && ((b == d && c == f) || (b == f && c == d)))
    || (a == f && ((b == d && c == e) || (b == e && c == d)))
  }

  /** Ascending ids name the unordered triple. */
  lemma AscendingIsCanonical(a: nat, b: nat, c: nat, d: nat, e: nat, f: nat)
    ensures Ascending3(a, b, c) == Ascending3(d, e, f) <==> Rearranged(a, b, c, d, e, f)
  {
  }

  method Sort3(a: nat, b: nat, c: nat) returns (k0: nat, k1: nat, k2: nat)
    ensures (k0, k1, k2) == Ascending3(a, b, c)
  {
    var x, y, z := a, b, c;
    if x > y { x, y := y, x; }
    if y > z { y, z := z, y; }
    if x > y { x, y := y, x; }
    return x, y, z;
  }

  predicate RecordLeq(r: Record, s: Record) {
    if r.k0 != s.k0 then r.k0 < s.k0
    else if r.k1 != s.k1 then r.k1 < s.k1
    else if r.k2 != s.k2 then r.k2 < s.k2
    else r.source <= s.source
  }

  predicate SameTriple(r: Record, s: Record) {
    r.k0 == s.k0 && r.k1 == s.k1 && r.k2 == s.k2
  }

  /** The record of a triangle whose corners fall in three different clusters. */
  function RecordOf(t: Tri<nat>, source: nat, mapping: seq<nat>): (r: Record)
    requires t.a < |mapping| && t.b < |mapping| && t.c < |mapping|
  {
    var a, b, c := mapping[t.a], mapping[t.b], mapping[t.c];
    var k := Ascending3(a, b, c);
    Record(a, b, c, k.0, k.1, k.2, source)
  }

  ghost predicate Survives(t: Tri<nat>, mapping: seq<nat>)
    requires t.a < |mapping| && t.b < |mapping| && t.c < |mapping|
  {
    mapping[t.a] != mapping[t.b] && mapping[t.b] != mapping[t.c] && mapping[t.c] != mapping[t.a]
  }

  ghost predicate Indexed(ts: seq<Tri<nat>>, n: nat) {
    forall i :: 0 <= i < |ts| ==> ts[i].a < n && ts[i].b < n && ts[i].c < n
  }

  ghost predicate CameFrom(r: Record, ts: seq<Tri<nat>>, mapping: seq<nat>, m: nat)
    requires m <= |ts| && Indexed(ts, |mapping|)
  {
    r.source < m && Survives(ts[r.source], mapping) && r == RecordOf(ts[r.source], r.source, mapping)
  }

  /** Exactly the records of surviving triangles before the m-th. */
  ghost predicate Collected(records: seq<Record>, ts: seq<Tri<nat>>, mapping: seq<nat>, m: nat)
    requires m <= |ts| && Indexed(ts, |mapping|)
  {
    && (forall r :: r in records ==> CameFrom(r, ts, mapping, m))
    && forall i: nat :: i < m && Survives(ts[i], mapping) ==> RecordOf(ts[i], i, mapping) in records
  }

  method CollectRecords(ts: seq<Tri<nat>>, mapping: seq<nat>) returns (records: seq<Record>)
    requires Indexed(ts, |mapping|)
    ensures Collected(records, ts, mapping, |ts|)
  {
    records := [];
    var i := 0;
    while i < |ts|
      invariant 0 <= i <= |ts| && Collected(records, ts, mapping, i)
    {
      var a, b, c := mapping[ts[i].a], mapping[ts[i].b], mapping[ts[i].c];
      if !(a == b || b == c || c == a) {
        var k0, k1, k2 := Sort3(a, b, c);
        records := records + [Record(a, b, c, k0, k1, k2, i)];
      }
      i := i + 1;
    }
  }

  // ----- Keeping each triple once ---------------------------------------------------------------------

  /** The first record of each run of equal triples. */
  function Firsts(sorted: seq<Record>): (r: seq<Record>) {
    if sorted == [] then []
    else
      var n := |sorted| - 1;
      Firsts(sorted[..n]) + (if n > 0 && SameTriple(sorted[n], sorted[n - 1]) then [] else [sorted[n]])
  }

  method KeepFirsts(sorted: seq<Record>) returns (kept: seq<Record>)
    ensures kept == Firsts(sorted)
  {
    kept := [];
    var i := 0;
    while i < |sorted|
      invariant 0 <= i <= |sorted| && kept == Firsts(sorted[..i])
    {
      assert sorted[..i + 1][..i] == sorted[..i];
      if i == 0 || !SameTriple(sorted[i], sorted[i - 1]) {
        kept := kept + [sorted[i]];
      }
      i := i + 1;
    }
    assert sorted[..i] == sorted;
  }

  lemma RecordsAreOrdered()
    ensures TotalOrder(RecordLeq)
  {
  }

  lemma {:induction false} FirstsAreMembers(sorted: seq<Record>)
    ensures forall r :: r in Firsts(sorted) ==> r in sorted
  {
    if sorted != [] { FirstsAreMembers(sorted[..|sorted| - 1]); }
  }

  /** Records of one triple are in the order of their sources. */
  lemma SourcesOrdered(r: Record, s: Record)
    requires RecordLeq(r, s) && SameTriple(r, s)
    ensures r.source <= s.source
  {
  }

  /** Every record has a kept one of its triple, with the smallest source. */
  lemma {:induction false} FirstsRepresent(sorted: seq<Record>, i: nat)
    requires SortedBy(sorted, RecordLeq) && i < |sorted|
    ensures exists r :: r in Firsts(sorted) && SameTriple(r, sorted[i]) && r.source <= sorted[i].source
    decreases |sorted|
  {
    var n := |sorted| - 1;
    var front := Firsts(sorted[..n]);
    if i < n {
      FirstsRepresent(sorted[..n], i);
      var r :| r in front && SameTriple(r, sorted[i]) && r.source <= sorted[i].source;
      assert r in Firsts(sorted);
    } else if n > 0 && SameTriple(sorted[n], sorted[n - 1]) {
      FirstsRepresent(sorted[..n], n - 1);
      var r :| r in front && SameTriple(r, sorted[n - 1]) && r.source <= sorted[n - 1].source;
      SourcesOrdered(sorted[n - 1], sorted[n]);
      assert r in Firsts(sorted);
    } else {
      assert sorted[n] in Firsts(sorted);
    }
  }

  ghost predicate Before(r: Record, s: Record) {
    RecordLeq(r, s) && !SameTriple(r, s)
  }

  /** No triple is kept twice: kept records strictly ascend, and end at or before the last record. */
  lemma {:induction false} FirstsAscend(sorted: seq<Record>)
    requires SortedBy(sorted, RecordLeq)
    ensures forall i, j :: 0 <= i < j < |Firsts(sorted)| ==> Before(Firsts(sorted)[i], Firsts(sorted)[j])
    ensures sorted != [] ==> Firsts(sorted) != []
    ensures sorted != [] ==> SameTriple(Firsts(sorted)[|Firsts(sorted)| - 1], sorted[|sorted| - 1])
  {
    if sorted != [] {
      var n := |sorted| - 1;
      var front, all := Firsts(sorted[..n]), Firsts(sorted);
      FirstsAscend(sorted[..n]);
      FirstsAreMembers(sorted[..n]);
      if !(n > 0 && SameTriple(sorted[n], sorted[n - 1])) {
        forall i | 0 <= i < |front| ensures Before(front[i], sorted[n]) {
          assert front[i] in sorted[..n];
          var k :| 0 <= k < n && sorted[k] == front[i];
          assert RecordLeq(sorted[k], sorted[n - 1]) && RecordLeq(sorted[n - 1], sorted[n]);
        }
      }
    }
  }

  // ----- The filter -----------------------------------------------------------------------------------

  datatype Mesh = Mesh(points: seq<Vec3>, triangles: seq<Tri<nat>>, sources: seq<nat>)

  function Centroids(c: Clusters): (ps: seq<Vec3>)
    requires |c.sums| == |c.counts| && forall j :: 0 <= j < |c.counts| ==> c.counts[j] > 0
    ensures |ps| == |c.counts|
  {
    seq(|c.counts|, (j: nat) requires j < |c.counts| => c.sums[j].Scale(1.0 / c.counts[j] as real))
  }

  predicate SameCorners(t: Tri<nat>, u: Tri<nat>) { Rearranged(t.a, t.b, t.c, u.a, u.b, u.c) }

  function Mapped(t: Tri<nat>, mapping: seq<nat>): (r: Tri<nat>)
    requires t.a < |mapping| && t.b < |mapping| && t.c < |mapping|
  {
    Tri(mapping[t.a], mapping[t.b], mapping[t.c])
  }

  /** Each unordered triple of distinct clusters met by a triangle appears once, from its smallest triangle. */
  ghost predicate OnceEach(m: Mesh, ts: seq<Tri<nat>>, mapping: seq<nat>)
    requires Indexed(ts, |mapping|)
  {
    && |m.sources| == |m.triangles|
    && (forall i :: 0 <= i < |m.triangles| ==> FromSource(m, ts, mapping, i))
    && (forall i, j :: 0 <= i < j < |m.triangles| ==> !SameCorners(m.triangles[i], m.triangles[j]))
    && forall s: nat :: s < |ts| && Survives(ts[s], mapping) ==> Represented(m, ts, mapping, s)
  }

  ghost predicate FromSource(m: Mesh, ts: seq<Tri<nat>>, mapping: seq<nat>, i: nat)
    requires Indexed(ts, |mapping|) && |m.sources| == |m.triangles| && i < |m.triangles|
  {
    m.sources[i] < |ts| && Survives(ts[m.sources[i]], mapping) && m.triangles[i] == Mapped(ts[m.sources[i]], mapping)
  }

  ghost predicate Represented(m: Mesh, ts: seq<Tri<nat>>, mapping: seq<nat>, s: nat)
    requires Indexed(ts, |mapping|) && |m.sources| == |m.triangles| && s < |ts|
  {
    exists i :: 0 <= i < |m.triangles| && SameCorners(m.triangles[i], Mapped(ts[s], mapping)) && m.sources[i] <= s
  }

  function Output(c: Clusters, kept: seq<Record>): (m: Mesh)
    requires |c.sums| == |c.counts| && forall j :: 0 <= j < |c.counts| ==> c.counts[j] > 0
    ensures |m.triangles| == |m.sources| == |kept|
  {
    Mesh(Centroids(c),
         seq(|kept|, (i: nat) requires i < |kept| => Tri(kept[i].a, kept[i].b, kept[i].c)),
         seq(|kept|, (i: nat) requires i < |kept| => kept[i].source))
  }

  lemma KeptIsOnceEach(c: Clusters, ts: seq<Tri<nat>>, records: seq<Record>, sorted: seq<Record>)
    requires |c.sums| == |c.counts| && forall j :: 0 <= j < |c.counts| ==> c.counts[j] > 0
    requires Indexed(ts, |c.mapping|) && Collected(records, ts, c.mapping, |ts|) && IsSortOf(sorted, records, RecordLeq)
    ensures OnceEach(Output(c, Firsts(sorted)), ts, c.mapping)
  {
    var kept := Firsts(sorted);
    var m := Output(c, kept);
    FirstsAreMembers(sorted);
    FirstsAscend(sorted);
    forall r | r in sorted ensures r in records { assert r in multiset(sorted); }
    forall i: nat | i < |kept| ensures FromSource(m, ts, c.mapping, i) {
      assert kept[i] in kept && kept[i] in records && CameFrom(kept[i], ts, c.mapping, |ts|);
    }
    forall i, j | 0 <= i < j < |kept| ensures !SameCorners(m.triangles[i], m.triangles[j]) {
      assert Before(kept[i], kept[j]) && kept[i] in records && kept[j] in records;
      DifferentTriples(kept[i], kept[j], ts, c.mapping);
    }
    forall s: nat | s < |ts| && Survives(ts[s], c.mapping) ensures Represented(m, ts, c.mapping, s) {
      SurvivorIsRepresented(c, ts, records, sorted, s);
    }
  }

  lemma DifferentTriples(r: Record, s: Record, ts: seq<Tri<nat>>, mapping: seq<nat>)
    requires Indexed(ts, |mapping|) && CameFrom(r, ts, mapping, |ts|) && CameFrom(s, ts, mapping, |ts|)
    ensures SameTriple(r, s) <==> SameCorners(Tri(r.a, r.b, r.c), Tri(s.a, s.b, s.c))
  {
    AscendingIsCanonical(r.a, r.b, r.c, s.a, s.b, s.c);
  }

  lemma SurvivorIsRepresented(c: Clusters, ts: seq<Tri<nat>>, records: seq<Record>, sorted: seq<Record>, s: nat)
    requires |c.sums| == |c.counts| && forall j :: 0 <= j < |c.counts| ==> c.counts[j] > 0
    requires Indexed(ts, |c.mapping|) && Collected(records, ts, c.mapping, |ts|) && IsSortOf(sorted, records, RecordLeq)
    requires s < |ts| && Survives(ts[s], c.mapping)
    ensures Represented(Output(c, Firsts(sorted)), ts, c.mapping, s)
  {
    var kept, r := Firsts(sorted), RecordOf(ts[s], s, c.mapping);
    var m := Output(c, kept);
    assert r in multiset(records) && r in multiset(sorted);
    var k :| 0 <= k < |sorted| && sorted[k] == r;
    FirstsRepresent(sorted, k);
    var q :| q in kept && SameTriple(q, r) && q.source <= r.source;
    var i :| 0 <= i < |kept| && kept[i] == q;
    FirstsAreMembers(sorted);
    assert q in multiset(sorted) && q in records && CameFrom(q, ts, c.mapping, |ts|) && CameFrom(r, ts, c.mapping, |ts|);
    DifferentTriples(q, r, ts, c.mapping);
    assert m.triangles[i] == Tri(q.a, q.b, q.c) && m.sources[i] == q.source;
  }

  /** The filter: refused without triangles. */
  method Decimate(points: seq<Vec3>, ts: seq<Tri<nat>>, g: Grid) returns (r: Option<Mesh>, c: Clusters)
    requires g.Valid() && Indexed(ts, |points|)
    ensures r.None? <==> ts == []
    ensures r.Some? ==> Clustered(points, Keys(points, g), c) && r.value.points == Centroids(c)
    ensures r.Some? ==> OnceEach(r.value, ts, c.mapping)
  {
    if ts == [] { return None, Clusters(map[], [], [], []); }
    c := ClusterPoints(points, g);
    var records := CollectRecords(ts, c.mapping);
    RecordsAreOrdered();
    var sorted := Sort(records, RecordLeq);
    var kept := KeepFirsts(sorted);
    KeptIsOnceEach(c, ts, records, sorted);
    r := Some(Output(c, kept));
  }
}
