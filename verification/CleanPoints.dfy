/**
 * Point merging of the clean filter: points are kept greedily, and a match is searched in the 27
 * grid cells around a point through hashed bucket chains.
 */
module CleanPoints {
  import opened Geometry

  const INT64_MIN := -0x8000_0000_0000_0000
  const INT64_MAX := 0x7FFF_FFFF_FFFF_FFFF
  const SIZE_MAX := 0xFFFF_FFFF_FFFF_FFFF

  /** Bit pattern of a float and hash of a cell; nothing is assumed about either. */
  datatype Platform = Platform(bits: real -> int, hash: (int, int, int) -> nat)

  // ----- Matching and the grid --------------------------------------------------------------

  predicate Match(a: Vec3, b: Vec3, tolerance: real) {
    if tolerance <= 0.0 then a.x == b.x && a.y == b.y && a.z == b.z
    else
      var d := a.Minus(b);
      d.x * d.x + d.y * d.y + d.z * d.z <= tolerance * tolerance
  }

  lemma MatchSymmetric(a: Vec3, b: Vec3, tolerance: real)
    ensures Match(a, b, tolerance) <==> Match(b, a, tolerance)
  {
    var d, e := a.Minus(b), b.Minus(a);
    assert d.x == -e.x && d.y == -e.y && d.z == -e.z;
    assert d.x * d.x == e.x * e.x && d.y * d.y == e.y * e.y && d.z * d.z == e.z * e.z;
  }

  lemma MatchSelf(a: Vec3, tolerance: real)
    ensures Match(a, a, tolerance)
  {
    assert tolerance * tolerance >= 0.0;
  }

  /** Grid coordinate, saturating at the ends of the 64-bit range. */
  function Quantize(value: real, tolerance: real, bits: real -> int): (r: int) {
    if tolerance <= 0.0 then bits(value)
    else Saturate((value / tolerance).Floor)
  }

  function Saturate(q: int): (r: int) {
    if q <= INT64_MIN then INT64_MIN else if q >= INT64_MAX then INT64_MAX else q
  }

  function Neighbor(value: int, delta: int): (r: int) {
    if delta < 0 && value == INT64_MIN then INT64_MIN
    else if delta > 0 && value == INT64_MAX then INT64_MAX
    else value + delta
  }

  datatype Cell = Cell(x: int, y: int, z: int)

  function CellOf(p: Vec3, tolerance: real, platform: Platform): (r: Cell) {
    Cell(Quantize(p.x, tolerance, platform.bits), Quantize(p.y, tolerance, platform.bits),
         Quantize(p.z, tolerance, platform.bits))
  }

  function Reach(tolerance: real): (r: nat) { if tolerance > 0.0 then 1 else 0 }

  function Offset(c: Cell, dx: int, dy: int, dz: int): (r: Cell) {
    Cell(Neighbor(c.x, dx), Neighbor(c.y, dy), Neighbor(c.z, dz))
  }

  /** One of the cells that are searched around `c`. */
  ghost predicate Nearby(c: Cell, d: Cell, reach: int) {
    exists dx, dy, dz :: -reach <= dx <= reach && -reach <= dy <= reach && -reach <= dz <= reach &&
                         d == Offset(c, dx, dy, dz)
  }

  lemma ScaledOrder(a: real, b: real, c: real)
    requires a < b && c > 0.0
    ensures a * c < b * c
  {
    assert (b - a) * c > 0.0;
  }

  lemma SquaresGrow(a: real, b: real)
    requires 0.0 < a < b
    ensures a * a < b * b
  {
    ScaledOrder(a, b, a);
    ScaledOrder(a, b, b);
  }

  lemma SquareOfNegative(u: real)
    ensures -u * -u == u * u
  {
  }

  lemma SquareBound(u: real, s: real, t: real)
    requires t > 0.0 && s >= 0.0 && u * u + s <= t * t
    ensures -t <= u <= t
  {
    if u > t {
      SquaresGrow(t, u);
    } else if u < -t {
      SquareOfNegative(u);
      SquaresGrow(t, -u);
    }
  }

  lemma DivideMonotone(u: real, w: real, t: real)
    requires t > 0.0 && u <= w
    ensures u / t <= w / t
  {
  }

  lemma DividePlus(v: real, t: real)
    requires t > 0.0
    ensures (v + t) / t == v / t + 1.0
  {
    var q, p := v / t, (v + t) / t;
    assert q * t == v && p * t == v + t;
    assert (q + 1.0) * t == q * t + t;
    Cancel(p, q + 1.0, t);
  }

  lemma DivideBound(u: real, v: real, t: real)
    requires t > 0.0 && -t <= u - v <= t
    ensures -1.0 <= u / t - v / t <= 1.0
  {
    DivideMonotone(u, v + t, t);
    DividePlus(v, t);
    DivideMonotone(v, u + t, t);
    DividePlus(u, t);
  }

  /** Coordinates at most one tolerance apart are in the same or in adjacent cells, also when saturated. */
  lemma QuantizeNeighbor(u: real, v: real, t: real, bits: real -> int) returns (d: int)
    requires t > 0.0 && -t <= u - v <= t
    ensures -1 <= d <= 1 && Quantize(v, t, bits) == Neighbor(Quantize(u, t, bits), d)
  {
    DivideBound(u, v, t);
    d := Quantize(v, t, bits) - Quantize(u, t, bits);
  }

  lemma AxisBounds(a: Vec3, b: Vec3, t: real)
    requires t > 0.0 && Match(a, b, t)
    ensures -t <= a.x - b.x <= t && -t <= a.y - b.y <= t && -t <= a.z - b.z <= t
  {
    var x, y, z := a.x - b.x, a.y - b.y, a.z - b.z;
    var xx, yy, zz := x * x, y * y, z * z;
    assert xx >= 0.0 && yy >= 0.0 && zz >= 0.0;
    SquareBound(x, yy + zz, t);
    SquareBound(y, xx + zz, t);
    SquareBound(z, xx + yy, t);
  }

  /** Matching points are in nearby cells. */
  lemma MatchIsNearby(a: Vec3, b: Vec3, tolerance: real, platform: Platform)
    requires Match(a, b, tolerance)
    ensures Nearby(CellOf(a, tolerance, platform), CellOf(b, tolerance, platform), Reach(tolerance))
  {
    var c, d := CellOf(a, tolerance, platform), CellOf(b, tolerance, platform);
    if tolerance <= 0.0 {
      assert d == Offset(c, 0, 0, 0);
    } else {
      AxisBounds(a, b, tolerance);
      var dx := QuantizeNeighbor(a.x, b.x, tolerance, platform.bits);
      var dy := QuantizeNeighbor(a.y, b.y, tolerance, platform.bits);
      var dz := QuantizeNeighbor(a.z, b.z, tolerance, platform.bits);
      assert d == Offset(c, dx, dy, dz);
    }
  }

  // ----- What cleaning means ----------------------------------------------------------------

  ghost predicate HasMatch(kept: seq<Vec3>, p: Vec3, tolerance: real) {
    exists k :: 0 <= k < |kept| && Match(p, kept[k], tolerance)
  }

  /** The points kept by comparing every point with all points kept before it. */
  ghost function Greedy(points: seq<Vec3>, tolerance: real): (r: seq<Vec3>) {
    if points == [] then []
    else
      var kept, p := Greedy(points[..|points| - 1], tolerance), points[|points| - 1];
      if HasMatch(kept, p, tolerance) then kept else kept + [p]
  }

  ghost predicate Separated(kept: seq<Vec3>, tolerance: real) {
    forall i, j :: 0 <= i < j < |kept| ==> !Match(kept[j], kept[i], tolerance)
  }

  /** Kept points are pairwise farther apart than the tolerance. */
  lemma {:induction false} GreedySeparated(points: seq<Vec3>, tolerance: real)
    ensures Separated(Greedy(points, tolerance), tolerance)
  {
    if points != [] {
      GreedySeparated(points[..|points| - 1], tolerance);
    }
  }

  /** A separated list is kept as it is. */
  lemma {:induction false} SeparatedIsKept(points: seq<Vec3>, tolerance: real)
    requires Separated(points, tolerance)
    ensures Greedy(points, tolerance) == points
  {
    if points != [] {
      SeparatedIsKept(points[..|points| - 1], tolerance);
    }
  }

  /** Cleaning the result of cleaning changes nothing. */
  lemma GreedyIdempotent(points: seq<Vec3>, tolerance: real)
    ensures Greedy(Greedy(points, tolerance), tolerance) == Greedy(points, tolerance)
  {
    GreedySeparated(points, tolerance);
    SeparatedIsKept(Greedy(points, tolerance), tolerance);
  }

  // ----- Buckets ----------------------------------------------------------------------------

  predicate PowerOfTwo(n: nat) {
    n == 1 || (n > 1 && n % 2 == 0 && PowerOfTwo(n / 2))
  }

  /** At least 16 buckets and twice the point count, as far as the size type reaches. */
  method BucketCount(pointCount: nat) returns (buckets: nat)
    requires pointCount <= SIZE_MAX
    ensures PowerOfTwo(buckets) && 16 <= buckets <= SIZE_MAX
    ensures buckets >= 2 * pointCount || buckets > SIZE_MAX / 2
  {
    buckets := 16;
    var target := if pointCount > SIZE_MAX / 2 then SIZE_MAX else pointCount * 2;
    while buckets < target && buckets <= SIZE_MAX / 2
      invariant PowerOfTwo(buckets) && 16 <= buckets <= SIZE_MAX
      decreases SIZE_MAX - buckets
    {
      buckets := buckets * 2;
    }
  }

  datatype Node = Node(cell: Cell, newId: nat, sourceId: nat, next: Option<nat>)

  /** The input points that the kept points were. */
  function Sources(nodes: seq<Node>): (sources: seq<nat>)
    ensures |sources| == |nodes|
  {
    seq(|nodes|, k requires 0 <= k < |nodes| => nodes[k].sourceId)
  }

  /** Every kept point is the input point recorded as its source. */
  ghost predicate KeptFrom(kept: seq<Vec3>, sources: seq<nat>, points: seq<Vec3>) {
    && |sources| == |kept|
    && forall k :: 0 <= k < |kept| ==> sources[k] < |points| && kept[k] == points[sources[k]]
  }

  /** Links of a chain lead to older nodes. */
  ghost predicate Linked(nodes: seq<Node>) {
    forall k :: 0 <= k < |nodes| && nodes[k].next.Some? ==> nodes[k].next.value < k
  }

  /** Node k is on the chain that starts at `head`. */
  ghost predicate OnChain(nodes: seq<Node>, head: Option<nat>, k: nat)
    requires Linked(nodes) && (head.Some? ==> head.value < |nodes|)
    decreases if head.Some? then head.value + 1 else 0
  {
    head.Some? && (head.value == k || OnChain(nodes, nodes[head.value].next, k))
  }

  /** Adding a node leaves the older chains as they are. */
  lemma {:induction false} ChainStable(nodes: seq<Node>, node: Node, head: Option<nat>, k: nat)
    requires Linked(nodes + [node]) && Linked(nodes) && (head.Some? ==> head.value < |nodes|)
    ensures OnChain(nodes + [node], head, k) == OnChain(nodes, head, k)
    decreases if head.Some? then head.value + 1 else 0
  {
    if head.Some? {
      ChainStable(nodes, node, nodes[head.value].next, k);
    }
  }

  function Bucket(c: Cell, buckets: nat, platform: Platform): (b: nat)
    requires buckets > 0
    ensures b < buckets
  {
    platform.hash(c.x, c.y, c.z) % buckets
  }

  /** An offset of the block that the nested search loops visit before (x, y, z). */
  ghost predicate Before(reach: int, dx: int, dy: int, dz: int, x: int, y: int, z: int) {
    && -reach <= dx <= reach && -reach <= dy <= reach && -reach <= dz <= reach
    && (dz < z || (dz == z && (dy < y || (dy == y && dx < x))))
  }

  class PointMerger {
    const tolerance: real
    const platform: Platform
    const heads: array<Option<nat>>
    var nodes: seq<Node>
    var kept: seq<Vec3>

    /** Node k stands for kept point k and is on the chain of its cell's bucket. */
    ghost predicate Valid()
      reads this, heads
    {
      && heads.Length > 0 && |nodes| == |kept| && Linked(nodes)
      && (forall b :: 0 <= b < heads.Length && heads[b].Some? ==> heads[b].value < |nodes|)
      && (forall k :: 0 <= k < |nodes| ==> nodes[k].newId == k && nodes[k].cell == CellOf(kept[k], tolerance, platform))
      && (forall k :: 0 <= k < |nodes| ==> OnChain(nodes, heads[Bucket(nodes[k].cell, heads.Length, platform)], k))
    }

    constructor (tolerance: real, platform: Platform, buckets: nat)
      requires buckets > 0
      ensures Valid() && fresh(heads) && kept == [] && this.tolerance == tolerance && this.platform == platform
    {
      this.tolerance, this.platform := tolerance, platform;
      heads := new Option<nat>[buckets](_ => None);
      nodes, kept := [], [];
    }

    /** Walks one bucket chain for a matching point of one cell. */
    method SearchChain(point: Vec3, cell: Cell) returns (match': Option<nat>)
      requires Valid()
      ensures match'.Some? ==> match'.value < |kept| && Match(point, kept[match'.value], tolerance)
      ensures match'.None? ==> forall k :: 0 <= k < |kept| && nodes[k].cell == cell ==> !Match(point, kept[k], tolerance)
    {
      var start: Option<nat> := heads[Bucket(cell, heads.Length, platform)];
      var nodeId: Option<nat> := start;
      while nodeId.Some?
        invariant nodeId.Some? ==> nodeId.value < |nodes|
        invariant forall k :: 0 <= k < |nodes| && OnChain(nodes, start, k) ==>
                    OnChain(nodes, nodeId, k) || nodes[k].cell != cell || !Match(point, kept[k], tolerance)
        decreases if nodeId.Some? then nodeId.value + 1 else 0
      {
        var node := nodes[nodeId.value];
        if node.cell == cell && Match(point, kept[node.newId], tolerance) {
          return Some(node.newId);
        }
        nodeId := node.next;
      }
      match' := None;
    }
  
    /** Cells of the search block that come before offset (dx, dy, dz) hold no match. */
    ghost predicate Searched(point: Vec3, around: Cell, reach: int, x: int, y: int, z: int)
      requires Valid()
      reads this, heads
    {
      forall dx, dy, dz, k | Before(reach, dx, dy, dz, x, y, z) && 0 <= k < |kept| ::
        nodes[k].cell == Offset(around, dx, dy, dz) ==> !Match(point, kept[k], tolerance)
    }

    /** Searches the block of cells around a point until a match is found. */
    method SearchBlock(point: Vec3) returns (match': Option<nat>)
      requires Valid()
      ensures match'.Some? ==> match'.value < |kept| && Match(point, kept[match'.value], tolerance)
      ensures match'.None? ==> !HasMatch(kept, point, tolerance)
    {
      var around := CellOf(point, tolerance, platform);
      var reach: int := Reach(tolerance);
      match' := None;
      var dz := -reach;
      while dz <= reach && match' == None
        invariant -reach <= dz <= reach + 1
        invariant match'.Some? ==> match'.value < |kept| && Match(point, kept[match'.value], tolerance)
        invariant match'.None? ==> Searched(point, around, reach, -reach, -reach, dz)
      {
        var dy := -reach;
        while dy <= reach && match' == None
          invariant -reach <= dy <= reach + 1
          invariant match'.Some? ==> match'.value < |kept| && Match(point, kept[match'.value], tolerance)
          invariant match'.None? ==> Searched(point, around, reach, -reach, dy, dz)
        {
          var dx := -reach;
          while dx <= reach && match' == None
            invariant -reach <= dx <= reach + 1
            invariant match'.Some? ==> match'.value < |kept| && Match(point, kept[match'.value], tolerance)
            invariant match'.None? ==> Searched(point, around, reach, dx, dy, dz)
          {
            match' := SearchChain(point, Offset(around, dx, dy, dz));
            dx := dx + 1;
          }
          dy := dy + 1;
        }
        dz := dz + 1;
      }
      if match' == None {
        NothingNearby(point, around, reach);
      }
    }

    /** A block without matches means no kept point matches at all. */
    lemma NothingNearby(point: Vec3, around: Cell, reach: int)
      requires Valid() && around == CellOf(point, tolerance, platform) && reach == Reach(tolerance)
      requires Searched(point, around, reach, -reach, -reach, reach + 1)
      ensures !HasMatch(kept, point, tolerance)
    {
      forall k | 0 <= k < |kept|
        ensures !Match(point, kept[k], tolerance)
      {
        if Match(point, kept[k], tolerance) {
          MatchIsNearby(point, kept[k], tolerance, platform);
        }
      }
    }

    /** Keeps a point: a new node at the head of its bucket. */
    method Insert(point: Vec3, sourceId: nat) returns (newId: nat)
      requires Valid()
      modifies this, heads
      ensures Valid() && newId == |old(kept)| && kept == old(kept) + [point]
      ensures Sources(nodes) == Sources(old(nodes)) + [sourceId]
    {
      var cell := CellOf(point, tolerance, platform);
      var bucket := Bucket(cell, heads.Length, platform);
      newId := |kept|;
      kept := kept + [point];
      ghost var before := nodes;
      var node := Node(cell, newId, sourceId, heads[bucket]);
      nodes := nodes + [node];
      heads[bucket] := Some(|nodes| - 1);
      forall k | 0 <= k < |nodes|
        ensures OnChain(nodes, heads[Bucket(nodes[k].cell, heads.Length, platform)], k)
      {
        if k < |before| {
          ChainStable(before, node, old(heads[Bucket(before[k].cell, heads.Length, platform)]), k);
        }
      }
    }

    /** The loop body: reuse a matching point, or keep this one. */
    method MergePoint(point: Vec3, sourceId: nat) returns (id: nat)
      requires Valid()
      modifies this, heads
      ensures Valid()
      ensures kept == if HasMatch(old(kept), point, tolerance) then old(kept) else old(kept) + [point]
      ensures id < |kept| && Match(point, kept[id], tolerance)
      ensures Sources(nodes) == if kept == old(kept) then Sources(old(nodes)) else Sources(old(nodes)) + [sourceId]
    {
      var match' := SearchBlock(point);
      if match' == None {
        id := Insert(point, sourceId);
        MatchSelf(point, tolerance);
      } else {
        id := match'.value;
      }
    }
  }

  /** The first |ids| points are mapped to kept points that match them. */
  ghost predicate Mapped(points: seq<Vec3>, kept: seq<Vec3>, ids: seq<nat>, tolerance: real) {
    && |ids| <= |points|
    && forall i :: 0 <= i < |ids| ==> ids[i] < |kept| && Match(points[i], kept[ids[i]], tolerance)
  }

  /** State of the merge loop after the first |ids| points. */
  ghost predicate Merging(points: seq<Vec3>, kept: seq<Vec3>, sources: seq<nat>, ids: seq<nat>, tolerance: real) {
    && Mapped(points, kept, ids, tolerance)
    && kept == Greedy(points[..|ids|], tolerance)
    && KeptFrom(kept, sources, points)
  }

  lemma MappedNext(points: seq<Vec3>, kept: seq<Vec3>, kept': seq<Vec3>, ids: seq<nat>, id: nat, tolerance: real)
    requires Mapped(points, kept, ids, tolerance) && kept <= kept' && |ids| < |points| && id < |kept'|
    requires Match(points[|ids|], kept'[id], tolerance)
    ensures Mapped(points, kept', ids + [id], tolerance)
  {
    var more := ids + [id];
    forall i | 0 <= i < |more| ensures more[i] < |kept'| && Match(points[i], kept'[more[i]], tolerance) {
      if i < |ids| { assert more[i] == ids[i] && kept'[ids[i]] == kept[ids[i]]; }
    }
  }

  lemma GreedyNext(points: seq<Vec3>, n: nat, tolerance: real)
    requires n < |points|
    ensures var kept := Greedy(points[..n], tolerance);
            Greedy(points[..n + 1], tolerance) == if HasMatch(kept, points[n], tolerance) then kept else kept + [points[n]]
  {
    assert points[..n + 1][..n] == points[..n];
  }

  lemma KeptNext(kept: seq<Vec3>, sources: seq<nat>, points: seq<Vec3>, n: nat)
    requires KeptFrom(kept, sources, points) && n < |points|
    ensures KeptFrom(kept + [points[n]], sources + [n], points) && kept + [points[n]] != kept
  {
    assert |kept + [points[n]]| == |kept| + 1;
  }

  /** The parts of the new state, each of which has been shown. */
  lemma MergingFrom(points: seq<Vec3>, kept: seq<Vec3>, sources: seq<nat>, ids: seq<nat>, id: nat, tolerance: real)
    requires |ids| < |points| && Mapped(points, kept, ids + [id], tolerance) && KeptFrom(kept, sources, points)
    requires kept == Greedy(points[..|ids| + 1], tolerance)
    ensures Merging(points, kept, sources, ids + [id], tolerance)
  {
    assert |ids + [id]| == |ids| + 1;
  }

  lemma MergingNext(points: seq<Vec3>, kept: seq<Vec3>, sources: seq<nat>, ids: seq<nat>, tolerance: real,
                    kept': seq<Vec3>, sources': seq<nat>, id: nat)
    requires Merging(points, kept, sources, ids, tolerance) && |ids| < |points|
    requires var p := points[|ids|];
             && kept' == (if HasMatch(kept, p, tolerance) then kept else kept + [p])
             && id < |kept'| && Match(p, kept'[id], tolerance)
    requires sources' == if kept' == kept then sources else sources + [|ids|]
    ensures Merging(points, kept', sources', ids + [id], tolerance)
  {
    KeptNext(kept, sources, points, |ids|);
    GreedyNext(points, |ids|, tolerance);
    MappedNext(points, kept, kept', ids, id, tolerance);
    MergingFrom(points, kept', sources', ids, id, tolerance);
  }

  /** The loop body: map point `oldId` to a kept point. */
  method MapPoint(merger: PointMerger, points: seq<Vec3>, oldId: nat, pointMap: array<nat>)
    requires merger.Valid() && oldId < |points| == pointMap.Length
    requires Merging(points, merger.kept, Sources(merger.nodes), pointMap[..oldId], merger.tolerance)
    modifies merger, merger.heads, pointMap
    ensures merger.Valid()
    ensures Merging(points, merger.kept, Sources(merger.nodes), pointMap[..oldId + 1], merger.tolerance)
  {
    ghost var kept, sources, ids := merger.kept, Sources(merger.nodes), pointMap[..oldId];
    var id := merger.MergePoint(points[oldId], oldId);
    pointMap[oldId] := id;
    assert pointMap[..oldId + 1] == ids + [id];
    MergingNext(points, kept, sources, ids, merger.tolerance, merger.kept, Sources(merger.nodes), id);
  }

  /**
   * The merge loop.  Whatever the hash and the bucket count, the kept points are the greedy ones,
   * and every point is mapped to a kept point that matches it.
   */
  method MergePoints(points: seq<Vec3>, tolerance: real, platform: Platform)
    returns (kept: seq<Vec3>, pointMap: array<nat>, sources: seq<nat>)
    requires |points| <= 0xFFFF_FFFF
    ensures kept == Greedy(points, tolerance) && KeptFrom(kept, sources, points)
    ensures pointMap.Length == |points| && Mapped(points, kept, pointMap[..], tolerance)
  {
    var buckets := BucketCount(|points|);
    var merger := new PointMerger(tolerance, platform, buckets);
    pointMap := new nat[|points|];
    for oldId := 0 to |points|
      invariant merger.Valid() && fresh(merger) && fresh(merger.heads) && fresh(pointMap)
      invariant merger.tolerance == tolerance
      invariant Merging(points, merger.kept, Sources(merger.nodes), pointMap[..oldId], tolerance)
    {
      MapPoint(merger, points, oldId, pointMap);
    }
    assert points[..|points|] == points && pointMap[..|points|] == pointMap[..];
    kept, sources := merger.kept, Sources(merger.nodes);
  }

  /** On points that are already separated every point is mapped to itself. */
  lemma SeparatedMapsToItself(points: seq<Vec3>, tolerance: real, id: nat, i: nat)
    requires Separated(points, tolerance) && i < |points| && id < |points| && Match(points[i], points[id], tolerance)
    ensures id == i
  {
    MatchSymmetric(points[i], points[id], tolerance);
  }
}
