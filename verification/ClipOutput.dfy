/**
 * The mesh under construction by the clip filter, with the two caches that merge its vertices:
 * one slot per input point, and one map entry per cut input edge.
 */
module ClipOutputs {
  import opened Geometry
  import opened Chains
  import opened EdgeKeys

  /** What a clip vertex stands for, whatever triangle or direction it was reached from. */
  datatype Origin = Corner(p: nat) | Crossing(lo: nat, hi: nat)

  function CrossingOf(a: nat, b: nat): (r: Origin) {
    if a < b then Crossing(a, b) else Crossing(b, a)
  }

  datatype ClipVertex = Original(p: nat) | OnEdge(a: nat, b: nat, t: real) {
    function Origin(): (r: Origin) {
      match this
      case Original(p) => Corner(p)
      case OnEdge(a, b, _) => CrossingOf(a, b)
    }
  }

  /** The point where the line through a and b meets the plane, measured from a. */
  function PointAt(points: seq<Vec3>, a: nat, b: nat, t: real): (r: Vec3)
    requires a < |points| && b < |points|
  {
    points[a].Plus(points[b].Minus(points[a]).Scale(t))
  }

  /** Position of an output vertex; edges that do not cross the plane get no vertex. */
  ghost function Position(input: seq<Vec3>, plane: Plane, o: Origin): (r: Vec3)
    requires match o case Corner(p) => p < |input| case Crossing(lo, hi) => lo < |input| && hi < |input|
  {
    match o
    case Corner(p) => input[p]
    case Crossing(lo, hi) =>
      var da, db := plane.Distance(input[lo]), plane.Distance(input[hi]);
      PointAt(input, lo, hi, if da != db then da / (da - db) else 0.5)
  }

  /** Vertices are ready to be placed: in range, and cut vertices where the plane meets their edge. */
  ghost predicate Placeable(input: seq<Vec3>, plane: Plane, v: ClipVertex) {
    match v
    case Original(p) => p < |input|
    case OnEdge(a, b, t) =>
      a < |input| && b < |input| && PointAt(input, a, b, t) == Position(input, plane, v.Origin())
  }

  ghost predicate Injective(origins: seq<Origin>) {
    forall i, j :: 0 <= i < |origins| && 0 <= j < |origins| && origins[i] == origins[j] ==> i == j
  }

  class ClipOutput {
    const input: seq<Vec3>
    const plane: Plane
    const originalMap: array<Option<nat>>
    var edgeMap: map<nat, nat>
    var points: seq<Vec3>
    var triangles: seq<Tri<nat>>
    var sourceIds: seq<Option<nat>>
    ghost var origins: seq<Origin>

    ghost predicate OriginInRange(o: Origin) {
      match o
      case Corner(p) => p < |input|
      case Crossing(lo, hi) => lo < |input| && hi < |input| && lo <= hi
    }

    /** Both caches agree with `origins`: an origin has at most one output point, and it is placed there. */
    ghost predicate Valid()
      reads this, originalMap
    {
      && |input| <= ID_LIMIT
      && originalMap.Length == |input|
      && |points| == |origins|
      && |sourceIds| == |triangles|
      && (forall i :: 0 <= i < |origins| ==> OriginInRange(origins[i]))
      && (forall i :: 0 <= i < |origins| ==> points[i] == Position(input, plane, origins[i]))
      && (forall i :: 0 <= i < |origins| && origins[i].Corner? ==> originalMap[origins[i].p] == Some(i))
      && (forall i :: 0 <= i < |origins| && origins[i].Crossing? ==>
           var key := EdgeKey(origins[i].lo, origins[i].hi);
           key in edgeMap && edgeMap[key] == i)
      && (forall p :: 0 <= p < |input| && originalMap[p].Some? ==>
           originalMap[p].value < |origins| && origins[originalMap[p].value] == Corner(p))
      && (forall key :: key in edgeMap ==>
           edgeMap[key] < |origins| && origins[edgeMap[key]].Crossing? &&
           key == EdgeKey(origins[edgeMap[key]].lo, origins[edgeMap[key]].hi))
    }

    ghost predicate TrianglesInRange()
      reads this
    {
      forall i :: 0 <= i < |triangles| ==>
        triangles[i].a < |points| && triangles[i].b < |points| && triangles[i].c < |points|
    }

    constructor (input: seq<Vec3>, plane: Plane)
      requires |input| <= ID_LIMIT
      ensures Valid() && TrianglesInRange() && fresh(originalMap)
      ensures this.input == input && this.plane == plane
      ensures triangles == [] && sourceIds == [] && origins == []
    {
      this.input, this.plane := input, plane;
      originalMap := new Option<nat>[|input|](_ => None);
      edgeMap := map[];
      points, triangles, sourceIds, origins := [], [], [], [];
    }

    /** The output id of a clip vertex, created on first use and shared ever after. */
    method OutputVertex(vertex: ClipVertex) returns (id: nat)
      requires Valid() && Placeable(input, plane, vertex)
      modifies this, originalMap
      ensures Valid()
      ensures id < |origins| && origins[id] == vertex.Origin()
      ensures origins == old(origins) || origins == old(origins) + [vertex.Origin()]
      ensures triangles == old(triangles) && sourceIds == old(sourceIds)
    {
      match vertex
      case Original(p) => id := CornerVertex(p);
      case OnEdge(a, b, t) => id := EdgeVertex(a, b, t);
    }

    method CornerVertex(p: nat) returns (id: nat)
      requires Valid() && p < |input|
      modifies this, originalMap
      ensures Valid()
      ensures id < |origins| && origins[id] == Corner(p)
      ensures origins == old(origins) || origins == old(origins) + [Corner(p)]
      ensures triangles == old(triangles) && sourceIds == old(sourceIds)
    {
      if originalMap[p] == None {
        id := |points|;
        points := points + [input[p]];
        originalMap[p] := Some(id);
        origins := origins + [Corner(p)];
      } else {
        id := originalMap[p].value;
      }
    }

    method EdgeVertex(a: nat, b: nat, t: real) returns (id: nat)
      requires Valid() && a < |input| && b < |input|
      requires PointAt(input, a, b, t) == Position(input, plane, CrossingOf(a, b))
      modifies this
      ensures Valid()
      ensures id < |origins| && origins[id] == CrossingOf(a, b)
      ensures origins == old(origins) || origins == old(origins) + [CrossingOf(a, b)]
      ensures triangles == old(triangles) && sourceIds == old(sourceIds)
    {
      var key := EdgeKey(a, b);
      KeyMeansOrigin(a, b);
      if key in edgeMap {
        id := edgeMap[key];
      } else {
        id := |points|;
        points := points + [PointAt(input, a, b, t)];
        edgeMap := edgeMap[key := id];
        origins := origins + [CrossingOf(a, b)];
      }
    }

    lemma KeyMeansOrigin(a: nat, b: nat)
      requires Valid() && a < |input| && b < |input|
      ensures forall i :: 0 <= i < |origins| && origins[i].Crossing? ==>
                (EdgeKey(origins[i].lo, origins[i].hi) == EdgeKey(a, b) <==> origins[i] == CrossingOf(a, b))
    {
      forall i | 0 <= i < |origins| && origins[i].Crossing?
        ensures EdgeKey(origins[i].lo, origins[i].hi) == EdgeKey(a, b) <==> origins[i] == CrossingOf(a, b)
      {
        EdgeKeyInjective(origins[i].lo, origins[i].hi, a, b);
      }
    }

    /** Distinct output points have distinct origins. */
    lemma InjectiveOrigins()
      requires Valid()
      ensures Injective(origins)
    {
      forall i, j | 0 <= i < |origins| && 0 <= j < |origins| && origins[i] == origins[j]
        ensures i == j
      {
        assert origins[i].Corner? ==> originalMap[origins[i].p] == originalMap[origins[j].p];
      }
    }

    /** Appends a triangle and its source unless the provenance buffer is full. */
    method AddTriangle(t: Tri<nat>, source: Option<nat>, capacity: nat) returns (ok: bool)
      requires Valid()
      modifies this`triangles, this`sourceIds
      ensures Valid()
      ensures ok <==> |old(sourceIds)| < capacity
      ensures triangles == if ok then old(triangles) + [t] else old(triangles)
      ensures sourceIds == if ok then old(sourceIds) + [source] else old(sourceIds)
    {
      ok := |sourceIds| < capacity;
      if ok {
        triangles := triangles + [t];
        sourceIds := sourceIds + [source];
      }
    }
  }
}
