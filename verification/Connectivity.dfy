/**
 * The connectivity filter: cells that share points are joined, regions are numbered in order of
 * their first cell, and the largest region is selected.
 */
module Connectivity {
  import opened Geometry
  import opened Totals
  import opened UnionFind

  // ----- What connected means ---------------------------------------------------------------

  type Cells = seq<seq<nat>>

  ghost predicate Share(cells: Cells, c: nat, d: nat)
    requires c < |cells| && d < |cells|
  {
    exists p :: p in cells[c] && p in cells[d]
  }

  /** A list of cells in which neighbours share a point. */
  ghost predicate Chain(cells: Cells, path: seq<nat>) {
    && |path| >= 1
    && (forall k :: 0 <= k < |path| ==> path[k] < |cells|)
    && forall k :: 0 <= k < |path| - 1 ==> Share(cells, path[k], path[k + 1])
  }

  ghost predicate Connected(cells: Cells, c: nat, d: nat) {
    exists path :: Chain(cells, path) && path[0] == c && path[|path| - 1] == d
  }

  lemma ConnectedSelf(cells: Cells, c: nat)
    requires c < |cells|
    ensures Connected(cells, c, c)
  {
    assert Chain(cells, [c]);
  }

  lemma ConnectedShare(cells: Cells, c: nat, d: nat)
    requires c < |cells| && d < |cells| && Share(cells, c, d)
    ensures Connected(cells, c, d)
  {
    assert Chain(cells, [c, d]);
  }

  lemma ConnectedBack(cells: Cells, c: nat, d: nat)
    requires Connected(cells, c, d)
    ensures Connected(cells, d, c)
  {
    var path :| Chain(cells, path) && path[0] == c && path[|path| - 1] == d;
    var back: seq<nat> := seq(|path|, i requires 0 <= i < |path| => path[|path| - 1 - i]);
    forall k | 0 <= k < |back| - 1
      ensures Share(cells, back[k], back[k + 1])
    {
      assert Share(cells, path[|path| - 2 - k], path[|path| - 2 - k + 1]);
    }
    assert Chain(cells, back);
  }

  lemma ConnectedVia(cells: Cells, c: nat, d: nat, e: nat)
    requires Connected(cells, c, d) && Connected(cells, d, e)
    ensures Connected(cells, c, e)
  {
    var p :| Chain(cells, p) && p[0] == c && p[|p| - 1] == d;
    var q :| Chain(cells, q) && q[0] == d && q[|q| - 1] == e;
    var path := p + q[1..];
    forall k | 0 <= k < |path| - 1
      ensures Share(cells, path[k], path[k + 1])
    {
      if k >= |p| - 1 {
        assert path[k] == q[k - (|p| - 1)] && path[k + 1] == q[k - (|p| - 1) + 1];
      }
    }
    assert Chain(cells, path);
  }

  // ----- The joining loop -------------------------------------------------------------------

  ghost predicate PointsInRange(cells: Cells, pointCount: nat) {
    forall c, m :: 0 <= c < |cells| && 0 <= m < |cells[c]| ==> cells[c][m] < pointCount
  }

  ghost predicate SameRoot(parent: seq<nat>, rank: seq<nat>, i: nat, j: nat)
    requires Valid(parent, rank) && i < |parent| && j < |parent|
  {
    Root(parent, rank, i) == Root(parent, rank, j)
  }

  /** Cells with one root are connected. */
  ghost predicate Sound(cells: Cells, parent: seq<nat>, rank: seq<nat>) {
    && Balanced(parent, rank) && |parent| == |cells|
    && forall i, j :: 0 <= i < |cells| && 0 <= j < |cells| && SameRoot(parent, rank, i, j) ==> Connected(cells, i, j)
  }

  /** The remembered first cell of a point contains it. */
  ghost predicate FirstsOk(cells: Cells, first: seq<Option<nat>>) {
    forall p :: 0 <= p < |first| && first[p].Some? ==> first[p].value < |cells| && p in cells[first[p].value]
  }

  /** Incidence m of cell c has been processed: its point's first cell has the same root as c. */
  ghost predicate Processed(cells: Cells, parent: seq<nat>, rank: seq<nat>, first: seq<Option<nat>>, c: nat, m: nat)
    requires Valid(parent, rank) && |parent| == |cells| && FirstsOk(cells, first)
    requires c < |cells| && m < |cells[c]| && cells[c][m] < |first|
  {
    first[cells[c][m]].Some? && SameRoot(parent, rank, c, first[cells[c][m]].value)
  }

  /** State of the joining loop after cells below `g` and the first `j` points of cell `g`. */
  ghost predicate Joining(cells: Cells, parent: seq<nat>, rank: seq<nat>, first: seq<Option<nat>>, g: nat, j: nat) {
    && Sound(cells, parent, rank) && FirstsOk(cells, first) && PointsInRange(cells, |first|)
    && forall c, m :: 0 <= c < |cells| && 0 <= m < |cells[c]| && (c < g || (c == g && m < j)) ==>
         Processed(cells, parent, rank, first, c, m)
  }

  lemma JoinSound(cells: Cells, parent: seq<nat>, rank: seq<nat>, parent': seq<nat>, rank': seq<nat>, a: nat, b: nat)
    requires Sound(cells, parent, rank) && a < |cells| && b < |cells|
    requires Balanced(parent', rank') && Joined(parent, rank, parent', rank', a, b)
    requires Connected(cells, a, b)
    ensures Sound(cells, parent', rank')
  {
    forall i, j | 0 <= i < |cells| && 0 <= j < |cells| && SameRoot(parent', rank', i, j)
      ensures Connected(cells, i, j)
    {
      assert JoinedPair(parent, rank, a, b, i, j);
      if !SameRoot(parent, rank, i, j) {
        JoinedConnected(cells, parent, rank, a, b, i, j);
      }
    }
  }

  lemma JoinedConnected(cells: Cells, parent: seq<nat>, rank: seq<nat>, a: nat, b: nat, i: nat, j: nat)
    requires Sound(cells, parent, rank) && a < |cells| && b < |cells| && i < |cells| && j < |cells|
    requires Connected(cells, a, b)
    requires (SameRoot(parent, rank, i, a) && SameRoot(parent, rank, b, j)) ||
             (SameRoot(parent, rank, i, b) && SameRoot(parent, rank, a, j))
    ensures Connected(cells, i, j)
  {
    ConnectedBack(cells, a, b);
    if SameRoot(parent, rank, i, a) && SameRoot(parent, rank, b, j) {
      ConnectedVia(cells, i, a, b);
      ConnectedVia(cells, i, b, j);
    } else {
      ConnectedVia(cells, i, b, a);
      ConnectedVia(cells, i, a, j);
    }
  }

  /** Either branch of the loop body processes one more incidence. */
  lemma JoinNext(cells: Cells, parent: seq<nat>, rank: seq<nat>, first: seq<Option<nat>>,
                 parent': seq<nat>, rank': seq<nat>, g: nat, j: nat)
    requires Joining(cells, parent, rank, first, g, j) && g < |cells| && j < |cells[g]|
    requires first[cells[g][j]].Some?
    requires Balanced(parent', rank') && Joined(parent, rank, parent', rank', g, first[cells[g][j]].value)
    ensures Joining(cells, parent', rank', first, g, j + 1)
  {
    var f := first[cells[g][j]].value;
    ConnectedShare(cells, g, f);
    JoinSound(cells, parent, rank, parent', rank', g, f);
    forall c, m | 0 <= c < |cells| && 0 <= m < |cells[c]| && (c < g || (c == g && m < j + 1))
      ensures Processed(cells, parent', rank', first, c, m)
    {
      assert (c == g && m == j) || Processed(cells, parent, rank, first, c, m);
      var d := first[cells[c][m]].value;
      assert JoinedPair(parent, rank, g, f, c, d);
    }
  }

  lemma JoinFirst(cells: Cells, parent: seq<nat>, rank: seq<nat>, first: seq<Option<nat>>, g: nat, j: nat)
    requires Joining(cells, parent, rank, first, g, j) && g < |cells| && j < |cells[g]|
    requires first[cells[g][j]] == None
    ensures Joining(cells, parent, rank, first[cells[g][j] := Some(g)], g, j + 1)
  {
    var first' := first[cells[g][j] := Some(g)];
    forall c, m | 0 <= c < |cells| && 0 <= m < |cells[c]| && (c < g || (c == g && m < j + 1))
      ensures Processed(cells, parent, rank, first', c, m)
    {
      if cells[c][m] != cells[g][j] {
        assert Processed(cells, parent, rank, first, c, m);
      } else if c < g || m < j {
        assert Processed(cells, parent, rank, first, c, m);
      }
    }
  }

  /** After all incidences the roots decide connectedness. */
  ghost predicate RootsDecide(cells: Cells, parent: seq<nat>, rank: seq<nat>) {
    && Balanced(parent, rank) && |parent| == |cells|
    && forall i, j :: 0 <= i < |cells| && 0 <= j < |cells| ==>
         (SameRoot(parent, rank, i, j) <==> Connected(cells, i, j))
  }

  lemma SharingCells(cells: Cells, parent: seq<nat>, rank: seq<nat>, first: seq<Option<nat>>, c: nat, d: nat)
    requires Joining(cells, parent, rank, first, |cells|, 0) && c < |cells| && d < |cells| && Share(cells, c, d)
    ensures SameRoot(parent, rank, c, d)
  {
    var p :| p in cells[c] && p in cells[d];
    var k :| 0 <= k < |cells[c]| && cells[c][k] == p;
    var l :| 0 <= l < |cells[d]| && cells[d][l] == p;
    assert Processed(cells, parent, rank, first, c, k) && Processed(cells, parent, rank, first, d, l);
  }

  lemma {:induction false} ChainOneRoot(cells: Cells, parent: seq<nat>, rank: seq<nat>, first: seq<Option<nat>>,
                                        path: seq<nat>)
    requires Joining(cells, parent, rank, first, |cells|, 0) && Chain(cells, path)
    ensures SameRoot(parent, rank, path[0], path[|path| - 1])
    decreases |path|
  {
    if |path| > 1 {
      var shorter := path[..|path| - 1];
      forall k | 0 <= k < |shorter| - 1 ensures Share(cells, shorter[k], shorter[k + 1]) {
        assert Share(cells, path[k], path[k + 1]);
      }
      ChainOneRoot(cells, parent, rank, first, shorter);
      assert Share(cells, path[|path| - 2], path[|path| - 2 + 1]);
      SharingCells(cells, parent, rank, first, path[|path| - 2], path[|path| - 1]);
    }
  }

  lemma JoinedDecides(cells: Cells, parent: seq<nat>, rank: seq<nat>, first: seq<Option<nat>>)
    requires Joining(cells, parent, rank, first, |cells|, 0)
    ensures RootsDecide(cells, parent, rank)
  {
    forall i, j | 0 <= i < |cells| && 0 <= j < |cells|
      ensures SameRoot(parent, rank, i, j) <==> Connected(cells, i, j)
    {
      if Connected(cells, i, j) {
        var path :| Chain(cells, path) && path[0] == i && path[|path| - 1] == j;
        ChainOneRoot(cells, parent, rank, first, path);
      }
    }
  }

  lemma StartForest(n: nat, parent: seq<nat>, rank: seq<nat>)
    requires |parent| == |rank| == n && forall i :: 0 <= i < n ==> parent[i] == i && rank[i] == 0
    ensures Balanced(parent, rank) && forall i :: 0 <= i < n ==> Root(parent, rank, i) == i
  {
    forall r | 0 <= r < n
      ensures Pow2(rank[r]) <= |Class(parent, rank, r)|
    {
      assert Class(parent, rank, r) == {r};
    }
  }

  lemma StartJoining(cells: Cells, parent: seq<nat>, rank: seq<nat>, first: seq<Option<nat>>)
    requires |parent| == |rank| == |cells| && forall i :: 0 <= i < |cells| ==> parent[i] == i && rank[i] == 0
    requires PointsInRange(cells, |first|) && forall p :: 0 <= p < |first| ==> first[p] == None
    ensures Joining(cells, parent, rank, first, 0, 0)
  {
    StartForest(|cells|, parent, rank);
    forall i, j | 0 <= i < |cells| && 0 <= j < |cells| && SameRoot(parent, rank, i, j)
      ensures Connected(cells, i, j)
    {
      ConnectedSelf(cells, i);
    }
  }

  /** Joins every cell with the first cell of each of its points. */
  method JoinCells(cells: Cells, pointCount: nat) returns (parent: array<nat>, rank: array<nat>)
    requires |cells| <= 0xFFFF_FFFF && PointsInRange(cells, pointCount)
    ensures fresh(parent) && fresh(rank) && parent != rank
    ensures RootsDecide(cells, parent[..], rank[..])
  {
    parent := new nat[|cells|](i => i);
    rank := new nat[|cells|](_ => 0);
    var first := new Option<nat>[pointCount](_ => None);
    StartJoining(cells, parent[..], rank[..], first[..]);
    var cell := 0;
    while cell < |cells|
      invariant cell <= |cells| && fresh(parent) && fresh(rank) && fresh(first) && parent != rank
      invariant Joining(cells, parent[..], rank[..], first[..], cell, 0)
    {
      var j := 0;
      while j < |cells[cell]|
        invariant j <= |cells[cell]| && fresh(parent) && fresh(rank) && fresh(first) && parent != rank
        invariant Joining(cells, parent[..], rank[..], first[..], cell, j)
      {
        JoinPoint(cells, parent, rank, first, cell, j);
        j := j + 1;
      }
      JoinedCell(cells, parent[..], rank[..], first[..], cell);
      cell := cell + 1;
    }
    JoinedDecides(cells, parent[..], rank[..], first[..]);
  }

  lemma JoinedCell(cells: Cells, parent: seq<nat>, rank: seq<nat>, first: seq<Option<nat>>, g: nat)
    requires g < |cells| && Joining(cells, parent, rank, first, g, |cells[g]|)
    ensures Joining(cells, parent, rank, first, g + 1, 0)
  {
  }

  /** The loop body: remember the first cell of a point, or join the cell with it. */
  method JoinPoint(cells: Cells, parent: array<nat>, rank: array<nat>, first: array<Option<nat>>, cell: nat, j: nat)
    requires |cells| <= 0xFFFF_FFFF && cell < |cells| && j < |cells[cell]| && parent != rank
    requires Joining(cells, parent[..], rank[..], first[..], cell, j)
    modifies parent, rank, first
    ensures Joining(cells, parent[..], rank[..], first[..], cell, j + 1)
  {
    var point := cells[cell][j];
    ghost var before, ranks, firsts := parent[..], rank[..], first[..];
    if first[point] == None {
      JoinFirst(cells, before, ranks, firsts, cell, j);
      first[point] := Some(cell);
      assert first[..] == firsts[point := Some(cell)];
    } else {
      Union(parent, rank, cell, first[point].value);
      JoinNext(cells, before, ranks, firsts, parent[..], rank[..], cell, j);
      assert first[..] == firsts;
    }
  }

  // ----- Numbering the regions --------------------------------------------------------------

  /** Every cell carries a known id or the next unused one: ids are given in order of first cell. */
  ghost predicate NumberedByFirst(regions: seq<nat>, count: nat) {
    if regions == [] then count == 0
    else
      var n := |regions| - 1;
      (regions[n] < count && NumberedByFirst(regions[..n], count)) ||
      (count > 0 && regions[n] == count - 1 && NumberedByFirst(regions[..n], count - 1))
  }

  /** Only ids below the count are used. */
  lemma {:induction false} NumberedRange(regions: seq<nat>, count: nat, k: nat)
    requires NumberedByFirst(regions, count) && k < |regions|
    ensures regions[k] < count
  {
    var n := |regions| - 1;
    if k < n {
      NumberedRange(regions[..n], if NumberedByFirst(regions[..n], count) then count else count - 1, k);
    }
  }

  /** Every id below the count is used. */
  lemma {:induction false} NumberedUsed(regions: seq<nat>, count: nat, v: nat) returns (k: nat)
    requires NumberedByFirst(regions, count) && v < count
    ensures k < |regions| && regions[k] == v
  {
    var n := |regions| - 1;
    if regions[n] == v {
      k := n;
    } else {
      k := NumberedUsed(regions[..n], if regions[n] < count && NumberedByFirst(regions[..n], count) then count else count - 1, v);
    }
  }

  /** An id appears only after its predecessor has. */
  lemma {:induction false} NumberedOrder(regions: seq<nat>, count: nat, k: nat) returns (l: nat)
    requires NumberedByFirst(regions, count) && k < |regions| && regions[k] > 0
    ensures l < k && regions[l] == regions[k] - 1
  {
    var n := |regions| - 1;
    var c := if regions[n] < count && NumberedByFirst(regions[..n], count) then count else count - 1;
    if k < n {
      l := NumberedOrder(regions[..n], c, k);
    } else {
      l := NumberedUsed(regions[..n], c, regions[n] - 1);
    }
  }

  /** Roots and ids seen so far correspond one to one; `owner` lists the root of each id. */
  ghost predicate Labelled(roots: seq<nat>, rootRegion: seq<Option<nat>>, regions: seq<nat>, owner: seq<nat>) {
    && |regions| <= |roots| <= |rootRegion| && |owner| <= |regions|
    && (forall k :: 0 <= k < |roots| ==> roots[k] < |rootRegion|)
    && (forall k :: 0 <= k < |regions| ==> rootRegion[roots[k]] == Some(regions[k]))
    && (forall v :: 0 <= v < |owner| ==> owner[v] < |rootRegion| && rootRegion[owner[v]] == Some(v))
    && (forall r :: 0 <= r < |rootRegion| && rootRegion[r].Some? ==>
         rootRegion[r].value < |owner| && owner[rootRegion[r].value] == r)
    && NumberedByFirst(regions, |owner|)
  }

  /** A new root gets the next id. */
  lemma LabelNew(roots: seq<nat>, rootRegion: seq<Option<nat>>, regions: seq<nat>, owner: seq<nat>)
    requires Labelled(roots, rootRegion, regions, owner) && |regions| < |roots|
    requires rootRegion[roots[|regions|]] == None
    ensures var r := roots[|regions|];
            Labelled(roots, rootRegion[r := Some(|owner|)], regions + [|owner|], owner + [r])
  {
    assert (regions + [|owner|])[..|regions|] == regions;
  }

  /** A known root gets its own. */
  lemma LabelKnown(roots: seq<nat>, rootRegion: seq<Option<nat>>, regions: seq<nat>, owner: seq<nat>)
    requires Labelled(roots, rootRegion, regions, owner) && |regions| < |roots|
    requires rootRegion[roots[|regions|]].Some?
    ensures Labelled(roots, rootRegion, regions + [rootRegion[roots[|regions|]].value], owner)
  {
    var id := rootRegion[roots[|regions|]].value;
    assert (regions + [id])[..|regions|] == regions;
  }

  ghost function Roots(parent: seq<nat>, rank: seq<nat>): (roots: seq<nat>)
    requires Valid(parent, rank)
    ensures |roots| == |parent| && forall i :: 0 <= i < |roots| ==> roots[i] == Root(parent, rank, i) < |parent|
  {
    seq(|parent|, i requires 0 <= i < |parent| => Root(parent, rank, i))
  }

  /** How many cells so far carry each id. */
  ghost predicate Counted(sizes: seq<nat>, regions: seq<nat>) {
    Total(sizes) == |regions| && forall v :: 0 <= v < |sizes| ==> sizes[v] == multiset(regions)[v]
  }

  /** Labels cell after cell with the id of its root, counting the cells of each id. */
  method LabelRegions(parent: array<nat>, ghost rank: seq<nat>) returns (regions: seq<nat>, sizes: array<nat>, count: nat)
    requires Valid(parent[..], rank)
    modifies parent
    ensures fresh(sizes) && sizes.Length == parent.Length == |regions|
    ensures forall i, j :: 0 <= i < |regions| && 0 <= j < |regions| ==>
              (regions[i] == regions[j] <==> SameRoot(old(parent[..]), rank, i, j))
    ensures NumberedByFirst(regions, count) && count <= |regions| && Counted(sizes[..], regions)
  {
    var n := parent.Length;
    ghost var start := parent[..];
    ghost var roots := Roots(start, rank);
    var rootRegion := new Option<nat>[n](_ => None);
    sizes := new nat[n](_ => 0);
    regions, count := [], 0;
    ghost var owner: seq<nat> := [];
    TotalOfZeros(sizes[..]);
    for i := 0 to n
      invariant fresh(sizes) && fresh(rootRegion)
      invariant SameRoots(start, parent[..], rank)
      invariant |regions| == i && count == |owner| && Labelled(roots, rootRegion[..], regions, owner)
      invariant Counted(sizes[..], regions)
    {
      var root := Find(parent, i, rank);
      assert root == roots[i];
      var id;
      id, count, owner := AssignRegion(rootRegion, sizes, root, roots, regions, count, owner);
      regions := regions + [id];
    }
    LabelsMatchRoots(start, rank, rootRegion[..], regions, owner);
  }

  lemma LabelsMatchRoots(start: seq<nat>, rank: seq<nat>, rootRegion: seq<Option<nat>>, regions: seq<nat>, owner: seq<nat>)
    requires Valid(start, rank) && Labelled(Roots(start, rank), rootRegion, regions, owner) && |regions| == |start|
    ensures forall i, j :: 0 <= i < |regions| && 0 <= j < |regions| ==>
              (regions[i] == regions[j] <==> SameRoot(start, rank, i, j))
  {
    var roots := Roots(start, rank);
    forall i, j | 0 <= i < |regions| && 0 <= j < |regions|
      ensures regions[i] == regions[j] <==> SameRoot(start, rank, i, j)
    {
      assert rootRegion[roots[i]] == Some(regions[i]) && rootRegion[roots[j]] == Some(regions[j]);
    }
  }

  /** Gives the next cell the id of its root, a new one if the root has none, and counts it. */
  method AssignRegion(rootRegion: array<Option<nat>>, sizes: array<nat>, root: nat, ghost roots: seq<nat>,
                      ghost regions: seq<nat>, count: nat, ghost owner: seq<nat>)
    returns (id: nat, count': nat, ghost owner': seq<nat>)
    requires Labelled(roots, rootRegion[..], regions, owner) && |regions| < |roots| && root == roots[|regions|]
    requires Counted(sizes[..], regions) && sizes.Length == |roots| && count == |owner|
    modifies rootRegion, sizes
    ensures Labelled(roots, rootRegion[..], regions + [id], owner') && count' == |owner'|
    ensures Counted(sizes[..], regions + [id])
  {
    ghost var before, counted := rootRegion[..], sizes[..];
    count', owner' := count, owner;
    if rootRegion[root] == None {
      LabelNew(roots, before, regions, owner);
      rootRegion[root] := Some(count);
      count', owner' := count + 1, owner + [root];
      assert rootRegion[..] == before[root := Some(count)];
    } else {
      LabelKnown(roots, before, regions, owner);
    }
    id := rootRegion[root].value;
    CountOne(counted, regions, id);
    sizes[id] := sizes[id] + 1;
    assert sizes[..] == counted[id := counted[id] + 1];
  }

  lemma CountOne(sizes: seq<nat>, regions: seq<nat>, id: nat)
    requires Counted(sizes, regions) && id < |sizes|
    ensures Counted(sizes[id := sizes[id] + 1], regions + [id])
  {
    TotalUpdated(sizes, id, sizes[id] + 1);
  }

  /** The lowest-numbered region of maximum size. */
  method LargestRegion(sizes: seq<nat>, count: nat) returns (largest: nat, size: nat)
    requires count <= |sizes|
    ensures count == 0 || size == 0 ==> largest == 0
    ensures forall v :: 0 <= v < count ==> sizes[v] <= size
    ensures size > 0 ==> largest < count && sizes[largest] == size && forall v :: 0 <= v < largest ==> sizes[v] < size
  {
    largest, size := 0, 0;
    for i := 0 to count
      invariant size == 0 ==> largest == 0
      invariant forall v :: 0 <= v < i ==> sizes[v] <= size
      invariant size > 0 ==> largest < i && sizes[largest] == size
      invariant forall v :: 0 <= v < largest ==> sizes[v] < size
    {
      if sizes[i] > size {
        size, largest := sizes[i], i;
      }
    }
  }

  /** The ids of the cells in a region, in cell order. */
  method SelectCells(regions: seq<nat>, region: nat) returns (selected: seq<nat>)
    ensures forall c :: c in selected <==> 0 <= c < |regions| && regions[c] == region
    ensures forall k, l :: 0 <= k < l < |selected| ==> selected[k] < selected[l]
    ensures |selected| == multiset(regions)[region]
  {
    selected := [];
    for c := 0 to |regions|
      invariant forall d :: d in selected <==> 0 <= d < c && regions[d] == region
      invariant forall k, l :: 0 <= k < l < |selected| ==> selected[k] < selected[l]
      invariant |selected| == multiset(regions[..c])[region]
    {
      assert regions[..c + 1] == regions[..c] + [regions[c]];
      if regions[c] == region {
        assert forall k :: 0 <= k < |selected| ==> selected[k] in selected;
        selected := selected + [c];
      }
    }
    assert regions[..|regions|] == regions;
  }

  datatype Result = Overflow | AllRegions(regions: seq<nat>, count: nat)
                             | Largest(count: nat, region: nat, selected: seq<nat>)

  /** Region labels that decide connectedness, numbered by first cell. */
  ghost predicate Labels(cells: Cells, regions: seq<nat>, count: nat) {
    && |regions| == |cells|
    && (forall i, j :: 0 <= i < |cells| && 0 <= j < |cells| ==> (regions[i] == regions[j] <==> Connected(cells, i, j)))
    && NumberedByFirst(regions, count)
  }

  /** `region` is the lowest id of a region with the most cells, and `selected` are its cells in order. */
  ghost predicate SelectsLargest(cells: Cells, regions: seq<nat>, count: nat, region: nat, selected: seq<nat>) {
    && Labels(cells, regions, count)
    && (forall v :: 0 <= v < count ==> multiset(regions)[v] <= |selected|)
    && (forall v :: 0 <= v < region ==> multiset(regions)[v] < |selected|)
    && (forall c :: c in selected <==> 0 <= c < |cells| && regions[c] == region)
    && forall k, l :: 0 <= k < l < |selected| ==> selected[k] < selected[l]
  }

  /** The filter: all cells labelled, or the cells of the largest region; the region sizes add up to the cells. */
  method ConnectCells(cells: Cells, pointCount: nat, largestOnly: bool)
    returns (result: Result, ghost regions: seq<nat>, ghost sizes: seq<nat>)
    requires PointsInRange(cells, pointCount)
    ensures result == Overflow <==> |cells| > 0xFFFF_FFFF
    ensures result != Overflow ==> Labels(cells, regions, result.count) && Counted(sizes, regions) && Total(sizes) == |cells|
    ensures result.AllRegions? ==> result.regions == regions
    ensures result.Largest? ==> SelectsLargest(cells, regions, result.count, result.region, result.selected)
    ensures |cells| != 0 && result != Overflow ==> (result.Largest? <==> largestOnly)
  {
    regions, sizes := [], [];
    if |cells| > 0xFFFF_FFFF {
      return Overflow, regions, sizes;
    }
    if |cells| == 0 {
      return AllRegions([], 0), regions, sizes;
    }
    var parent, rank := JoinCells(cells, pointCount);
    var labels, counts, count := LabelRegions(parent, rank[..]);
    var largest, size := LargestRegion(counts[..], count);
    regions, sizes := labels, counts[..];
    if largestOnly {
      var selected := SelectCells(labels, largest);
      LargestHasCells(labels, count, counts[..], largest, size);
      result := Largest(count, largest, selected);
    } else {
      result := AllRegions(labels, count);
    }
  }

  lemma LargestHasCells(regions: seq<nat>, count: nat, sizes: seq<nat>, largest: nat, size: nat)
    requires NumberedByFirst(regions, count) && count <= |sizes| && Counted(sizes, regions) && |regions| > 0
    requires forall v :: 0 <= v < count ==> sizes[v] <= size
    ensures size > 0
  {
    NumberedRange(regions, count, 0);
    assert regions[0] in multiset(regions);
    assert sizes[regions[0]] <= size;
  }
}
