/**
 * Disjoint sets of cells: parent links with path compression and union by an 8-bit rank.
 */
module UnionFind {
  /**
   * Links stay inside the array and lead to strictly higher rank; ranks stay below the number of
   * cells, so following links ends.
   */
  ghost predicate Valid(parent: seq<nat>, rank: seq<nat>) {
    && |parent| == |rank|
    && forall i :: 0 <= i < |parent| ==>
         parent[i] < |parent| && rank[i] < |parent| && (parent[i] != i ==> rank[i] < rank[parent[i]])
  }

  ghost function Root(parent: seq<nat>, rank: seq<nat>, i: nat): (r: nat)
    requires Valid(parent, rank) && i < |parent|
    ensures r < |parent| && parent[r] == r && rank[i] <= rank[r]
    decreases |parent| - rank[i]
  {
    if parent[i] == i then i else Root(parent, rank, parent[i])
  }

  ghost predicate SameRoots(parent: seq<nat>, parent': seq<nat>, rank: seq<nat>)
    requires Valid(parent, rank)
  {
    && Valid(parent', rank)
    && forall i :: 0 <= i < |parent| ==> Root(parent', rank, i) == Root(parent, rank, i)
  }

  /** Pointing a cell straight at its root changes no root. */
  lemma {:induction false} CompressRoot(parent: seq<nat>, rank: seq<nat>, v: nat, i: nat)
    requires Valid(parent, rank) && v < |parent| && i < |parent| && parent[v] != v
    ensures var parent' := parent[v := Root(parent, rank, v)];
            Valid(parent', rank) && Root(parent', rank, i) == Root(parent, rank, i)
    decreases |parent| - rank[i]
  {
    var parent' := parent[v := Root(parent, rank, v)];
    assert rank[v] < rank[parent[v]] <= rank[Root(parent, rank, v)];
    assert Valid(parent', rank);
    if i != v && parent[i] != i {
      CompressRoot(parent, rank, v, parent[i]);
    }
  }

  /** Finds the root in one pass and points every link of the path at it in a second pass. */
  method Find(parent: array<nat>, value: nat, ghost rank: seq<nat>) returns (root: nat)
    requires Valid(parent[..], rank) && value < parent.Length
    modifies parent
    ensures SameRoots(old(parent[..]), parent[..], rank)
    ensures root == Root(old(parent[..]), rank, value)
  {
    root := value;
    while parent[root] != root
      invariant root < parent.Length
      invariant Root(parent[..], rank, root) == Root(parent[..], rank, value)
      decreases parent.Length - rank[root]
    {
      root := parent[root];
    }
    var current: nat := value;
    while parent[current] != current
      invariant current < parent.Length
      invariant SameRoots(old(parent[..]), parent[..], rank)
      invariant Root(parent[..], rank, current) == root
      decreases parent.Length - rank[current]
    {
      ghost var before := parent[..];
      var next := parent[current];
      forall i | 0 <= i < parent.Length
        ensures Valid(before[current := root], rank)
        ensures Root(before[current := root], rank, i) == Root(before, rank, i)
      {
        CompressRoot(before, rank, current, i);
      }
      CompressRoot(before, rank, current, next);
      parent[current] := root;
      assert parent[..] == before[current := root];
      current := next;
    }
  }

  // ----- Sizes ------------------------------------------------------------------------------

  function Pow2(n: nat): (p: nat)
    ensures p > n
  {
    if n == 0 then 1 else 2 * Pow2(n - 1)
  }

  lemma {:induction false} Pow2Monotone(m: nat, n: nat)
    requires m <= n
    ensures Pow2(m) <= Pow2(n)
    decreases n
  {
    if m < n {
      Pow2Monotone(m, n - 1);
    }
  }

  /** The cells whose root is r. */
  ghost function Class(parent: seq<nat>, rank: seq<nat>, r: nat): (result: set<nat>)
    requires Valid(parent, rank)
  {
    set i | 0 <= i < |parent| && Root(parent, rank, i) == r
  }

  /** A root of rank r owns at least 2^r cells. */
  ghost predicate Balanced(parent: seq<nat>, rank: seq<nat>) {
    Valid(parent, rank) &&
    forall r :: 0 <= r < |parent| && parent[r] == r ==> Pow2(rank[r]) <= |Class(parent, rank, r)|
  }

  lemma {:induction false} SetBound(s: set<nat>, n: nat)
    requires forall i :: i in s ==> i < n
    ensures |s| <= n
  {
    if n == 0 {
      assert s == {};
    } else {
      SetBound(s - {n - 1}, n - 1);
      assert s <= (s - {n - 1}) + {n - 1};
    }
  }

  lemma {:induction false} Pow2Add(m: nat, n: nat)
    ensures Pow2(m + n) == Pow2(m) * Pow2(n)
  {
    if m > 0 {
      Pow2Add(m - 1, n);
      assert Pow2(m + n) == 2 * Pow2(m - 1 + n);
    }
  }

  lemma Pow2Of32()
    ensures Pow2(32) == 0x1_0000_0000
  {
    Pow2Add(8, 8);
    Pow2Add(16, 16);
    assert Pow2(8) == 256;
  }

  /** With 32-bit cell counts no rank exceeds 31, so the 8-bit counter never wraps. */
  lemma RankBound(parent: seq<nat>, rank: seq<nat>, i: nat)
    requires Balanced(parent, rank) && i < |parent| <= 0xFFFF_FFFF
    ensures rank[i] <= 31
  {
    var r := Root(parent, rank, i);
    SetBound(Class(parent, rank, r), |parent|);
    Pow2Of32();
    if rank[r] >= 32 {
      Pow2Monotone(32, rank[r]);
    }
  }

  /** The ranks after `low` is linked below `high`: a tie raises the upper one. */
  ghost function Raised(rank: seq<nat>, low: nat, high: nat): (rank': seq<nat>)
    requires low < |rank| && high < |rank|
    ensures |rank'| == |rank| && rank[high] <= rank'[high] <= rank[high] + 1
  {
    if rank[low] == rank[high] then rank[high := rank[high] + 1] else rank
  }

  /** Two different roots of which the first does not rank higher. */
  ghost predicate Linkable(parent: seq<nat>, rank: seq<nat>, low: nat, high: nat) {
    && Balanced(parent, rank) && low < |parent| && high < |parent| && low != high
    && parent[low] == low && parent[high] == high && rank[low] <= rank[high]
  }

  lemma MergedSize(parent: seq<nat>, rank: seq<nat>, low: nat, high: nat)
    requires Linkable(parent, rank, low, high)
    ensures var rank' := Raised(rank, low, high);
            && Pow2(rank'[high]) <= |Class(parent, rank, low) + Class(parent, rank, high)|
            && rank'[high] < |parent|
  {
    var a, b := Class(parent, rank, low), Class(parent, rank, high);
    assert a !! b;
    assert |a + b| == |a| + |b|;
    SetBound(a + b, |parent|);
    assert Pow2(rank[high]) <= |b| && Pow2(rank[low]) <= |a|;
    MergedRank(rank[low], rank[high], |a|, |b|);
  }

  lemma MergedRank(low: nat, high: nat, a: nat, b: nat)
    requires low <= high && Pow2(low) <= a && Pow2(high) <= b
    ensures Pow2(if low == high then high + 1 else high) <= a + b
  {
  }

  lemma LinkValid(parent: seq<nat>, rank: seq<nat>, low: nat, high: nat)
    requires Linkable(parent, rank, low, high)
    ensures Valid(parent[low := high], Raised(rank, low, high))
  {
    MergedSize(parent, rank, low, high);
  }

  /** Joining two roots moves exactly the cells of one class to the other root. */
  lemma {:induction false} LinkRoot(parent: seq<nat>, rank: seq<nat>, low: nat, high: nat, i: nat)
    requires Linkable(parent, rank, low, high) && i < |parent|
    ensures Valid(parent[low := high], Raised(rank, low, high))
    ensures Root(parent[low := high], Raised(rank, low, high), i)
            == if Root(parent, rank, i) == low then high else Root(parent, rank, i)
    decreases |parent| - rank[i]
  {
    LinkValid(parent, rank, low, high);
    if parent[i] != i {
      LinkRoot(parent, rank, low, high, parent[i]);
    }
  }

  /** The merged class has all cells of both, so doubling the size pays for one more rank. */
  lemma LinkBalanced(parent: seq<nat>, rank: seq<nat>, low: nat, high: nat)
    requires Linkable(parent, rank, low, high)
    ensures Balanced(parent[low := high], Raised(rank, low, high))
  {
    var parent', rank' := parent[low := high], Raised(rank, low, high);
    LinkMoves(parent, rank, low, high);
    MergedSize(parent, rank, low, high);
    forall r | 0 <= r < |parent| && parent'[r] == r
      ensures Pow2(rank'[r]) <= |Class(parent', rank', r)|
    {
      MovedClass(parent, rank, parent', rank', low, high, r);
    }
  }

  /** The second forest has the roots of the first, with `low` replaced by `high`. */
  ghost predicate Moved(parent: seq<nat>, rank: seq<nat>, parent': seq<nat>, rank': seq<nat>, low: nat, high: nat) {
    && Valid(parent, rank) && Valid(parent', rank') && |parent'| == |parent|
    && forall i :: 0 <= i < |parent| ==>
         Root(parent', rank', i) == if Root(parent, rank, i) == low then high else Root(parent, rank, i)
  }

  lemma LinkMoves(parent: seq<nat>, rank: seq<nat>, low: nat, high: nat)
    requires Linkable(parent, rank, low, high)
    ensures Moved(parent, rank, parent[low := high], Raised(rank, low, high), low, high)
  {
    LinkValid(parent, rank, low, high);
    forall i | 0 <= i < |parent|
      ensures Root(parent[low := high], Raised(rank, low, high), i)
              == if Root(parent, rank, i) == low then high else Root(parent, rank, i)
    {
      LinkRoot(parent, rank, low, high, i);
    }
  }

  lemma MovedClass(parent: seq<nat>, rank: seq<nat>, parent': seq<nat>, rank': seq<nat>, low: nat, high: nat, r: nat)
    requires Moved(parent, rank, parent', rank', low, high) && r != low && low != high
    ensures Class(parent', rank', r)
            == if r == high then Class(parent, rank, low) + Class(parent, rank, high) else Class(parent, rank, r)
  {
  }

  /** Compression keeps the classes, hence the balance. */
  lemma SameRootsBalanced(parent: seq<nat>, parent': seq<nat>, rank: seq<nat>)
    requires Balanced(parent, rank) && SameRoots(parent, parent', rank)
    ensures Balanced(parent', rank)
  {
    forall r | 0 <= r < |parent'| && parent'[r] == r
      ensures Pow2(rank[r]) <= |Class(parent', rank, r)|
    {
      assert Root(parent', rank, r) == r;
      assert Class(parent', rank, r) == Class(parent, rank, r);
    }
  }

  /** Two cells have the same root after a union when they had before, or when a and b join them. */
  ghost predicate JoinedPair(parent: seq<nat>, rank: seq<nat>, a: nat, b: nat, i: nat, j: nat)
    requires Valid(parent, rank) && a < |parent| && b < |parent| && i < |parent| && j < |parent|
  {
    var ra, rb, ri, rj := Root(parent, rank, a), Root(parent, rank, b), Root(parent, rank, i), Root(parent, rank, j);
    ri == rj || ((ri == ra || ri == rb) && (rj == ra || rj == rb))
  }

  ghost predicate Joined(parent: seq<nat>, rank: seq<nat>, parent': seq<nat>, rank': seq<nat>, a: nat, b: nat)
    requires Valid(parent, rank) && a < |parent| && b < |parent|
  {
    && Valid(parent', rank') && |parent'| == |parent|
    && forall i, j :: 0 <= i < |parent| && 0 <= j < |parent| ==>
         (Root(parent', rank', i) == Root(parent', rank', j) <==> JoinedPair(parent, rank, a, b, i, j))
  }

  /** Links the root of lower rank below the other; equal ranks raise the (8-bit) rank of a's root. */
  method Union(parent: array<nat>, rank: array<nat>, a: nat, b: nat)
    requires parent != rank && parent.Length == rank.Length <= 0xFFFF_FFFF
    requires Balanced(parent[..], rank[..]) && a < parent.Length && b < parent.Length
    modifies parent, rank
    ensures Balanced(parent[..], rank[..])
    ensures Joined(old(parent[..]), old(rank[..]), parent[..], rank[..], a, b)
  {
    ghost var start, ranks := parent[..], rank[..];
    var rootA := Find(parent, a, ranks);
    var rootB := Find(parent, b, ranks);
    SameRootsBalanced(start, parent[..], ranks);
    assert rank[..] == ranks;
    if rootA == rootB {
      return;
    }
    assert Root(parent[..], ranks, rootA) == rootA;
    JoinRoots(start, parent[..], ranks, rootA, rootB, a, b);
    Link(parent, rank, rootA, rootB);
  }

  method Link(parent: array<nat>, rank: array<nat>, rootA: nat, rootB: nat)
    requires parent != rank && parent.Length == rank.Length <= 0xFFFF_FFFF
    requires Balanced(parent[..], rank[..]) && rootA < parent.Length && rootB < parent.Length && rootA != rootB
    requires parent[rootA] == rootA && parent[rootB] == rootB
    modifies parent, rank
    ensures parent[..] == Linked(old(parent[..]), old(rank[..]), rootA, rootB)
    ensures rank[..] == LinkedRanks(old(rank[..]), rootA, rootB)
  {
    RankBound(parent[..], rank[..], rootA);
    if rank[rootA] < rank[rootB] {
      parent[rootA] := rootB;
    } else if rank[rootA] > rank[rootB] {
      parent[rootB] := rootA;
    } else {
      parent[rootB] := rootA;
      rank[rootA] := (rank[rootA] + 1) % 256;
    }
  }

  ghost function Linked(parent: seq<nat>, rank: seq<nat>, rootA: nat, rootB: nat): (r: seq<nat>)
    requires |parent| == |rank| && rootA < |parent| && rootB < |parent|
  {
    if rank[rootA] < rank[rootB] then parent[rootA := rootB] else parent[rootB := rootA]
  }

  ghost function LinkedRanks(rank: seq<nat>, rootA: nat, rootB: nat): (r: seq<nat>)
    requires rootA < |rank| && rootB < |rank|
  {
    if rank[rootA] < rank[rootB] then Raised(rank, rootA, rootB) else Raised(rank, rootB, rootA)
  }

  lemma JoinRoots(start: seq<nat>, parent: seq<nat>, rank: seq<nat>, rootA: nat, rootB: nat, a: nat, b: nat)
    requires Balanced(parent, rank) && Valid(start, rank) && SameRoots(start, parent, rank)
    requires a < |parent| && b < |parent| && rootA == Root(start, rank, a) && rootB == Root(start, rank, b)
    requires parent[rootA] == rootA && parent[rootB] == rootB && rootA != rootB
    ensures var parent', rank' := Linked(parent, rank, rootA, rootB), LinkedRanks(rank, rootA, rootB);
            Balanced(parent', rank') && Joined(start, rank, parent', rank', a, b)
  {
    if rank[rootA] < rank[rootB] {
      LinkBalanced(parent, rank, rootA, rootB);
      LinkMoves(parent, rank, rootA, rootB);
      MovedJoins(start, parent, rank, Linked(parent, rank, rootA, rootB), LinkedRanks(rank, rootA, rootB), rootA, rootB, a, b);
    } else {
      LinkBalanced(parent, rank, rootB, rootA);
      LinkMoves(parent, rank, rootB, rootA);
      MovedJoins(start, parent, rank, Linked(parent, rank, rootA, rootB), LinkedRanks(rank, rootA, rootB), rootB, rootA, a, b);
    }
  }

  lemma MovedJoins(start: seq<nat>, parent: seq<nat>, rank: seq<nat>, parent': seq<nat>, rank': seq<nat>,
                   low: nat, high: nat, a: nat, b: nat)
    requires Valid(start, rank) && SameRoots(start, parent, rank) && Moved(parent, rank, parent', rank', low, high)
    requires |start| == |parent| && a < |start| && b < |start|
    requires (low == Root(start, rank, a) && high == Root(start, rank, b)) ||
             (low == Root(start, rank, b) && high == Root(start, rank, a))
    ensures Joined(start, rank, parent', rank', a, b)
  {
    forall i, j | 0 <= i < |start| && 0 <= j < |start|
      ensures Root(parent', rank', i) == Root(parent', rank', j) <==> JoinedPair(start, rank, a, b, i, j)
    {
      assert Root(parent, rank, i) == Root(start, rank, i) && Root(parent, rank, j) == Root(start, rank, j);
    }
  }
}
