/** Sums over the undirected edges between the first n points, each edge taken once. */
module EdgeSums {
  import opened Chains

  type Weight = (nat, nat) -> int

  ghost function RowSum(w: Weight, p: nat, q: nat): (r: int) {
    if p == 0 then 0 else RowSum(w, p - 1, q) + w(p - 1, q)
  }

  /** The sum of w(p, q) over p < q < n. */
  ghost function EdgeSum(w: Weight, n: nat): (r: int) {
    if n == 0 then 0 else EdgeSum(w, n - 1) + RowSum(w, n - 1, n - 1)
  }

  ghost function Added(v: Weight, w: Weight): (r: Weight) { (p: nat, q: nat) => v(p, q) + w(p, q) }

  lemma {:induction false} RowSumEqual(v: Weight, w: Weight, p: nat, q: nat)
    requires forall i :: 0 <= i < p ==> v(i, q) == w(i, q)
    ensures RowSum(v, p, q) == RowSum(w, p, q)
  {
    if p > 0 { RowSumEqual(v, w, p - 1, q); }
  }

  lemma {:induction false} EdgeSumEqual(v: Weight, w: Weight, n: nat)
    requires forall p: nat, q: nat :: p < q < n ==> v(p, q) == w(p, q)
    ensures EdgeSum(v, n) == EdgeSum(w, n)
  {
    if n > 0 {
      EdgeSumEqual(v, w, n - 1);
      RowSumEqual(v, w, n - 1, n - 1);
    }
  }

  lemma {:induction false} RowSumAdded(v: Weight, w: Weight, p: nat, q: nat)
    ensures RowSum(Added(v, w), p, q) == RowSum(v, p, q) + RowSum(w, p, q)
  {
    if p > 0 { RowSumAdded(v, w, p - 1, q); }
  }

  lemma {:induction false} EdgeSumAdded(v: Weight, w: Weight, n: nat)
    ensures EdgeSum(Added(v, w), n) == EdgeSum(v, n) + EdgeSum(w, n)
  {
    if n > 0 {
      EdgeSumAdded(v, w, n - 1);
      RowSumAdded(v, w, n - 1, n - 1);
    }
  }

  lemma {:induction false} RowSumEven(w: Weight, p: nat, q: nat) returns (half: int)
    requires forall i :: 0 <= i < p ==> w(i, q) % 2 == 0
    ensures RowSum(w, p, q) == 2 * half
  {
    if p == 0 { return 0; }
    half := RowSumEven(w, p - 1, q);
    half := half + w(p - 1, q) / 2;
  }

  /** Even weights have an even sum. */
  lemma {:induction false} EdgeSumEven(w: Weight, n: nat) returns (half: int)
    requires forall p: nat, q: nat :: p < q < n ==> w(p, q) % 2 == 0
    ensures EdgeSum(w, n) == 2 * half
  {
    if n == 0 { return 0; }
    half := EdgeSumEven(w, n - 1);
    var row := RowSumEven(w, n - 1, n - 1);
    half := half + row;
  }

  lemma {:induction false} RowSumSingle(w: Weight, p: nat, q: nat, a: nat, b: nat)
    requires a < b && forall i: nat, j: nat :: (i, j) != (a, b) && i < j ==> w(i, j) == 0
    requires p <= q
    ensures RowSum(w, p, q) == if q == b && a < p then w(a, b) else 0
  {
    if p > 0 { RowSumSingle(w, p - 1, q, a, b); }
  }

  /** A sum with one edge that counts. */
  lemma {:induction false} EdgeSumSingle(w: Weight, n: nat, a: nat, b: nat)
    requires a < b && forall i: nat, j: nat :: (i, j) != (a, b) && i < j ==> w(i, j) == 0
    ensures EdgeSum(w, n) == if b < n then w(a, b) else 0
  {
    if n > 0 {
      EdgeSumSingle(w, n - 1, a, b);
      RowSumSingle(w, n - 1, n - 1, a, b);
    }
  }

  lemma {:induction false} EdgeSumZero(w: Weight, n: nat)
    requires forall i: nat, j: nat :: i < j ==> w(i, j) == 0
    ensures EdgeSum(w, n) == 0
  {
    EdgeSumSingle(w, n, 0, 1);
  }

  /** The edges of a kind, each as often as one side {a, b} is that edge: once if the side is of that kind. */
  ghost function SideWeight(kind: (nat, nat) -> bool, a: nat, b: nat): (r: Weight) {
    (p: nat, q: nat) => if kind(p, q) then Joins(a, b, p, q) else 0
  }

  lemma SideIsCountedOnce(kind: (nat, nat) -> bool, a: nat, b: nat, n: nat)
    requires a < n && b < n && a != b && kind(a, b) == kind(b, a)
    ensures EdgeSum(SideWeight(kind, a, b), n) == if kind(a, b) then 1 else 0
  {
    var low, high := if a < b then a else b, if a < b then b else a;
    var w := SideWeight(kind, a, b);
    forall i: nat, j: nat | (i, j) != (low, high) && i < j ensures w(i, j) == 0 {
      assert Joins(a, b, i, j) == 0;
    }
    EdgeSumSingle(w, n, low, high);
  }
}
