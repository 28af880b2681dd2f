/**
 * What a refused elimination says about the matrix it started from, and which matrices it refuses.  Followed
 * backwards, row operations carry the small entries of a column without a pivot back to the start; followed forwards,
 * a pivot of largest magnitude at most doubles what the rows below it make of a vector.
 */
module Refusal {
  import opened Geometry
  import opened Sums
  import opened Elimination

  /** What a row's left half makes of a vector. */
  ghost function LeftDot(row: seq<real>, n: nat, v: Vector): (r: real) { Dot(n, Left(row), v) }

  /** Column k of g is, up to t in every entry, a combination of the columns before it: v has a one at k and ends there. */
  ghost predicate NearlyDependent(n: nat, g: Matrix, k: nat, v: Vector, t: real) {
    && k < n && v(k) == 1.0 && (forall j :: k < j < n ==> v(j) == 0.0)
    && forall i :: 0 <= i < n ==> Abs(Apply(n, g, v)(i)) <= t
  }

  /** The left block is g itself. */
  ghost predicate Begins(rows: Rows, n: nat, g: Matrix) {
    Reached(rows, n, g, 0) && forall i, j :: 0 <= i < n && 0 <= j < n ==> rows[i][j] == g(i, j)
  }

  lemma BeginsDot(rows: Rows, n: nat, g: Matrix, v: Vector, i: nat)
    requires Begins(rows, n, g) && i < n
    ensures LeftDot(rows[i], n, v) == Apply(n, g, v)(i)
  {
    DotEqual(n, Left(rows[i]), v, Row(g, i), v);
  }

  // ----- One column ---------------------------------------------------------------------------------

  lemma {:induction false} ClearedRow(rows: Rows, n: nat, k: nat, c: nat, i: nat)
    requires Augmented(rows, n) && k < n && c <= n && i < n
    ensures Cleared(rows, n, k, c)[i]
         == if i < c && i != k then Subtracted(rows[i], rows[k], rows[i][k]) else rows[i]
  {
    if c > 0 { ClearedRow(rows, n, k, c - 1, i); }
  }

  lemma DividedLeft(row: seq<real>, n: nat, d: real, v: Vector)
    requires d != 0.0 && |row| == 2 * n
    ensures Product(LeftDot(Divided(row, d), n, v), d) == LeftDot(row, n, v)
  {
    forall i | 0 <= i < n ensures Left(Divided(row, d))(i) == Scaled(1.0 / d, Left(row))(i) {
      Reciprocal(row[i], d);
    }
    DotEqual(n, Left(Divided(row, d)), v, Scaled(1.0 / d, Left(row)), v);
    DotScaled(n, 1.0 / d, Left(row), v);
    Reciprocal(LeftDot(row, n, v), d);
  }

  lemma SubtractedLeft(row: seq<real>, pivot: seq<real>, n: nat, f: real, v: Vector)
    requires |row| == |pivot| == 2 * n
    ensures LeftDot(Subtracted(row, pivot, f), n, v) == LeftDot(row, n, v) - f * LeftDot(pivot, n, v)
  {
    DotScaled(n, -f, Left(pivot), v);
    DotPlus(n, Left(row), Scaled(-f, Left(pivot)), v);
    DotEqual(n, Left(Subtracted(row, pivot, f)), v, Plus(Left(row), Scaled(-f, Left(pivot))), v);
  }

  /** Where row i of the matrix after a column comes from: the pivot row and row k have changed places. */
  function Origin(i: nat, k: nat, p: nat): (j: nat) { if i == k then p else if i == p then k else i }

  /** A row after one column, in terms of the rows before it. */
  lemma SweptRow(rows: Rows, n: nat, k: nat, i: nat)
    requires Augmented(rows, n) && k < n && i < n && Sweep(rows, n, k).Some?
    ensures var p := FirstLargest(rows, k, n);
            var r, row, pivot := Sweep(rows, n, k).value, rows[Origin(i, k, p)], Divided(rows[p], rows[p][k]);
            |row| == |pivot| == 2 * n && r[i] == if i == k then pivot else Subtracted(row, pivot, row[k])
  {
    var s := Normalised(Swapped(rows, k, FirstLargest(rows, k, n)), k);
    ClearedRow(s, n, k, n, i);
  }

  /** What one column of the elimination does to the value of every row; the pivot row comes to y. */
  lemma SweptDot(rows: Rows, n: nat, k: nat, v: Vector, i: nat) returns (y: real)
    requires Augmented(rows, n) && k < n && i < n && Sweep(rows, n, k).Some?
    ensures var p := FirstLargest(rows, k, n); Product(y, rows[p][k]) == LeftDot(rows[p], n, v)
    ensures var before := rows[Origin(i, k, FirstLargest(rows, k, n))];
            LeftDot(Sweep(rows, n, k).value[i], n, v)
            == if i == k then y else LeftDot(before, n, v) - Product(before[k], y)
  {
    var p := FirstLargest(rows, k, n);
    SweptRow(rows, n, k, i);
    y := SweptValue(rows[Origin(i, k, p)], rows[p], n, k, v);
  }

  lemma SweptValue(before: seq<real>, pivot: seq<real>, n: nat, k: nat, v: Vector) returns (y: real)
    requires |before| == |pivot| == 2 * n && k < n && pivot[k] != 0.0
    ensures y == LeftDot(Divided(pivot, pivot[k]), n, v) && Product(y, pivot[k]) == LeftDot(pivot, n, v)
    ensures LeftDot(Subtracted(before, Divided(pivot, pivot[k]), before[k]), n, v)
         == LeftDot(before, n, v) - Product(before[k], y)
  {
    y := LeftDot(Divided(pivot, pivot[k]), n, v);
    DividedLeft(pivot, n, pivot[k], v);
    SubtractedLeft(before, Divided(pivot, pivot[k]), n, before[k], v);
  }

  // ----- Backwards ----------------------------------------------------------------------------------

  /** The first k rows send v to zero and the others to t at most. */
  ghost predicate Small(rows: Rows, n: nat, k: nat, v: Vector, t: real) {
    && Augmented(rows, n)
    && (forall i :: 0 <= i < n && i < k ==> LeftDot(rows[i], n, v) == 0.0)
    && forall i :: 0 <= i < n ==> Abs(LeftDot(rows[i], n, v)) <= t
  }

  /** When the pivot row sends v to zero after a column, every row makes of v what it made before. */
  lemma SweptSame(rows: Rows, n: nat, k: nat, v: Vector, i: nat)
    requires Augmented(rows, n) && k < n && i < n && Sweep(rows, n, k).Some?
    requires LeftDot(Sweep(rows, n, k).value[k], n, v) == 0.0
    ensures LeftDot(rows[Origin(i, k, FirstLargest(rows, k, n))], n, v) == LeftDot(Sweep(rows, n, k).value[i], n, v)
  {
    var y := SweptDot(rows, n, k, v, k);
    y := SweptDot(rows, n, k, v, i);
  }

  lemma SweepBack(rows: Rows, n: nat, k: nat, v: Vector, t: real)
    requires Augmented(rows, n) && k < n && Sweep(rows, n, k).Some? && Small(Sweep(rows, n, k).value, n, k + 1, v, t)
    ensures Small(rows, n, k, v, t)
  {
    var p := FirstLargest(rows, k, n);
    forall j | 0 <= j < n
      ensures LeftDot(rows[j], n, v) == LeftDot(Sweep(rows, n, k).value[Origin(j, k, p)], n, v)
    {
      SweptSame(rows, n, k, v, Origin(j, k, p));
    }
  }

  lemma {:induction false} EliminatedBack(rows: Rows, n: nat, k: nat, v: Vector, t: real)
    requires Augmented(rows, n) && k <= n && Eliminated(rows, n, k).Some? && Small(Eliminated(rows, n, k).value, n, k, v, t)
    ensures Small(rows, n, 0, v, t)
  {
    if k > 0 {
      SweepBack(Eliminated(rows, n, k - 1).value, n, k - 1, v, t);
      EliminatedBack(rows, n, k - 1, v, t);
    }
  }

  /** The column at which the elimination gives up, and the rows it has then. */
  lemma {:induction false} RefusedAt(rows: Rows, n: nat, g: Matrix, k: nat) returns (j: nat)
    requires Reached(rows, n, g, 0) && k <= n && Eliminated(rows, n, k).None?
    ensures j < k && Eliminated(rows, n, j).Some?
    ensures Reached(Eliminated(rows, n, j).value, n, g, j) && Stalled(Eliminated(rows, n, j).value, n, j)
  {
    match Eliminated(rows, n, k - 1)
    case None => j := RefusedAt(rows, n, g, k - 1);
    case Some(r) =>
      j := k - 1;
      EliminationReaches(rows, n, g, j);
      SweepKeeps(r, n, g, j);
  }

  /** A refused matrix has a column that the earlier ones give up to the tolerance, entry by entry. */
  lemma RefusedIsNear(rows: Rows, n: nat, g: Matrix) returns (k: nat, v: Vector)
    requires Begins(rows, n, g) && Eliminated(rows, n, n).None?
    ensures NearlyDependent(n, g, k, v, PIVOT_TOLERANCE)
  {
    k := RefusedAt(rows, n, g, n);
    var r := Eliminated(rows, n, k).value;
    v := Combination(r, k);
    forall i | 0 <= i < n ensures LeftDot(r[i], n, v) == if i < k then 0.0 else r[i][k] {
      CombinedRow(r, n, k, i, n);
    }
    EliminatedBack(rows, n, k, v, PIVOT_TOLERANCE);
    forall i | 0 <= i < n ensures Abs(Apply(n, g, v)(i)) <= PIVOT_TOLERANCE {
      BeginsDot(rows, n, g, v, i);
    }
  }

  // ----- Forwards -----------------------------------------------------------------------------------

  ghost function Doubled(t: real, k: nat): (r: real) { if k == 0 then t else 2.0 * Doubled(t, k - 1) }

  /** The rows from k on send v to t at most. */
  ghost predicate SmallBelow(rows: Rows, n: nat, k: nat, v: Vector, t: real) {
    Augmented(rows, n) && forall i :: k <= i < n ==> Abs(LeftDot(rows[i], n, v)) <= t
  }

  lemma AbsProduct(a: real, b: real)
    ensures Abs(Product(a, b)) == Product(Abs(a), Abs(b)) == Product(Abs(b), Abs(a))
  {
  }

  lemma LargerTimes(a: real, b: real, c: real)
    requires a <= b && c >= 0.0
    ensures Product(a, c) <= Product(b, c)
  {
  }

  /** A multiplier never exceeds one, because the pivot is the largest candidate. */
  lemma Multiplied(s: real, d: real, x: real, y: real, t: real)
    requires Abs(s) <= Abs(d) && Abs(x) <= t && Product(y, d) == x
    ensures Abs(Product(s, y)) <= t
  {
    AbsProduct(s, y);
    AbsProduct(y, d);
    LargerTimes(Abs(s), Abs(d), Abs(y));
  }

  /** A difference of two values up to t. */
  lemma Difference(a: real, b: real, t: real)
    requires Abs(a) <= t && Abs(b) <= t
    ensures Abs(a - b) <= 2.0 * t
  {
  }

  lemma SweepGrows(rows: Rows, n: nat, k: nat, v: Vector, t: real)
    requires k < n && SmallBelow(rows, n, k, v, t) && Sweep(rows, n, k).Some?
    ensures SmallBelow(Sweep(rows, n, k).value, n, k + 1, v, 2.0 * t)
  {
    var p := FirstLargest(rows, k, n);
    forall i | k + 1 <= i < n ensures Abs(LeftDot(Sweep(rows, n, k).value[i], n, v)) <= 2.0 * t {
      var before := rows[Origin(i, k, p)];
      var y := SweptDot(rows, n, k, v, i);
      Multiplied(before[k], rows[p][k], LeftDot(rows[p], n, v), y, t);
      Difference(LeftDot(before, n, v), Product(before[k], y), t);
    }
  }

  lemma {:induction false} EliminatedGrows(rows: Rows, n: nat, k: nat, v: Vector, t: real)
    requires k <= n && SmallBelow(rows, n, 0, v, t) && Eliminated(rows, n, k).Some?
    ensures SmallBelow(Eliminated(rows, n, k).value, n, k, v, Doubled(t, k))
  {
    if k > 0 {
      EliminatedGrows(rows, n, k - 1, v, t);
      SweepGrows(Eliminated(rows, n, k - 1).value, n, k - 1, v, Doubled(t, k - 1));
    }
  }

  /** Below the reduced columns a row meets v in column k alone. */
  lemma {:induction false} LowerRow(rows: Rows, n: nat, k: nat, i: nat, v: Vector, m: nat)
    requires Reduced(rows, n, k) && k <= i < n && m <= n && v(k) == 1.0 && forall j :: k < j < n ==> v(j) == 0.0
    ensures LeftDot(rows[i], m, v) == if k < m then rows[i][k] else 0.0
  {
    if m > 0 {
      LowerRow(rows, n, k, i, v, m - 1);
      var j := m - 1;
      assert Times(Left(rows[i]), v)(j) == rows[i][j] * v(j);
      if j < k { assert rows[i][j] == Delta(i, j); }
    }
  }

  lemma NoPivot(r: Rows, n: nat, k: nat, v: Vector, t: real)
    requires Reduced(r, n, k) && k < n && SmallBelow(r, n, k, v, t) && t <= PIVOT_TOLERANCE
    requires v(k) == 1.0 && forall j :: k < j < n ==> v(j) == 0.0
    ensures Sweep(r, n, k).None?
  {
    LowerRow(r, n, k, FirstLargest(r, k, n), v, n);
  }

  /** Where one column depends on the earlier ones up to t, and t doubled for each of them is tolerable, g is refused. */
  lemma NearIsRefused(rows: Rows, n: nat, g: Matrix, k: nat, v: Vector, t: real)
    requires Begins(rows, n, g) && NearlyDependent(n, g, k, v, t) && Doubled(t, k) <= PIVOT_TOLERANCE
    ensures Eliminated(rows, n, k + 1).None? && Eliminated(rows, n, n).None?
  {
    forall i | 0 <= i < n ensures Abs(LeftDot(rows[i], n, v)) <= t {
      BeginsDot(rows, n, g, v, i);
    }
    if Eliminated(rows, n, k).Some? {
      EliminatedGrows(rows, n, k, v, t);
      EliminationReaches(rows, n, g, k);
      NoPivot(Eliminated(rows, n, k).value, n, k, v, Doubled(t, k));
    }
    StaysRefused(rows, n, k + 1, n);
  }
}
