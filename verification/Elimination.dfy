/** Gauss-Jordan elimination with partial pivoting, as a function of the augmented matrix [left | right]. */
module Elimination {
  import opened Geometry
  import opened Sums

  const PIVOT_TOLERANCE := 0.00000000000001

  type Rows = seq<seq<real>>

  /** n rows, each of a left and a right half of n entries. */
  ghost predicate Augmented(rows: Rows, n: nat) {
    |rows| == n && forall i :: 0 <= i < n ==> |rows[i]| == 2 * n
  }

  // ----- Row operations -----------------------------------------------------------------------------

  ghost function Divided(row: seq<real>, d: real): (r: seq<real>)
    requires d != 0.0
    ensures |r| == |row| && forall j :: 0 <= j < |row| ==> r[j] == row[j] / d
  {
    seq(|row|, j requires 0 <= j < |row| => row[j] / d)
  }

  ghost function Subtracted(row: seq<real>, pivot: seq<real>, f: real): (r: seq<real>)
    requires |row| == |pivot|
    ensures |r| == |row| && forall j :: 0 <= j < |row| ==> r[j] == row[j] - f * pivot[j]
  {
    seq(|row|, j requires 0 <= j < |row| => row[j] - f * pivot[j])
  }

  /** The first of the rows from k on, below `end`, whose entry in column k is largest in magnitude. */
  ghost function FirstLargest(rows: Rows, k: nat, end: nat): (p: nat)
    requires k < end <= |rows| && forall i :: k <= i < end ==> k < |rows[i]|
    ensures k <= p < end && forall i :: k <= i < end ==> Abs(rows[i][k]) <= Abs(rows[p][k])
    ensures forall i :: k <= i < p ==> Abs(rows[i][k]) < Abs(rows[p][k])
  {
    if end == k + 1 then k
    else
      var p := FirstLargest(rows, k, end - 1);
      if Abs(rows[end - 1][k]) > Abs(rows[p][k]) then end - 1 else p
  }

  ghost function Swapped(rows: Rows, k: nat, p: nat): (r: Rows)
    requires k < |rows| && p < |rows|
  {
    rows[k := rows[p]][p := rows[k]]
  }

  ghost function Normalised(rows: Rows, k: nat): (r: Rows)
    requires k < |rows| && k < |rows[k]| && rows[k][k] != 0.0
  {
    rows[k := Divided(rows[k], rows[k][k])]
  }

  /** The rows below c, other than the k-th, cleared of column k. */
  ghost function Cleared(rows: Rows, n: nat, k: nat, c: nat): (r: Rows)
    requires Augmented(rows, n) && k < n && c <= n
    ensures Augmented(r, n) && r[k] == rows[k] && forall i :: c <= i < n ==> r[i] == rows[i]
  {
    if c == 0 then rows
    else
      var r := Cleared(rows, n, k, c - 1);
      if c - 1 == k then r else r[c - 1 := Subtracted(r[c - 1], r[k], r[c - 1][k])]
  }

  /** One column of the elimination; none when no pivot exceeds the tolerance. */
  ghost function Sweep(rows: Rows, n: nat, k: nat): (r: Option<Rows>)
    requires Augmented(rows, n) && k < n
    ensures r.Some? ==> Augmented(r.value, n)
  {
    var p := FirstLargest(rows, k, n);
    if Abs(rows[p][k]) <= PIVOT_TOLERANCE then None
    else Some(Cleared(Normalised(Swapped(rows, k, p), k), n, k, n))
  }

  /** The first k columns of the elimination. */
  ghost function Eliminated(rows: Rows, n: nat, k: nat): (r: Option<Rows>)
    requires Augmented(rows, n) && k <= n
    ensures r.Some? ==> Augmented(r.value, n)
  {
    if k == 0 then Some(rows)
    else
      match Eliminated(rows, n, k - 1)
      case None => None
      case Some(r) => Sweep(r, n, k - 1)
  }

  lemma {:induction false} StaysRefused(rows: Rows, n: nat, k: nat, end: nat)
    requires Augmented(rows, n) && k <= end <= n && Eliminated(rows, n, k).None?
    ensures Eliminated(rows, n, end).None?
  {
    if k < end { StaysRefused(rows, n, k, end - 1); }
  }

  // ----- What the row operations keep ---------------------------------------------------------------

  ghost function Right(row: seq<real>, n: nat): (r: Vector) {
    (k: nat) => if n + k < |row| then row[n + k] else 0.0
  }

  ghost function Left(row: seq<real>): (r: Vector) {
    (k: nat) => if k < |row| then row[k] else 0.0
  }

  lemma DividedDot(row: seq<real>, n: nat, d: real, v: Vector)
    requires d != 0.0 && |row| == 2 * n
    ensures Dot(n, Right(Divided(row, d), n), v) == 1.0 / d * Dot(n, Right(row, n), v)
  {
    forall i | 0 <= i < 2 * n ensures Divided(row, d)[i] == 1.0 / d * row[i] {
      Reciprocal(row[i], d);
    }
    DotScaled(n, 1.0 / d, Right(row, n), v);
    DotEqual(n, Right(Divided(row, d), n), v, Scaled(1.0 / d, Right(row, n)), v);
  }

  lemma Reciprocal(x: real, d: real)
    requires d != 0.0
    ensures x / d == 1.0 / d * x
    ensures 1.0 / d * x == 0.0 ==> x == 0.0
  {
    if 1.0 / d * x == 0.0 { assert x / d * d == x; }
  }

  lemma SubtractedDot(row: seq<real>, pivot: seq<real>, n: nat, f: real, v: Vector)
    requires |row| == |pivot| == 2 * n
    ensures Dot(n, Right(Subtracted(row, pivot, f), n), v) == Dot(n, Right(row, n), v) - f * Dot(n, Right(pivot, n), v)
  {
    DotScaled(n, -f, Right(pivot, n), v);
    DotPlus(n, Right(row, n), Scaled(-f, Right(pivot, n)), v);
    DotEqual(n, Right(Subtracted(row, pivot, f), n), v, Plus(Right(row, n), Scaled(-f, Right(pivot, n))), v);
  }

  /** The left half of a row is its right half times g. */
  ghost predicate RowOk(row: seq<real>, n: nat, g: Matrix) {
    |row| == 2 * n && forall j :: 0 <= j < n ==> row[j] == Dot(n, Right(row, n), Column(g, j))
  }

  lemma DividedRow(row: seq<real>, n: nat, g: Matrix, d: real)
    requires RowOk(row, n, g) && d != 0.0
    ensures RowOk(Divided(row, d), n, g)
  {
    forall j | 0 <= j < n ensures Divided(row, d)[j] == Dot(n, Right(Divided(row, d), n), Column(g, j)) {
      DividedDot(row, n, d, Column(g, j));
      Reciprocal(row[j], d);
    }
  }

  lemma SubtractedRow(row: seq<real>, pivot: seq<real>, n: nat, g: Matrix, f: real)
    requires RowOk(row, n, g) && RowOk(pivot, n, g)
    ensures RowOk(Subtracted(row, pivot, f), n, g)
  {
    forall j | 0 <= j < n
      ensures Subtracted(row, pivot, f)[j] == Dot(n, Right(Subtracted(row, pivot, f), n), Column(g, j))
    {
      SubtractedDot(row, pivot, n, f, Column(g, j));
    }
  }

  /** Every row is consistent: the left block is the right block times g. */
  ghost predicate Consistent(rows: Rows, n: nat, g: Matrix) {
    |rows| == n && forall i :: 0 <= i < n ==> RowOk(rows[i], n, g)
  }

  /** The right block sends this vector to zero. */
  ghost predicate Killed(rows: Rows, n: nat, v: Vector) {
    |rows| == n && forall i :: 0 <= i < n ==> Dot(n, Right(rows[i], n), v) == 0.0
  }

  ghost predicate ZeroVector(n: nat, v: Vector) {
    forall k :: 0 <= k < n ==> v(k) == 0.0
  }

  /** The right block is invertible: it sends no vector but zero to zero. */
  ghost predicate Regular(rows: Rows, n: nat) {
    Augmented(rows, n) && forall v: Vector :: Killed(rows, n, v) ==> ZeroVector(n, v)
  }

  /** The first `done` columns have become unit columns. */
  ghost predicate Reduced(rows: Rows, n: nat, done: nat) {
    Augmented(rows, n) && done <= n && forall i, j :: 0 <= i < n && 0 <= j < done ==> rows[i][j] == Delta(i, j)
  }

  /** Column k offers no pivot above the tolerance although the earlier columns are reduced. */
  ghost predicate Stalled(rows: Rows, n: nat, k: nat) {
    Reduced(rows, n, k) && k < n && forall i :: k <= i < n ==> Abs(rows[i][k]) <= PIVOT_TOLERANCE
  }

  /** Reached from [g | 1] by reversible row operations, with the first k columns done. */
  ghost predicate Reached(rows: Rows, n: nat, g: Matrix, k: nat) {
    Consistent(rows, n, g) && Regular(rows, n) && Reduced(rows, n, k)
  }

  lemma SwapKeeps(rows: Rows, n: nat, g: Matrix, k: nat, p: nat)
    requires Reached(rows, n, g, k) && k <= p < n
    ensures Reached(Swapped(rows, k, p), n, g, k)
  {
    var s := Swapped(rows, k, p);
    forall v: Vector | Killed(s, n, v) ensures ZeroVector(n, v) {
      forall i | 0 <= i < n ensures Dot(n, Right(rows[i], n), v) == 0.0 {
        assert rows[i] == s[if i == k then p else if i == p then k else i];
      }
      assert Killed(rows, n, v);
    }
  }

  lemma NormaliseKeeps(rows: Rows, n: nat, g: Matrix, k: nat)
    requires Reached(rows, n, g, k) && k < n && rows[k][k] != 0.0
    ensures Reached(Normalised(rows, k), n, g, k) && Normalised(rows, k)[k][k] == 1.0
  {
    var d := rows[k][k];
    var s := Normalised(rows, k);
    DividedRow(rows[k], n, g, d);
    forall v: Vector | Killed(s, n, v) ensures ZeroVector(n, v) {
      forall i | 0 <= i < n ensures Dot(n, Right(rows[i], n), v) == 0.0 {
        if i == k {
          DividedDot(rows[k], n, d, v);
          assert Dot(n, Right(s[k], n), v) == 0.0;
          Reciprocal(Dot(n, Right(rows[k], n), v), d);
        } else {
          assert s[i] == rows[i];
        }
      }
      assert Killed(rows, n, v);
    }
    forall i, j | 0 <= i < n && 0 <= j < k ensures s[i][j] == Delta(i, j) {
      assert rows[i][j] == Delta(i, j);
    }
  }

  lemma SubtractKeeps(rows: Rows, n: nat, g: Matrix, k: nat, c: nat, f: real)
    requires Reached(rows, n, g, k) && k < n && c < n && c != k
    ensures Reached(rows[c := Subtracted(rows[c], rows[k], f)], n, g, k)
  {
    var s := rows[c := Subtracted(rows[c], rows[k], f)];
    SubtractedRow(rows[c], rows[k], n, g, f);
    forall v: Vector | Killed(s, n, v) ensures ZeroVector(n, v) {
      forall i | 0 <= i < n ensures Dot(n, Right(rows[i], n), v) == 0.0 {
        assert Dot(n, Right(s[i], n), v) == 0.0 && Dot(n, Right(s[k], n), v) == 0.0;
        if i == c { SubtractedDot(rows[c], rows[k], n, f, v); }
      }
      assert Killed(rows, n, v);
    }
    forall i, j | 0 <= i < n && 0 <= j < k ensures s[i][j] == Delta(i, j) {
      assert rows[i][j] == Delta(i, j) && rows[k][j] == Delta(k, j);
    }
  }

  lemma {:induction false} ClearKeeps(rows: Rows, n: nat, g: Matrix, k: nat, c: nat)
    requires Reached(rows, n, g, k) && k < n && c <= n && rows[k][k] == 1.0
    ensures Reached(Cleared(rows, n, k, c), n, g, k)
    ensures forall i :: 0 <= i < c ==> Cleared(rows, n, k, c)[i][k] == Delta(i, k)
  {
    if c > 0 {
      ClearKeeps(rows, n, g, k, c - 1);
      var r := Cleared(rows, n, k, c - 1);
      if c - 1 != k { SubtractKeeps(r, n, g, k, c - 1, r[c - 1][k]); }
    }
  }

  lemma SweepKeeps(rows: Rows, n: nat, g: Matrix, k: nat)
    requires Reached(rows, n, g, k) && k < n
    ensures match Sweep(rows, n, k) case Some(r) => Reached(r, n, g, k + 1) case None => Stalled(rows, n, k)
  {
    var p := FirstLargest(rows, k, n);
    if Abs(rows[p][k]) > PIVOT_TOLERANCE {
      SwapKeeps(rows, n, g, k, p);
      var s := Swapped(rows, k, p);
      NormaliseKeeps(s, n, g, k);
      ClearKeeps(Normalised(s, k), n, g, k, n);
    }
  }

  /** As long as it goes on, the elimination has the left block reached and its columns done. */
  lemma {:induction false} EliminationReaches(rows: Rows, n: nat, g: Matrix, k: nat)
    requires Reached(rows, n, g, 0) && k <= n && Eliminated(rows, n, k).Some?
    ensures Reached(Eliminated(rows, n, k).value, n, g, k)
  {
    if k > 0 {
      EliminationReaches(rows, n, g, k - 1);
      ReachesNext(Eliminated(rows, n, k - 1).value, n, g, k - 1, Eliminated(rows, n, k));
    }
  }

  lemma ReachesNext(rows: Rows, n: nat, g: Matrix, k: nat, next: Option<Rows>)
    requires Reached(rows, n, g, k) && k < n && next == Sweep(rows, n, k) && next.Some?
    ensures Reached(next.value, n, g, k + 1)
  {
    SweepKeeps(rows, n, g, k);
  }

  // ----- What the outcome says about g --------------------------------------------------------------

  /** The combination of columns that gives column k in terms of the earlier ones. */
  ghost function Combination(rows: Rows, k: nat): (r: Vector) {
    (j: nat) => if j < k then (if j < |rows| && k < |rows[j]| then -rows[j][k] else 0.0) else Delta(j, k)
  }

  /** Up to column k only the unit columns and column k count. */
  lemma {:induction false} CombinedRow(rows: Rows, n: nat, k: nat, i: nat, m: nat)
    requires Reduced(rows, n, k) && k < n && i < n && m <= n
    ensures Dot(m, Left(rows[i]), Combination(rows, k))
         == (if i < k && i < m then -rows[i][k] else 0.0) + (if k < m then rows[i][k] else 0.0)
  {
    if m > 0 {
      CombinedRow(rows, n, k, i, m - 1);
      var j := m - 1;
      var term := Left(rows[i])(j) * Combination(rows, k)(j);
      assert Times(Left(rows[i]), Combination(rows, k))(j) == term;
      if j < k {
        assert rows[i][j] == Delta(i, j);
        assert term == if i == j then -rows[i][k] else 0.0;
      } else {
        assert term == if j == k then rows[i][k] else 0.0;
      }
    }
  }

  /** The right block applied to g v is the left block applied to v. */
  lemma LeftIsRightTimes(rows: Rows, n: nat, g: Matrix, v: Vector, i: nat)
    requires Consistent(rows, n, g) && i < n
    ensures Dot(n, Right(rows[i], n), Apply(n, g, v)) == Dot(n, Left(rows[i]), v)
  {
    var x := Right(rows[i], n);
    DotApply(n, n, x, g, v);
    forall j | 0 <= j < n ensures Apply(n, Transposed(g), x)(j) == Left(rows[i])(j) {
      DotEqual(n, Row(Transposed(g), j), x, Column(g, j), x);
      DotCommutes(n, Column(g, j), x);
    }
    DotEqual(n, Apply(n, Transposed(g), x), v, Left(rows[i]), v);
  }

  /** Where the candidates for the pivot are all zero, a combination of the columns of g with a coefficient one is zero. */
  lemma StalledOnZeros(rows: Rows, n: nat, g: Matrix, k: nat)
    requires Reached(rows, n, g, k) && k < n && forall i :: k <= i < n ==> rows[i][k] == 0.0
    ensures Combination(rows, k)(k) == 1.0 && ZeroVector(n, Apply(n, g, Combination(rows, k)))
  {
    var v := Combination(rows, k);
    forall i | 0 <= i < n ensures Dot(n, Right(rows[i], n), Apply(n, g, v)) == 0.0 {
      LeftIsRightTimes(rows, n, g, v, i);
      CombinedRow(rows, n, k, i, n);
    }
    assert Killed(rows, n, Apply(n, g, v));
  }

  /** A matrix that sends a vector other than zero to zero is never reduced all the way. */
  lemma SingularIsRefused(rows: Rows, n: nat, g: Matrix, v: Vector)
    requires Reached(rows, n, g, 0) && ZeroVector(n, Apply(n, g, v)) && !ZeroVector(n, v)
    ensures Eliminated(rows, n, n).None?
  {
    if Eliminated(rows, n, n).Some? {
      EliminationReaches(rows, n, g, n);
      var r := Eliminated(rows, n, n).value;
      forall k | 0 <= k < n ensures v(k) == 0.0 {
        LeftIsRightTimes(r, n, g, v, k);
        DotCommutes(n, Right(r[k], n), Apply(n, g, v));
        SumZero(n, Times(Right(r[k], n), Apply(n, g, v)));
        DotEqual(n, Left(r[k]), v, Unit(k), v);
        DotUnit(n, v, k);
      }
    }
  }
}
