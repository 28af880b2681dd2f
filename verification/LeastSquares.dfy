/**
 * The least-squares operator: in-place Gauss-Jordan elimination of the normal equations, exact
 * over the reals.
 */
module LeastSquares {
  import opened Geometry
  import opened Sums
  import opened Elimination
  import opened Refusal

  // ----- What a solved system means ---------------------------------------------------------

  /** Entry (r, c) of B^T B for a basis of m samples. */
  ghost function Gram(m: nat, b: Matrix): (r: Matrix) {
    (r: nat, c: nat) => Dot(m, Column(b, r), Column(b, c))
  }

  ghost predicate LeftInverse(m: nat, n: nat, o: Matrix, b: Matrix) {
    forall i, j :: 0 <= i < n && 0 <= j < n ==> Dot(m, Row(o, i), Column(b, j)) == Delta(i, j)
  }

  /** o = r B^T, as the last loops of the operator compute it. */
  ghost predicate IsProduct(m: nat, n: nat, o: Matrix, r: Matrix, b: Matrix) {
    forall i, s :: 0 <= i < n && 0 <= s < m ==> o(i, s) == Dot(n, Row(r, i), Row(b, s))
  }

  /** The reduced right block times B^T is a left inverse of B. */
  lemma ProductIsLeftInverse(m: nat, n: nat, o: Matrix, r: Matrix, b: Matrix)
    requires IsProduct(m, n, o, r, b) && LeftInverse(n, n, r, Gram(m, b))
    ensures LeftInverse(m, n, o, b)
  {
    forall i, j | 0 <= i < n && 0 <= j < n
      ensures Dot(m, Row(o, i), Column(b, j)) == Delta(i, j)
    {
      var x, y := Column(b, j), Row(r, i);
      forall s | 0 <= s < m
        ensures Row(o, i)(s) == Apply(n, b, y)(s)
      {
        DotCommutes(n, y, Row(b, s));
      }
      DotEqual(m, Row(o, i), x, Apply(n, b, y), x);
      DotCommutes(m, Apply(n, b, y), x);
      DotApply(m, n, x, b, y);
      forall k | 0 <= k < n
        ensures Apply(m, Transposed(b), x)(k) == Column(Gram(m, b), j)(k)
      {
        DotEqual(m, Row(Transposed(b), k), x, Column(b, k), x);
      }
      DotEqual(n, Apply(m, Transposed(b), x), y, Column(Gram(m, b), j), y);
      DotCommutes(n, Column(Gram(m, b), j), y);
    }
  }

  /** Applied to exact samples B c, a left inverse gives back the coefficients c. */
  lemma LeftInverseRecovers(m: nat, n: nat, o: Matrix, b: Matrix, c: Vector, i: nat)
    requires LeftInverse(m, n, o, b) && i < n
    ensures Dot(m, Row(o, i), Apply(n, b, c)) == c(i)
  {
    DotApply(m, n, Row(o, i), b, c);
    forall j | 0 <= j < n
      ensures Apply(m, Transposed(b), Row(o, i))(j) == Unit(i)(j)
    {
      DotEqual(m, Row(Transposed(b), j), Row(o, i), Column(b, j), Row(o, i));
      DotCommutes(m, Column(b, j), Row(o, i));
    }
    DotEqual(n, Apply(m, Transposed(b), Row(o, i)), c, Unit(i), c);
    DotUnit(n, c, i);
  }

  /** A basis with a left inverse has independent columns. */
  lemma LeftInverseInjective(m: nat, n: nat, o: Matrix, b: Matrix, c: Vector)
    requires LeftInverse(m, n, o, b)
    requires forall s :: 0 <= s < m ==> Apply(n, b, c)(s) == 0.0
    ensures forall i :: 0 <= i < n ==> c(i) == 0.0
  {
    forall i | 0 <= i < n
      ensures c(i) == 0.0
    {
      LeftInverseRecovers(m, n, o, b, c, i);
      SumZero(m, Times(Row(o, i), Apply(n, b, c)));
    }
  }

  lemma GramSymmetric(m: nat, b: Matrix, r: nat, c: nat)
    ensures Gram(m, b)(r, c) == Gram(m, b)(c, r)
  {
    DotCommutes(m, Column(b, r), Column(b, c));
  }

  /** The left inverse of a symmetric matrix is symmetric: r = r (g r^T) = (r g) r^T = r^T. */
  lemma InverseSymmetric(m: nat, n: nat, r: Matrix, b: Matrix, i: nat, j: nat)
    requires LeftInverse(n, n, r, Gram(m, b)) && i < n && j < n
    ensures r(i, j) == r(j, i)
  {
    var g := Gram(m, b);
    var x, y := Row(r, i), Row(r, j);
    // g y is the j-th unit vector, and so is x g the i-th.
    forall k | 0 <= k < n
      ensures Apply(n, g, y)(k) == Unit(j)(k) && Apply(n, Transposed(g), x)(k) == Unit(i)(k)
    {
      forall l: nat ensures Row(g, k)(l) == Column(g, k)(l) == Row(Transposed(g), k)(l) {
        GramSymmetric(m, b, k, l);
      }
      DotEqual(n, Row(g, k), y, Column(g, k), y);
      DotCommutes(n, Column(g, k), y);
      DotEqual(n, Row(Transposed(g), k), x, Column(g, k), x);
      DotCommutes(n, Column(g, k), x);
    }
    DotApply(n, n, x, g, y);
    DotEqual(n, x, Apply(n, g, y), x, Unit(j));
    DotCommutes(n, x, Unit(j));
    DotUnit(n, x, j);
    DotEqual(n, Apply(n, Transposed(g), x), y, Unit(i), y);
    DotUnit(n, y, i);
  }

  /** The samples' moments B^T y. */
  ghost function Moments(m: nat, b: Matrix, y: Vector): (r: Vector) { Apply(m, Transposed(b), y) }

  /** What the operator makes of samples y. */
  ghost function Fit(m: nat, o: Matrix, y: Vector): (r: Vector) { Apply(m, o, y) }

  lemma FitFromMoments(m: nat, n: nat, o: Matrix, r: Matrix, b: Matrix, y: Vector, i: nat)
    requires IsProduct(m, n, o, r, b) && i < n
    ensures Fit(m, o, y)(i) == Dot(n, Row(r, i), Moments(m, b, y))
  {
    var x := Row(r, i);
    forall s | 0 <= s < m
      ensures Row(o, i)(s) == Apply(n, b, x)(s)
    {
      DotCommutes(n, x, Row(b, s));
    }
    DotEqual(m, Row(o, i), y, Apply(n, b, x), y);
    DotCommutes(m, Apply(n, b, x), y);
    DotApply(m, n, y, b, x);
    DotCommutes(n, Moments(m, b, y), x);
  }

  /** The fit solves the normal equations B^T B x = B^T y. */
  lemma NormalEquations(m: nat, n: nat, o: Matrix, r: Matrix, b: Matrix, y: Vector, j: nat)
    requires IsProduct(m, n, o, r, b) && LeftInverse(n, n, r, Gram(m, b)) && j < n
    ensures Moments(m, b, Apply(n, b, Fit(m, o, y)))(j) == Moments(m, b, y)(j)
  {
    var x, z, v := Fit(m, o, y), Moments(m, b, y), Column(b, j);
    var g := Column(Gram(m, b), j);
    DotEqual(m, Row(Transposed(b), j), Apply(n, b, x), v, Apply(n, b, x));
    DotApply(m, n, v, b, x);
    forall i | 0 <= i < n
      ensures Apply(m, Transposed(b), v)(i) == g(i) && x(i) == Apply(n, r, z)(i)
    {
      DotEqual(m, Row(Transposed(b), i), v, Column(b, i), v);
      FitFromMoments(m, n, o, r, b, y, i);
    }
    DotEqual(n, Apply(m, Transposed(b), v), x, g, Apply(n, r, z));
    DotApply(n, n, g, r, z);
    forall k | 0 <= k < n
      ensures Apply(n, Transposed(r), g)(k) == Unit(j)(k)
    {
      forall l | 0 <= l < n ensures Row(Transposed(r), k)(l) == Row(r, k)(l) {
        InverseSymmetric(m, n, r, b, l, k);
      }
      DotEqual(n, Row(Transposed(r), k), g, Row(r, k), g);
    }
    DotEqual(n, Apply(n, Transposed(r), g), z, Unit(j), z);
    DotUnit(n, z, j);
  }

  ghost function Residual(n: nat, b: Matrix, y: Vector, c: Vector): (r: Vector) {
    Plus(y, Scaled(-1.0, Apply(n, b, c)))
  }

  lemma ApplyMinus(n: nat, a: Matrix, x: Vector, c: Vector, s: nat)
    ensures Apply(n, a, Plus(x, Scaled(-1.0, c)))(s) == Apply(n, a, x)(s) - Apply(n, a, c)(s)
  {
    var row, d := Row(a, s), Plus(x, Scaled(-1.0, c));
    DotCommutes(n, row, d);
    DotPlus(n, x, Scaled(-1.0, c), row);
    DotScaled(n, -1.0, c, row);
    DotCommutes(n, x, row);
    DotCommutes(n, c, row);
  }

  /** The residual of the fit is orthogonal to everything in the range of B. */
  lemma ResidualOrthogonal(m: nat, n: nat, o: Matrix, r: Matrix, b: Matrix, y: Vector, d: Vector)
    requires IsProduct(m, n, o, r, b) && LeftInverse(n, n, r, Gram(m, b))
    ensures Dot(m, Residual(n, b, y, Fit(m, o, y)), Apply(n, b, d)) == 0.0
  {
    var x := Fit(m, o, y);
    var e := Residual(n, b, y, x);
    DotApply(m, n, e, b, d);
    forall j | 0 <= j < n
      ensures Apply(m, Transposed(b), e)(j) == 0.0
    {
      var v := Row(Transposed(b), j);
      DotCommutes(m, v, e);
      DotPlus(m, y, Scaled(-1.0, Apply(n, b, x)), v);
      DotScaled(m, -1.0, Apply(n, b, x), v);
      DotCommutes(m, y, v);
      DotCommutes(m, Apply(n, b, x), v);
      NormalEquations(m, n, o, r, b, y, j);
    }
    SumZero(n, Times(Apply(m, Transposed(b), e), d));
  }

  lemma SquareOfSum(m: nat, e: Vector, f: Vector)
    ensures Dot(m, Plus(e, f), Plus(e, f)) == Dot(m, e, e) + 2.0 * Dot(m, e, f) + Dot(m, f, f)
  {
    DotPlus(m, e, f, Plus(e, f));
    DotCommutes(m, e, Plus(e, f));
    DotCommutes(m, f, Plus(e, f));
    DotPlus(m, e, f, e);
    DotPlus(m, e, f, f);
    DotCommutes(m, f, e);
  }

  /** No coefficients leave a smaller sum of squared residuals than the fit does. */
  lemma FitIsOptimal(m: nat, n: nat, o: Matrix, r: Matrix, b: Matrix, y: Vector, c: Vector)
    requires IsProduct(m, n, o, r, b) && LeftInverse(n, n, r, Gram(m, b))
    ensures var e, e' := Residual(n, b, y, Fit(m, o, y)), Residual(n, b, y, c);
            Dot(m, e, e) <= Dot(m, e', e')
  {
    var x := Fit(m, o, y);
    var e, d := Residual(n, b, y, x), Plus(x, Scaled(-1.0, c));
    var f := Apply(n, b, d);
    forall s | 0 <= s < m
      ensures Residual(n, b, y, c)(s) == Plus(e, f)(s)
    {
      ApplyMinus(n, b, x, c, s);
    }
    DotEqual(m, Residual(n, b, y, c), Residual(n, b, y, c), Plus(e, f), Plus(e, f));
    SquareOfSum(m, e, f);
    ResidualOrthogonal(m, n, o, r, b, y, d);
    forall s | 0 <= s < m ensures Times(f, f)(s) >= 0.0 {
      assert f(s) * f(s) >= 0.0;
    }
    SumNonNegative(m, Times(f, f));
  }

  // ----- The elimination --------------------------------------------------------------------

  ghost predicate Rectangular(b: seq<seq<real>>, n: nat) {
    forall s :: 0 <= s < |b| ==> |b[s]| == n
  }

  ghost function Entries(b: seq<seq<real>>): (r: Matrix) {
    (s: nat, k: nat) => if s < |b| && k < |b[s]| then b[s][k] else 0.0
  }

  /** The augmented matrix as a value, row by row. */
  ghost function RowsOf(a: array2<real>): (rows: Rows)
    reads a
    ensures |rows| == a.Length0 && forall i :: 0 <= i < |rows| ==> |rows[i]| == a.Length1
    ensures forall i, j :: 0 <= i < |rows| && 0 <= j < a.Length1 ==> rows[i][j] == a[i, j]
  {
    seq(a.Length0, i requires 0 <= i < a.Length0 reads a =>
      seq(a.Length1, j requires 0 <= j < a.Length1 reads a => a[i, j]))
  }

  lemma StartRow(row: seq<real>, n: nat, g: Matrix, i: nat)
    requires |row| == 2 * n && i < n
    requires forall j :: 0 <= j < n ==> row[j] == g(i, j) && row[n + j] == Delta(i, j)
    ensures RowOk(row, n, g)
  {
    forall j | 0 <= j < n
      ensures row[j] == Dot(n, Right(row, n), Column(g, j))
    {
      forall k | 0 <= k < n ensures Right(row, n)(k) == Unit(i)(k) {
        assert row[n + k] == Delta(i, k);
      }
      DotEqual(n, Right(row, n), Column(g, j), Unit(i), Column(g, j));
      DotUnit(n, Column(g, j), i);
    }
  }

  ghost predicate Shape(a: array2<real>, n: nat) {
    a.Length0 == n && a.Length1 == 2 * n
  }

  /** The matrix that the elimination starts from: the Gram matrix beside the identity. */
  ghost function Start(b: seq<seq<real>>, n: nat): (rows: Rows)
    ensures Augmented(rows, n)
  {
    seq(n, i requires 0 <= i < n => seq(2 * n, j requires 0 <= j < 2 * n =>
      if j < n then Gram(|b|, Entries(b))(i, j) else Delta(i, j - n)))
  }

  /** The start is the Gram matrix, with nothing done yet. */
  lemma StartBegins(b: seq<seq<real>>, n: nat)
    ensures Begins(Start(b, n), n, Gram(|b|, Entries(b)))
  {
    var rows := Start(b, n);
    forall i | 0 <= i < n ensures RowOk(rows[i], n, Gram(|b|, Entries(b))) {
      StartRow(rows[i], n, Gram(|b|, Entries(b)), i);
    }
    forall v: Vector | Killed(rows, n, v) ensures ZeroVector(n, v) {
      forall k | 0 <= k < n ensures v(k) == 0.0 {
        forall j | 0 <= j < n ensures Right(rows[k], n)(j) == Unit(k)(j) {
          assert rows[k][n + j] == Delta(k, j);
        }
        DotEqual(n, Right(rows[k], n), v, Unit(k), v);
        DotUnit(n, v, k);
      }
    }
  }

  /** Accumulates the normal matrix beside an identity block. */
  method NormalSystem(b: seq<seq<real>>, n: nat) returns (a: array2<real>)
    requires Rectangular(b, n)
    ensures fresh(a) && Shape(a, n) && RowsOf(a) == Start(b, n)
  {
    a := new real[n, 2 * n]((i, j) => 0.0);
    ghost var g := Gram(|b|, Entries(b));
    for row := 0 to n
      invariant forall i, j :: 0 <= i < row && 0 <= j < n ==> a[i, j] == g(i, j)
      invariant forall i, j :: 0 <= i < row && 0 <= j < n ==> a[i, n + j] == Delta(i, j)
      invariant forall i, j :: row <= i < n && 0 <= j < 2 * n ==> a[i, j] == 0.0
    {
      for column := 0 to n
        invariant forall i, j :: 0 <= i < row && 0 <= j < n ==> a[i, j] == g(i, j)
        invariant forall i, j :: 0 <= i < row && 0 <= j < n ==> a[i, n + j] == Delta(i, j)
        invariant forall i, j :: row < i < n && 0 <= j < 2 * n ==> a[i, j] == 0.0
        invariant forall j :: 0 <= j < column ==> a[row, j] == g(row, j)
        invariant forall j :: column <= j < 2 * n ==> a[row, j] == 0.0
      {
        AddProducts(a, b, n, row, column);
      }
      a[row, n + row] := 1.0;
    }
    forall i, j | 0 <= i < n && 0 <= j < 2 * n ensures a[i, j] == Start(b, n)[i][j] {
      assert j >= n ==> a[i, n + (j - n)] == Delta(i, j - n);
    }
    RowsEqual(RowsOf(a), Start(b, n));
  }

  /** Adds the products of two basis columns into one entry, sample by sample. */
  method AddProducts(a: array2<real>, b: seq<seq<real>>, n: nat, row: nat, column: nat)
    requires Rectangular(b, n) && Shape(a, n) && row < n && column < n && a[row, column] == 0.0
    modifies a
    ensures a[row, column] == Gram(|b|, Entries(b))(row, column)
    ensures forall i, j :: 0 <= i < n && 0 <= j < 2 * n && (i, j) != (row, column) ==> a[i, j] == old(a[i, j])
  {
    ghost var f := Times(Column(Entries(b), row), Column(Entries(b), column));
    for sample := 0 to |b|
      invariant a[row, column] == Sum(sample, f)
      invariant forall i, j :: 0 <= i < n && 0 <= j < 2 * n && (i, j) != (row, column) ==> a[i, j] == old(a[i, j])
    {
      a[row, column] := a[row, column] + b[sample][row] * b[sample][column];
    }
  }

  /** The first row at or below `row` whose entry in this column is largest in magnitude. */
  method FindPivot(a: array2<real>, n: nat, row: nat) returns (pivot: nat, pivotAbs: real)
    requires Shape(a, n) && row < n
    ensures row <= pivot < n && pivotAbs == Abs(a[pivot, row])
    ensures forall i :: row <= i < n ==> Abs(a[i, row]) <= pivotAbs
    ensures forall i :: row <= i < pivot ==> Abs(a[i, row]) < pivotAbs
  {
    pivot, pivotAbs := row, Abs(a[row, row]);
    for candidate := row + 1 to n
      invariant row <= pivot < n && pivotAbs == Abs(a[pivot, row])
      invariant forall i :: row <= i < candidate ==> Abs(a[i, row]) <= pivotAbs
      invariant forall i :: row <= i < pivot ==> Abs(a[i, row]) < pivotAbs
    {
      var value := Abs(a[candidate, row]);
      if value > pivotAbs {
        pivotAbs, pivot := value, candidate;
      }
    }
  }

  lemma RowsEqual(x: seq<seq<real>>, y: seq<seq<real>>)
    requires |x| == |y| && forall i :: 0 <= i < |x| ==> |x[i]| == |y[i]|
    requires forall i, j :: 0 <= i < |x| && 0 <= j < |x[i]| ==> x[i][j] == y[i][j]
    ensures x == y
  {
    forall i | 0 <= i < |x| ensures x[i] == y[i] {
    }
  }

  method SwapRows(a: array2<real>, n: nat, row: nat, pivot: nat)
    requires Shape(a, n) && row < n && pivot < n
    modifies a
    ensures RowsOf(a) == old(RowsOf(a))[row := old(RowsOf(a))[pivot]][pivot := old(RowsOf(a))[row]]
  {
    for column := 0 to 2 * n
      invariant forall i, j :: 0 <= i < n && column <= j < 2 * n ==> a[i, j] == old(a[i, j])
      invariant forall j :: 0 <= j < column ==> a[row, j] == old(a[pivot, j]) && a[pivot, j] == old(a[row, j])
      invariant forall i, j :: 0 <= i < n && 0 <= j < column && i != row && i != pivot ==> a[i, j] == old(a[i, j])
    {
      var temporary := a[row, column];
      a[row, column] := a[pivot, column];
      a[pivot, column] := temporary;
    }
    RowsEqual(RowsOf(a), old(RowsOf(a))[row := old(RowsOf(a))[pivot]][pivot := old(RowsOf(a))[row]]);
  }

  method DivideRow(a: array2<real>, n: nat, row: nat, divisor: real)
    requires Shape(a, n) && row < n && divisor != 0.0
    modifies a
    ensures RowsOf(a) == old(RowsOf(a))[row := Divided(old(RowsOf(a))[row], divisor)]
  {
    for column := 0 to 2 * n
      invariant forall j :: 0 <= j < column ==> a[row, j] == old(a[row, j]) / divisor
      invariant forall i, j :: 0 <= i < n && 0 <= j < 2 * n && (i != row || column <= j) ==> a[i, j] == old(a[i, j])
    {
      a[row, column] := a[row, column] / divisor;
    }
    RowsEqual(RowsOf(a), old(RowsOf(a))[row := Divided(old(RowsOf(a))[row], divisor)]);
  }

  /** Subtracts `factor` times one row from another. */
  method SubtractRow(a: array2<real>, n: nat, candidate: nat, row: nat, factor: real)
    requires Shape(a, n) && row < n && candidate < n && candidate != row
    modifies a
    ensures RowsOf(a) == old(RowsOf(a))[candidate := Subtracted(old(RowsOf(a))[candidate], old(RowsOf(a))[row], factor)]
  {
    for column := 0 to 2 * n
      invariant forall j :: 0 <= j < column ==> a[candidate, j] == old(a[candidate, j]) - factor * old(a[row, j])
      invariant forall i, j :: 0 <= i < n && 0 <= j < 2 * n && (i != candidate || column <= j) ==>
                  a[i, j] == old(a[i, j])
    {
      a[candidate, column] := a[candidate, column] - factor * a[row, column];
    }
    RowsEqual(RowsOf(a), old(RowsOf(a))[candidate := Subtracted(old(RowsOf(a))[candidate], old(RowsOf(a))[row], factor)]);
  }

  /** Clears the pivot column in every other row. */
  method Eliminate(a: array2<real>, n: nat, row: nat)
    requires Shape(a, n) && row < n
    modifies a
    ensures RowsOf(a) == Cleared(old(RowsOf(a)), n, row, n)
  {
    for candidate := 0 to n
      invariant RowsOf(a) == Cleared(old(RowsOf(a)), n, row, candidate)
    {
      var factor := a[candidate, row];
      if candidate != row {
        assert factor == RowsOf(a)[candidate][row];
        SubtractRow(a, n, candidate, row, factor);
      }
    }
  }

  /** Brings the first largest candidate of the column to `row`, unless all are within the tolerance. */
  method Pivot(a: array2<real>, n: nat, row: nat) returns (ok: bool)
    requires Shape(a, n) && row < n
    modifies a
    ensures var before := old(RowsOf(a));
            var p := FirstLargest(before, row, n);
            && ok == (Abs(before[p][row]) > PIVOT_TOLERANCE)
            && RowsOf(a) == if ok then Swapped(before, row, p) else before
  {
    ghost var before := RowsOf(a);
    var pivot, pivotAbs := FindPivot(a, n, row);
    FirstIsUnique(before, row, n, pivot);
    ok := pivotAbs > PIVOT_TOLERANCE;
    if ok && pivot != row {
      SwapRows(a, n, row, pivot);
    }
  }

  /** No other row is the first largest one. */
  lemma FirstIsUnique(rows: Rows, k: nat, n: nat, p: nat)
    requires Augmented(rows, n) && k <= p < n
    requires forall i :: k <= i < n ==> Abs(rows[i][k]) <= Abs(rows[p][k])
    requires forall i :: k <= i < p ==> Abs(rows[i][k]) < Abs(rows[p][k])
    ensures p == FirstLargest(rows, k, n)
  {
  }

  /** One column of the elimination: pivot, swap, scale, clear. */
  method Step(a: array2<real>, n: nat, row: nat) returns (ok: bool)
    requires Shape(a, n) && row < n
    modifies a
    ensures match Sweep(old(RowsOf(a)), n, row) case Some(r) => ok && RowsOf(a) == r case None => !ok
  {
    ok := Pivot(a, n, row);
    if ok {
      var divisor := a[row, row];
      assert divisor == RowsOf(a)[row][row];
      DivideRow(a, n, row, divisor);
      Eliminate(a, n, row);
    }
  }

  datatype Status = Ok | InvalidArgument | InvalidState

  ghost function RightBlock(rows: seq<seq<real>>, n: nat): (r: Matrix) {
    (i: nat, k: nat) => if i < |rows| then Right(rows[i], n)(k) else 0.0
  }

  lemma RightBlockEntry(rows: seq<seq<real>>, n: nat, i: nat, k: nat)
    requires i < |rows| && n + k < |rows[i]|
    ensures RightBlock(rows, n)(i, k) == rows[i][n + k]
  {
    assert Right(rows[i], n)(k) == rows[i][n + k];
  }

  /** Once the left block is the identity the right block is a left inverse of g. */
  lemma ReducedIsInverse(rows: seq<seq<real>>, n: nat, g: Matrix)
    requires Consistent(rows, n, g) && Reduced(rows, n, n)
    ensures LeftInverse(n, n, RightBlock(rows, n), g)
  {
    forall i, j | 0 <= i < n && 0 <= j < n
      ensures Dot(n, Row(RightBlock(rows, n), i), Column(g, j)) == Delta(i, j)
    {
      assert RowOk(rows[i], n, g) && rows[i][j] == Delta(i, j);
      DotEqual(n, Row(RightBlock(rows, n), i), Column(g, j), Right(rows[i], n), Column(g, j));
    }
  }

  /** One entry of the right block times B^T. */
  method OperatorEntry(a: array2<real>, b: seq<seq<real>>, n: nat, row: nat, sample: nat) returns (value: real)
    requires Shape(a, n) && Rectangular(b, n) && row < n && sample < |b|
    ensures value == Dot(n, Row(RightBlock(RowsOf(a), n), row), Row(Entries(b), sample))
  {
    ghost var terms := Times(Row(RightBlock(RowsOf(a), n), row), Row(Entries(b), sample));
    value := 0.0;
    for column := 0 to n
      invariant value == Sum(column, terms)
    {
      RightBlockEntry(RowsOf(a), n, row, column);
      assert terms(column) == a[row, n + column] * b[sample][column];
      value := value + a[row, n + column] * b[sample][column];
    }
  }

  /** Multiplies the right block by B^T into the operator. */
  method WriteOperator(a: array2<real>, b: seq<seq<real>>, n: nat) returns (o: array2<real>)
    requires Shape(a, n) && Rectangular(b, n)
    ensures fresh(o) && o.Length0 == n && o.Length1 == |b|
    ensures IsProduct(|b|, n, Entries(RowsOf(o)), RightBlock(RowsOf(a), n), Entries(b))
  {
    o := new real[n, |b|];
    ghost var rows := RowsOf(a);
    ghost var product: Matrix := (i: nat, s: nat) => Dot(n, Row(RightBlock(rows, n), i), Row(Entries(b), s));
    for row := 0 to n
      invariant forall i, s :: 0 <= i < row && 0 <= s < |b| ==> o[i, s] == product(i, s)
    {
      for sample := 0 to |b|
        invariant forall i, s :: 0 <= i < row && 0 <= s < |b| ==> o[i, s] == product(i, s)
        invariant forall s :: 0 <= s < sample ==> o[row, s] == product(row, s)
      {
        assert RowsOf(a) == rows;
        o[row, sample] := OperatorEntry(a, b, n, row, sample);
      }
    }
    assert RowsOf(a) == rows;
    forall i, s | 0 <= i < n && 0 <= s < |b|
      ensures Entries(RowsOf(o))(i, s) == product(i, s)
    {
      assert RowsOf(o)[i][s] == o[i, s];
    }
  }

  /** The columns of the basis are independent: no combination of them but the trivial one vanishes. */
  ghost predicate Independent(m: nat, n: nat, b: Matrix) {
    forall c: Vector :: ZeroVector(m, Apply(n, b, c)) ==> ZeroVector(n, c)
  }

  /** Some column of the Gram matrix is a combination of the columns before it, up to the tolerance in every entry. */
  ghost predicate NearDependence(m: nat, n: nat, b: Matrix) {
    exists k, v :: NearlyDependent(n, Gram(m, b), k, v, PIVOT_TOLERANCE)
  }

  /** It is one so closely that the tolerance is not used up when the difference doubles with every earlier column. */
  ghost predicate CloseDependence(m: nat, n: nat, b: Matrix) {
    exists k, v, t :: NearlyDependent(n, Gram(m, b), k, v, t) && Doubled(t, k) <= PIVOT_TOLERANCE
  }

  /**
   * The operator.  It is refused exactly when the elimination of the Gram matrix comes to a column without a pivot
   * above the tolerance; then some column of the Gram matrix is the earlier ones' combination up to the tolerance, and
   * where one is so closely enough the operator is refused.  When it is returned it is a left inverse of the basis,
   * and a product r B^T with r the inverse of B^T B; so a basis with dependent columns is always refused.
   */
  method LeastSquaresOperator(b: seq<seq<real>>, n: nat) returns (status: Status, o: array2<real>)
    requires Rectangular(b, n)
    ensures status == InvalidArgument <==> |b| == 0 || n == 0 || |b| < n
    ensures status == InvalidState <==> n != 0 && n <= |b| && Eliminated(Start(b, n), n, n).None?
    ensures status == InvalidState ==> NearDependence(|b|, n, Entries(b))
    ensures status == Ok ==> !CloseDependence(|b|, n, Entries(b))
    ensures status == Ok ==> o.Length0 == n && o.Length1 == |b|
    ensures status == Ok ==> Solves(|b|, n, Entries(RowsOf(o)), Entries(b)) && Independent(|b|, n, Entries(b))
  {
    if |b| == 0 || n == 0 || |b| < n {
      o := new real[0, 0];
      return InvalidArgument, o;
    }
    var a := NormalSystem(b, n);
    var ok := Reduce(a, n);
    RefusedBetween(b, n);
    if !ok {
      o := new real[0, 0];
      return InvalidState, o;
    }
    o := WriteOperator(a, b, n);
    EliminationSolves(b, n, RowsOf(a), Entries(RowsOf(o)));
    status := Ok;
  }

  /** The elimination, column after column. */
  method Reduce(a: array2<real>, n: nat) returns (ok: bool)
    requires Shape(a, n)
    modifies a
    ensures match Eliminated(old(RowsOf(a)), n, n) case Some(r) => ok && RowsOf(a) == r case None => !ok
  {
    ghost var start := RowsOf(a);
    for row := 0 to n
      invariant Eliminated(start, n, row) == Some(RowsOf(a))
    {
      ok := Step(a, n, row);
      if !ok {
        StaysRefused(start, n, row + 1, n);
        return;
      }
    }
    ok := true;
  }

  /** A finished elimination yields an operator with every promised property. */
  lemma EliminationSolves(b: seq<seq<real>>, n: nat, rows: Rows, o: Matrix)
    requires Eliminated(Start(b, n), n, n) == Some(rows)
    requires IsProduct(|b|, n, o, RightBlock(rows, n), Entries(b))
    ensures Solves(|b|, n, o, Entries(b)) && Independent(|b|, n, Entries(b))
  {
    var g := Gram(|b|, Entries(b));
    StartBegins(b, n);
    EliminationReaches(Start(b, n), n, g, n);
    ReducedIsInverse(rows, n, g);
    ProductIsLeftInverse(|b|, n, o, RightBlock(rows, n), Entries(b));
    SolvedIsIndependent(|b|, n, o, Entries(b));
  }

  lemma SolvedIsIndependent(m: nat, n: nat, o: Matrix, b: Matrix)
    requires LeftInverse(m, n, o, b)
    ensures Independent(m, n, b)
  {
    forall c: Vector | ZeroVector(m, Apply(n, b, c)) ensures ZeroVector(n, c) {
      LeftInverseInjective(m, n, o, b, c);
    }
  }

  lemma SquareZero(x: real, rest: real)
    requires rest + Product(x, x) == 0.0 && rest >= 0.0
    ensures x == 0.0 && rest == 0.0
  {
    SquarePositive(x);
  }

  lemma SquarePositive(x: real)
    ensures Product(x, x) >= 0.0 && (Product(x, x) == 0.0 ==> x == 0.0)
  {
    if x != 0.0 {
      var k := 1.0 / x;
      assert k * x == 1.0;
      Regrouped(k, x, x * x);
    }
  }

  lemma Regrouped(k: real, x: real, square: real)
    requires square == x * x
    ensures k * x * x == k * square
  {
  }

  lemma {:induction false} SumOfSquaresZero(n: nat, f: Vector)
    requires Dot(n, f, f) == 0.0
    ensures ZeroVector(n, f)
  {
    if n > 0 {
      forall i | 0 <= i < n ensures Times(f, f)(i) >= 0.0 { assert f(i) * f(i) >= 0.0; }
      SumNonNegative(n - 1, Times(f, f));
      assert Times(f, f)(n - 1) == Product(f(n - 1), f(n - 1));
      SquareZero(f(n - 1), Sum(n - 1, Times(f, f)));
      SumOfSquaresZero(n - 1, f);
    }
  }

  /** What the Gram matrix makes of coefficients, applied to them, is the sum of their squared samples. */
  lemma GramForm(m: nat, n: nat, b: Matrix, c: Vector)
    ensures Dot(m, Apply(n, b, c), Apply(n, b, c)) == Dot(n, Apply(n, Gram(m, b), c), c)
  {
    var y := Apply(n, b, c);
    DotApply(m, n, y, b, c);
    forall i | 0 <= i < n ensures Apply(m, Transposed(b), y)(i) == Apply(n, Gram(m, b), c)(i) {
      var v := Column(b, i);
      DotEqual(m, Row(Transposed(b), i), y, v, y);
      DotApply(m, n, v, b, c);
      forall j | 0 <= j < n ensures Apply(m, Transposed(b), v)(j) == Row(Gram(m, b), i)(j) {
        DotEqual(m, Row(Transposed(b), j), v, Column(b, j), v);
        GramSymmetric(m, b, i, j);
      }
      DotEqual(n, Apply(m, Transposed(b), v), c, Row(Gram(m, b), i), c);
    }
    DotEqual(n, Apply(m, Transposed(b), y), c, Apply(n, Gram(m, b), c), c);
  }

  /** A combination of columns that the Gram matrix sends to zero vanishes on the samples already. */
  lemma GramKernel(m: nat, n: nat, b: Matrix, c: Vector)
    requires ZeroVector(n, Apply(n, Gram(m, b), c))
    ensures ZeroVector(m, Apply(n, b, c))
  {
    GramForm(m, n, b, c);
    SumZero(n, Times(Apply(n, Gram(m, b), c), c));
    SumOfSquaresZero(m, Apply(n, b, c));
  }

  /** A refusal over candidates that are exactly zero means dependent columns. */
  lemma ExactStallIsDependence(b: seq<seq<real>>, n: nat, rows: Rows, k: nat)
    requires Reached(rows, n, Gram(|b|, Entries(b)), k) && k < n
    requires forall i :: k <= i < n ==> rows[i][k] == 0.0
    ensures !Independent(|b|, n, Entries(b))
  {
    var c := Combination(rows, k);
    StalledOnZeros(rows, n, Gram(|b|, Entries(b)), k);
    GramKernel(|b|, n, Entries(b), c);
    assert !ZeroVector(n, c);
  }

  /** Refused bases have nearly dependent columns, and those with closely dependent ones are refused. */
  lemma RefusedBetween(b: seq<seq<real>>, n: nat)
    ensures Eliminated(Start(b, n), n, n).None? ==> NearDependence(|b|, n, Entries(b))
    ensures CloseDependence(|b|, n, Entries(b)) ==> Eliminated(Start(b, n), n, n).None?
  {
    var g := Gram(|b|, Entries(b));
    StartBegins(b, n);
    if Eliminated(Start(b, n), n, n).None? {
      var k, v := RefusedIsNear(Start(b, n), n, g);
    }
    if CloseDependence(|b|, n, Entries(b)) {
      var k, v, t :| NearlyDependent(n, g, k, v, t) && Doubled(t, k) <= PIVOT_TOLERANCE;
      NearIsRefused(Start(b, n), n, g, k, v, t);
    }
  }

  ghost function Magnitudes(v: Vector): (r: Vector) { (i: nat) => Abs(v(i)) }

  lemma {:induction false} DotBound(n: nat, x: Vector, v: Vector, t: real)
    requires forall i :: 0 <= i < n ==> Abs(x(i)) <= t
    ensures Dot(n, x, v) <= Product(t, Sum(n, Magnitudes(v)))
  {
    if n > 0 {
      DotBound(n - 1, x, v, t);
      AbsProduct(x(n - 1), v(n - 1));
      LargerTimes(Abs(x(n - 1)), t, Abs(v(n - 1)));
      Distributed(t, Sum(n - 1, Magnitudes(v)), Abs(v(n - 1)));
      assert Times(x, v)(n - 1) == Product(x(n - 1), v(n - 1));
    }
  }

  lemma Distributed(a: real, b: real, c: real)
    ensures Product(a, b + c) == Product(a, b) + Product(a, c)
  {
  }

  /** Near dependence shows in the samples: their squares add up to no more than the tolerance times the coefficients. */
  lemma NearDependenceInSamples(m: nat, n: nat, b: Matrix, k: nat, v: Vector, t: real)
    requires NearlyDependent(n, Gram(m, b), k, v, t)
    ensures Dot(m, Apply(n, b, v), Apply(n, b, v)) <= Product(t, Sum(n, Magnitudes(v)))
  {
    GramForm(m, n, b, v);
    DotBound(n, Apply(n, Gram(m, b), v), v, t);
  }

  /** One coefficient is accepted exactly when the squares of its samples exceed the tolerance together. */
  lemma OneCoefficient(b: seq<seq<real>>)
    requires Rectangular(b, 1)
    ensures Eliminated(Start(b, 1), 1, 1).Some? <==> Dot(|b|, Column(Entries(b), 0), Column(Entries(b), 0)) > PIVOT_TOLERANCE
  {
    var rows := Start(b, 1);
    var column := Column(Entries(b), 0);
    assert Eliminated(rows, 1, 0) == Some(rows) && FirstLargest(rows, 0, 1) == 0;
    assert rows[0][0] == Gram(|b|, Entries(b))(0, 0) == Dot(|b|, column, column);
    forall i | 0 <= i < |b| ensures Times(column, column)(i) >= 0.0 { assert column(i) * column(i) >= 0.0; }
    SumNonNegative(|b|, Times(column, column));
  }

  /** The tolerance is absolute, so independent columns may be refused: a single sample of a tenth of a millionth is. */
  lemma IndependentYetRefused()
    ensures var b := [[0.0000001]]; Independent(1, 1, Entries(b)) && Eliminated(Start(b, 1), 1, 1).None?
  {
    var b := [[0.0000001]];
    var column := Column(Entries(b), 0);
    assert Dot(0, column, column) == 0.0;
    assert Dot(1, column, column) == 0.0000001 * 0.0000001;
    OneCoefficient(b);
    forall c: Vector | ZeroVector(1, Apply(1, Entries(b), c)) ensures ZeroVector(1, c) {
      assert Apply(1, Entries(b), c)(0) == Sum(0, Times(Row(Entries(b), 0), c)) + 0.0000001 * c(0);
    }
  }

  lemma TwoTerms(f: Vector)
    ensures Sum(2, f) == f(0) + f(1)
  {
    assert Sum(1, f) == Sum(0, f) + f(0);
  }

  /** The Gram matrix with ones everywhere but for 1 + s in the last entry. */
  ghost predicate AlmostOnes(g: Matrix, s: real) {
    g(0, 0) == 1.0 && g(0, 1) == 1.0 && g(1, 0) == 1.0 && g(1, 1) == 1.0 + s
  }

  lemma SkewedGram(b: Matrix, h: real)
    requires b(0, 0) == 1.0 && b(0, 1) == 1.0 && b(1, 0) == 0.0 && b(1, 1) == h
    ensures AlmostOnes(Gram(2, b), h * h)
  {
    TwoTerms(Times(Column(b, 0), Column(b, 0)));
    TwoTerms(Times(Column(b, 0), Column(b, 1)));
    TwoTerms(Times(Column(b, 1), Column(b, 0)));
    TwoTerms(Times(Column(b, 1), Column(b, 1)));
  }

  lemma AlmostOnesNear(g: Matrix, s: real, v: Vector)
    requires AlmostOnes(g, s) && 0.0 <= s <= 2.0 * PIVOT_TOLERANCE && v(0) == -1.0 - s / 2.0 && v(1) == 1.0
    ensures NearlyDependent(2, g, 1, v, PIVOT_TOLERANCE)
  {
    TwoTerms(Times(Row(g, 0), v));
    TwoTerms(Times(Row(g, 1), v));
    assert Apply(2, g, v)(0) == -s / 2.0 && Apply(2, g, v)(1) == s / 2.0;
  }

  lemma AlmostOnesAccepted(rows: Rows, g: Matrix, s: real)
    requires Augmented(rows, 2) && AlmostOnes(g, s) && s > PIVOT_TOLERANCE
    requires forall i, j :: 0 <= i < 2 && 0 <= j < 2 ==> rows[i][j] == g(i, j)
    ensures Eliminated(rows, 2, 2).Some?
  {
    assert Eliminated(rows, 2, 0) == Some(rows) && FirstLargest(rows, 0, 2) == 0;
    assert rows[0][0] == 1.0 && rows[0][1] == 1.0 && rows[1][0] == 1.0 && rows[1][1] == 1.0 + s;
    SweptRow(rows, 2, 0, 1);
    assert Sweep(rows, 2, 0).value[1][1] == s;
    assert Eliminated(rows, 2, 1) == Sweep(rows, 2, 0);
  }

  /**
   * The two bounds differ by what they must: a basis of two columns whose dependence is within the tolerance, but not
   * within half of it, may be accepted.
   */
  lemma NearYetAccepted()
    ensures var b := [[1.0, 1.0], [0.0, 0.00000012]];
            NearDependence(2, 2, Entries(b)) && Eliminated(Start(b, 2), 2, 2).Some?
  {
    var b := [[1.0, 1.0], [0.0, 0.00000012]];
    var g, s := Gram(2, Entries(b)), 0.00000012 * 0.00000012;
    SkewedGram(Entries(b), 0.00000012);
    AlmostOnesNear(g, s, (i: nat) => if i == 0 then -1.0 - s / 2.0 else 1.0);
    AlmostOnesAccepted(Start(b, 2), g, s);
  }

  /** A left inverse of b of the form r b^T, with r the inverse of the Gram matrix. */
  ghost predicate Solves(m: nat, n: nat, o: Matrix, b: Matrix) {
    && LeftInverse(m, n, o, b)
    && exists r: Matrix :: IsProduct(m, n, o, r, b) && LeftInverse(n, n, r, Gram(m, b))
  }

  /** Multiplies tuples by a matrix, component by component. */
  method ApplyTupleMatrix(source: seq<seq<real>>, components: nat, matrix: seq<seq<real>>)
    returns (status: Status, output: array2<real>)
    requires Rectangular(source, components) && Rectangular(matrix, |source|)
    ensures status == InvalidArgument <==> source == [] || components == 0
    ensures status == InvalidArgument || status == Ok
    ensures status == Ok ==> output.Length0 == |matrix| && output.Length1 == components
    ensures status == Ok ==> forall r, c :: 0 <= r < |matrix| && 0 <= c < components ==>
                output[r, c] == Dot(|source|, Row(Entries(matrix), r), Column(Entries(source), c))
  {
    if source == [] || components == 0 {
      output := new real[0, 0];
      return InvalidArgument, output;
    }
    output := new real[|matrix|, components];
    for row := 0 to |matrix|
      invariant forall r, c :: 0 <= r < row && 0 <= c < components ==>
                  output[r, c] == Dot(|source|, Row(Entries(matrix), r), Column(Entries(source), c))
    {
      for component := 0 to components
        invariant forall r, c :: 0 <= r < row && 0 <= c < components ==>
                    output[r, c] == Dot(|source|, Row(Entries(matrix), r), Column(Entries(source), c))
        invariant forall c :: 0 <= c < component ==>
                    output[row, c] == Dot(|source|, Row(Entries(matrix), row), Column(Entries(source), c))
      {
        var sum := 0.0;
        for column := 0 to |source|
          invariant sum == Sum(column, Times(Row(Entries(matrix), row), Column(Entries(source), component)))
        {
          sum := sum + matrix[row][column] * source[column][component];
        }
        output[row, component] := sum;
      }
    }
    status := Ok;
  }

  /**
   * Sampling a basis and applying its operator is the identity on coefficient tuples: if every
   * sample is the basis row times the coefficients, the tuple matrix gives the coefficients back.
   */
  lemma OperatorRecoversTuples(m: nat, n: nat, o: Matrix, b: Matrix, samples: Matrix, coefficients: Matrix, i: nat, c: nat)
    requires Solves(m, n, o, b) && i < n
    requires forall s :: 0 <= s < m ==> samples(s, c) == Dot(n, Row(b, s), Column(coefficients, c))
    ensures Dot(m, Row(o, i), Column(samples, c)) == coefficients(i, c)
  {
    var x := Column(coefficients, c);
    DotEqual(m, Row(o, i), Column(samples, c), Row(o, i), Apply(n, b, x));
    LeftInverseRecovers(m, n, o, b, x, i);
  }

  /** Whatever the samples, the operator's fit has the smallest sum of squared residuals. */
  lemma OperatorIsOptimal(m: nat, n: nat, o: Matrix, b: Matrix, y: Vector, c: Vector)
    requires Solves(m, n, o, b)
    ensures var e, e' := Residual(n, b, y, Fit(m, o, y)), Residual(n, b, y, c);
            Dot(m, e, e) <= Dot(m, e', e')
  {
    var r: Matrix :| IsProduct(m, n, o, r, b) && LeftInverse(n, n, r, Gram(m, b));
    FitIsOptimal(m, n, o, r, b, y, c);
  }
}
