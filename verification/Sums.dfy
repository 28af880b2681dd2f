/** Finite sums of reals and the few laws the matrix proofs need. */
module Sums {
  type Vector = nat -> real
  type Matrix = (nat, nat) -> real

  ghost function Sum(n: nat, f: Vector): (r: real) {
    if n == 0 then 0.0 else Sum(n - 1, f) + f(n - 1)
  }

  ghost function Plus(f: Vector, g: Vector): (r: Vector) { (i: nat) => f(i) + g(i) }
  ghost function Scaled(k: real, f: Vector): (r: Vector) { (i: nat) => k * f(i) }
  ghost function Times(f: Vector, g: Vector): (r: Vector) { (i: nat) => f(i) * g(i) }
  ghost function Delta(i: nat, j: nat): (r: real) { if i == j then 1.0 else 0.0 }
  ghost function Unit(j: nat): (r: Vector) { (i: nat) => Delta(i, j) }
  ghost function Row(a: Matrix, i: nat): (r: Vector) { (j: nat) => a(i, j) }
  ghost function Column(a: Matrix, j: nat): (r: Vector) { (i: nat) => a(i, j) }
  ghost function RowSums(n: nat, a: Matrix): (r: Vector) { (i: nat) => Sum(n, Row(a, i)) }
  ghost function ColumnSums(m: nat, a: Matrix): (r: Vector) { (j: nat) => Sum(m, Column(a, j)) }

  /** Inner product of the first n entries. */
  ghost function Dot(n: nat, f: Vector, g: Vector): (r: real) { Sum(n, Times(f, g)) }

  lemma {:induction false} SumEqual(n: nat, f: Vector, g: Vector)
    requires forall i :: 0 <= i < n ==> f(i) == g(i)
    ensures Sum(n, f) == Sum(n, g)
  {
    if n > 0 {
      SumEqual(n - 1, f, g);
    }
  }

  lemma {:induction false} SumZero(n: nat, f: Vector)
    requires forall i :: 0 <= i < n ==> f(i) == 0.0
    ensures Sum(n, f) == 0.0
  {
    if n > 0 {
      SumZero(n - 1, f);
    }
  }

  lemma {:induction false} SumPlus(n: nat, f: Vector, g: Vector)
    ensures Sum(n, Plus(f, g)) == Sum(n, f) + Sum(n, g)
  {
    if n > 0 {
      SumPlus(n - 1, f, g);
    }
  }

  lemma {:induction false} SumScaled(n: nat, k: real, f: Vector)
    ensures Sum(n, Scaled(k, f)) == k * Sum(n, f)
  {
    if n > 0 {
      SumScaled(n - 1, k, f);
      assert k * (Sum(n - 1, f) + f(n - 1)) == k * Sum(n - 1, f) + k * f(n - 1);
    }
  }

  lemma {:induction false} SumNonNegative(n: nat, f: Vector)
    requires forall i :: 0 <= i < n ==> f(i) >= 0.0
    ensures Sum(n, f) >= 0.0
  {
    if n > 0 {
      SumNonNegative(n - 1, f);
    }
  }

  /** The inner product with a unit vector picks one entry. */
  lemma {:induction false} DotUnit(n: nat, f: Vector, j: nat)
    requires j < n
    ensures Dot(n, Unit(j), f) == f(j)
  {
    if j == n - 1 {
      SumZero(n - 1, Times(Unit(j), f));
    } else {
      DotUnit(n - 1, f, j);
    }
  }

  lemma DotEqual(n: nat, f: Vector, g: Vector, f': Vector, g': Vector)
    requires forall i :: 0 <= i < n ==> f(i) == f'(i) && g(i) == g'(i)
    ensures Dot(n, f, g) == Dot(n, f', g')
  {
    SumEqual(n, Times(f, g), Times(f', g'));
  }

  lemma DotCommutes(n: nat, f: Vector, g: Vector)
    ensures Dot(n, f, g) == Dot(n, g, f)
  {
    SumEqual(n, Times(f, g), Times(g, f));
  }

  lemma DotPlus(n: nat, f: Vector, g: Vector, h: Vector)
    ensures Dot(n, Plus(f, g), h) == Dot(n, f, h) + Dot(n, g, h)
  {
    SumPlus(n, Times(f, h), Times(g, h));
    SumEqual(n, Times(Plus(f, g), h), Plus(Times(f, h), Times(g, h)));
  }

  lemma DotScaled(n: nat, k: real, f: Vector, g: Vector)
    ensures Dot(n, Scaled(k, f), g) == k * Dot(n, f, g)
  {
    SumScaled(n, k, Times(f, g));
    SumEqual(n, Times(Scaled(k, f), g), Scaled(k, Times(f, g)));
  }

  /** Double sums may be taken in either order. */
  lemma {:induction false} SumSwap(m: nat, n: nat, a: Matrix)
    ensures Sum(m, RowSums(n, a)) == Sum(n, ColumnSums(m, a))
  {
    if m == 0 {
      SumZero(n, ColumnSums(0, a));
    } else {
      SumSwap(m - 1, n, a);
      SumPlus(n, ColumnSums(m - 1, a), Row(a, m - 1));
      SumEqual(n, ColumnSums(m, a), Plus(ColumnSums(m - 1, a), Row(a, m - 1)));
    }
  }

  /** x . (A y), as a vector in the free index of A y. */
  ghost function Apply(n: nat, a: Matrix, y: Vector): (r: Vector) { (i: nat) => Dot(n, Row(a, i), y) }
  ghost function Transposed(a: Matrix): (r: Matrix) { (i: nat, j: nat) => a(j, i) }

  ghost function Weighted(x: Vector, a: Matrix, y: Vector): (r: Matrix) { (i: nat, j: nat) => x(i) * a(i, j) * y(j) }

  /** x . (A y) == (A^T x) . y for an m by n matrix. */
  lemma DotApply(m: nat, n: nat, x: Vector, a: Matrix, y: Vector)
    ensures Dot(m, x, Apply(n, a, y)) == Dot(n, Apply(m, Transposed(a), x), y)
  {
    var w := Weighted(x, a, y);
    forall i | 0 <= i < m
      ensures Times(x, Apply(n, a, y))(i) == RowSums(n, w)(i)
    {
      SumScaled(n, x(i), Times(Row(a, i), y));
      SumEqual(n, Row(w, i), Scaled(x(i), Times(Row(a, i), y)));
    }
    SumEqual(m, Times(x, Apply(n, a, y)), RowSums(n, w));
    SumSwap(m, n, w);
    forall j | 0 <= j < n
      ensures Times(Apply(m, Transposed(a), x), y)(j) == ColumnSums(m, w)(j)
    {
      SumScaled(m, y(j), Times(Row(Transposed(a), j), x));
      SumEqual(m, Column(w, j), Scaled(y(j), Times(Row(Transposed(a), j), x)));
    }
    SumEqual(n, Times(Apply(m, Transposed(a), x), y), ColumnSums(m, w));
  }
}
