/**
 * Triangle lists as formal chains.  `SideCount` counts how often an undirected side occurs
 * (its parity is the boundary modulo two); `TriFlux` and `CycleFlux` integrate an antisymmetric
 * edge weight over the triangles and around a closed loop (the oriented boundary).
 */
module Chains {
  datatype Tri<V> = Tri(a: V, b: V, c: V)

  /** 1 when the undirected side {p, q} is the side {x, y}, 0 otherwise. */
  function Joins<V(==)>(p: V, q: V, x: V, y: V): (n: nat) {
    if (p == x && q == y) || (p == y && q == x) then 1 else 0
  }

  function TriSides<V(==)>(t: Tri<V>, x: V, y: V): (n: nat) {
    Joins(t.a, t.b, x, y) + Joins(t.b, t.c, x, y) + Joins(t.c, t.a, x, y)
  }

  /** Number of triangle sides that are the undirected side {x, y}. */
  function SideCount<V(==)>(ts: seq<Tri<V>>, x: V, y: V): (n: nat) {
    if ts == [] then 0 else SideCount(ts[..|ts| - 1], x, y) + TriSides(ts[|ts| - 1], x, y)
  }

  lemma {:induction false} SideCountConcat<V>(s: seq<Tri<V>>, t: seq<Tri<V>>, x: V, y: V)
    ensures SideCount(s + t, x, y) == SideCount(s, x, y) + SideCount(t, x, y)
    decreases |t|
  {
    if t == [] {
      assert s + t == s;
    } else {
      assert (s + t)[..|s + t| - 1] == s + t[..|t| - 1];
      SideCountConcat(s, t[..|t| - 1], x, y);
    }
  }

  /** Number of steps of the open path `s` along the undirected side {x, y}. */
  function PathSides<V(==)>(s: seq<V>, x: V, y: V): (n: nat) {
    if |s| < 2 then 0 else PathSides(s[..|s| - 1], x, y) + Joins(s[|s| - 2], s[|s| - 1], x, y)
  }

  /** The same for the closed loop through `s`. */
  function CycleSides<V(==)>(s: seq<V>, x: V, y: V): (n: nat) {
    if s == [] then 0 else PathSides(s, x, y) + Joins(s[|s| - 1], s[0], x, y)
  }

  /** Every undirected side between two different points occurs an even number of times. */
  ghost predicate Closed(ts: seq<Tri<nat>>) {
    forall x: nat, y: nat :: x != y ==> SideCount(ts, x, y) % 2 == 0
  }

  // ----- Oriented boundary ------------------------------------------------------------------

  type Form<!V> = (V, V) -> real
  type Cochain = Form<nat>

  ghost predicate Antisymmetric<V(!new)>(w: Form<V>) {
    forall p: V, q: V :: w(p, q) == -w(q, p)
  }

  ghost function PathFlux(s: seq<nat>, w: Cochain): (r: real) {
    if |s| < 2 then 0.0 else PathFlux(s[..|s| - 1], w) + w(s[|s| - 2], s[|s| - 1])
  }

  ghost function CycleFlux(s: seq<nat>, w: Cochain): (r: real) {
    if s == [] then 0.0 else PathFlux(s, w) + w(s[|s| - 1], s[0])
  }

  ghost function TriFlux<V>(ts: seq<Tri<V>>, w: Form<V>): (r: real) {
    if ts == [] then 0.0
    else
      var t := ts[|ts| - 1];
      TriFlux(ts[..|ts| - 1], w) + w(t.a, t.b) + w(t.b, t.c) + w(t.c, t.a)
  }

  lemma {:induction false} TriFluxConcat<V>(s: seq<Tri<V>>, t: seq<Tri<V>>, w: Form<V>)
    ensures TriFlux(s + t, w) == TriFlux(s, w) + TriFlux(t, w)
    decreases |t|
  {
    if t == [] {
      assert s + t == s;
    } else {
      assert (s + t)[..|s + t| - 1] == s + t[..|t| - 1];
      TriFluxConcat(s, t[..|t| - 1], w);
    }
  }

  lemma TriFluxSplit<V>(ts: seq<Tri<V>>, n: nat, w: Form<V>)
    requires n <= |ts|
    ensures TriFlux(ts, w) == TriFlux(ts[..n], w) + TriFlux(ts[n..], w)
  {
    TriFluxConcat(ts[..n], ts[n..], w);
    assert ts == ts[..n] + ts[n..];
  }

  /**
   * The triangles `ts` fill the oriented loop `s`: every antisymmetric edge weight integrates to
   * the same value, so the inner diagonals cancel and what is left is `s` with its orientation.
   */
  ghost predicate Fills(ts: seq<Tri<nat>>, s: seq<nat>) {
    forall w: Cochain :: Antisymmetric(w) ==> TriFlux(ts, w) == CycleFlux(s, w)
  }

  lemma {:induction false} PathFluxConcat(s: seq<nat>, t: seq<nat>, w: Cochain)
    requires s != [] && t != []
    ensures PathFlux(s + t, w) == PathFlux(s, w) + w(s[|s| - 1], t[0]) + PathFlux(t, w)
    decreases |t|
  {
    assert (s + t)[..|s + t| - 1] == s + t[..|t| - 1];
    if |t| == 1 {
      assert s + t[..0] == s;
    } else {
      PathFluxConcat(s, t[..|t| - 1], w);
    }
  }

  /** Cyclic predecessor and successor of a position in a loop of n positions. */
  function Before(k: nat, n: nat): (p: nat)
    requires k < n
    ensures p < n && p == (k + n - 1) % n
  {
    if k == 0 then n - 1 else (WrapAround(k - 1, n); k - 1)
  }

  lemma WrapAround(m: nat, n: nat)
    requires m < n
    ensures (m + n) % n == m
  {
  }

  function After(k: nat, n: nat): (q: nat)
    requires k < n
    ensures q < n && q == (k + 1) % n
  {
    if k == n - 1 then 0 else k + 1
  }

  ghost predicate CornerCut(s: seq<nat>, k: nat, w: Cochain)
    requires k < |s|
  {
    var p, c, q := s[Before(k, |s|)], s[k], s[After(k, |s|)];
    CycleFlux(s, w) == CycleFlux(s[..k] + s[k + 1..], w) + w(p, c) + w(c, q) + w(q, p)
  }

  /** Cutting one corner off a loop takes away exactly the flux of the triangle at that corner. */
  lemma {:induction false} CutCorner(s: seq<nat>, k: nat, w: Cochain)
    requires |s| >= 2 && k < |s| && Antisymmetric(w)
    ensures CornerCut(s, k, w)
  {
    if k == 0 {
      CutFirst(s, w);
    } else if k == |s| - 1 {
      assert s[..k] + s[k + 1..] == s[..k];
      assert w(s[k - 1], s[0]) == -w(s[0], s[k - 1]);
    } else {
      CutInner(s, k, w);
    }
  }

  lemma {:induction false} CutFirst(s: seq<nat>, w: Cochain)
    requires |s| >= 2 && Antisymmetric(w)
    ensures CornerCut(s, 0, w)
  {
    var rest := s[1..];
    assert s[..0] + rest == rest;
    assert [s[0]] + rest == s;
    PathFluxConcat([s[0]], rest, w);
    assert w(s[|s| - 1], s[1]) == -w(s[1], s[|s| - 1]);
  }

  lemma {:induction false} CutInner(s: seq<nat>, k: nat, w: Cochain)
    requires 0 < k < |s| - 1 && Antisymmetric(w)
    ensures CornerCut(s, k, w)
  {
    var pre, post := s[..k], s[k + 1..];
    assert pre + ([s[k]] + post) == s;
    PathFluxConcat(pre, [s[k]] + post, w);
    PathFluxConcat([s[k]], post, w);
    PathFluxConcat(pre, post, w);
    assert w(s[k - 1], s[k + 1]) == -w(s[k + 1], s[k - 1]);
  }

  function Reversed(s: seq<nat>): (r: seq<nat>)
    ensures |r| == |s| && forall i :: 0 <= i < |s| ==> r[i] == s[|s| - 1 - i]
  {
    if s == [] then [] else [s[|s| - 1]] + Reversed(s[..|s| - 1])
  }

  lemma {:induction false} ReversedPathFlux(s: seq<nat>, w: Cochain)
    requires Antisymmetric(w)
    ensures PathFlux(Reversed(s), w) == -PathFlux(s, w)
  {
    if |s| >= 2 {
      ReversedPathFlux(s[..|s| - 1], w);
      PathFluxConcat([s[|s| - 1]], Reversed(s[..|s| - 1]), w);
    }
  }

  /** Reversing a loop negates its flux. */
  lemma {:induction false} ReversedCycleFlux(s: seq<nat>, w: Cochain)
    requires Antisymmetric(w)
    ensures CycleFlux(Reversed(s), w) == -CycleFlux(s, w)
  {
    ReversedPathFlux(s, w);
  }

  // ----- From orientation back to parity ----------------------------------------------------

  /** +1 for a step from x to y, -1 for a step from y to x. */
  function Step(p: nat, q: nat, x: nat, y: nat): (r: int) {
    if p == x && q == y then 1 else if p == y && q == x then -1 else 0
  }

  ghost function Indicator(x: nat, y: nat): (w: Cochain)
    requires x != y
    ensures Antisymmetric(w)
  {
    (p: nat, q: nat) => Step(p, q, x, y) as real
  }

  lemma {:induction false} PathParity(s: seq<nat>, x: nat, y: nat) returns (k: int)
    requires x != y
    ensures PathFlux(s, Indicator(x, y)) == k as real && k % 2 == PathSides(s, x, y) % 2
  {
    k := 0;
    if |s| >= 2 {
      k := PathParity(s[..|s| - 1], x, y);
      k := k + Step(s[|s| - 2], s[|s| - 1], x, y);
    }
  }

  lemma CycleParity(s: seq<nat>, x: nat, y: nat) returns (k: int)
    requires x != y
    ensures CycleFlux(s, Indicator(x, y)) == k as real && k % 2 == CycleSides(s, x, y) % 2
  {
    k := PathParity(s, x, y);
    if s != [] {
      k := k + Step(s[|s| - 1], s[0], x, y);
    }
  }

  lemma StepParity(p: nat, q: nat, x: nat, y: nat, k: int, n: nat)
    requires x != y && k % 2 == n % 2
    ensures (k + Step(p, q, x, y)) % 2 == (n + Joins(p, q, x, y)) % 2
  {
  }

  lemma {:induction false} TriParity(ts: seq<Tri<nat>>, x: nat, y: nat) returns (k: int)
    requires x != y
    ensures TriFlux(ts, Indicator(x, y)) == k as real && k % 2 == SideCount(ts, x, y) % 2
  {
    k := 0;
    if ts != [] {
      k := TriParity(ts[..|ts| - 1], x, y);
      var t := ts[|ts| - 1];
      var n := SideCount(ts[..|ts| - 1], x, y);
      StepParity(t.a, t.b, x, y, k, n);
      k, n := k + Step(t.a, t.b, x, y), n + Joins(t.a, t.b, x, y);
      StepParity(t.b, t.c, x, y, k, n);
      k, n := k + Step(t.b, t.c, x, y), n + Joins(t.b, t.c, x, y);
      StepParity(t.c, t.a, x, y, k, n);
      k := k + Step(t.c, t.a, x, y);
    }
  }

  /** Triangles that fill a loop, or its reverse, have that loop as their boundary modulo two. */
  lemma {:induction false} FillParity(ts: seq<Tri<nat>>, s: seq<nat>, x: nat, y: nat)
    requires Fills(ts, s) || Fills(ts, Reversed(s))
    requires x != y
    ensures SideCount(ts, x, y) % 2 == CycleSides(s, x, y) % 2
  {
    var w := Indicator(x, y);
    var j := TriParity(ts, x, y);
    var k := CycleParity(s, x, y);
    ReversedCycleFlux(s, w);
    assert j == k || j == -k;
  }
}
