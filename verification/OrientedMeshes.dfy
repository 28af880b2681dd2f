/**
 * Meshes whose directed sides cancel: every antisymmetric edge weight adds up to zero, or, which is the same, every
 * side is run through as often one way as the other.
 */
module OrientedMeshes {
  import opened Chains

  type Arrow = (nat, nat)

  ghost predicate Balanced(ts: seq<Tri<nat>>) {
    forall w: Cochain :: Antisymmetric(w) ==> TriFlux(ts, w) == 0.0
  }

  /** The directed sides of a mesh, in order. */
  function Arrows(ts: seq<Tri<nat>>): (r: seq<Arrow>) {
    if ts == [] then []
    else
      var t := ts[|ts| - 1];
      Arrows(ts[..|ts| - 1]) + [(t.a, t.b)] + [(t.b, t.c)] + [(t.c, t.a)]
  }

  /** How often a mesh runs from p to q. */
  function Runs(ts: seq<Tri<nat>>, p: nat, q: nat): (r: nat) { multiset(Arrows(ts))[(p, q)] }

  ghost function Flux(s: seq<Arrow>, w: Cochain): (r: real) {
    if s == [] then 0.0 else Flux(s[..|s| - 1], w) + w(s[|s| - 1].0, s[|s| - 1].1)
  }

  lemma FluxNext(s: seq<Arrow>, e: Arrow, w: Cochain)
    ensures Flux(s + [e], w) == Flux(s, w) + w(e.0, e.1)
  {
    assert (s + [e])[..|s|] == s;
  }

  lemma {:induction false} TriFluxIsFlux(ts: seq<Tri<nat>>, w: Cochain)
    ensures TriFlux(ts, w) == Flux(Arrows(ts), w)
  {
    if ts != [] {
      var t, s := ts[|ts| - 1], Arrows(ts[..|ts| - 1]);
      TriFluxIsFlux(ts[..|ts| - 1], w);
      FluxNext(s, (t.a, t.b), w);
      FluxNext(s + [(t.a, t.b)], (t.b, t.c), w);
      FluxNext(s + [(t.a, t.b)] + [(t.b, t.c)], (t.c, t.a), w);
    }
  }

  lemma {:induction false} FluxWithout(s: seq<Arrow>, i: nat, w: Cochain)
    requires i < |s|
    ensures Flux(s, w) == Flux(s[..i] + s[i + 1..], w) + w(s[i].0, s[i].1)
  {
    var n := |s| - 1;
    if i == n {
      assert s[..i] + s[i + 1..] == s[..n];
    } else {
      FluxWithout(s[..n], i, w);
      assert s[..i] + s[i + 1..] == s[..n][..i] + s[..n][i + 1..] + [s[n]];
      FluxNext(s[..n][..i] + s[..n][i + 1..], s[n], w);
    }
  }

  /** Every arrow is there as often as its reverse. */
  ghost predicate Even(s: seq<Arrow>) {
    forall p: nat, q: nat :: multiset(s)[(p, q)] == multiset(s)[(q, p)]
  }

  lemma Dropped(s: seq<Arrow>, i: nat)
    requires i < |s|
    ensures multiset(s[..i] + s[i + 1..]) == multiset(s) - multiset{s[i]}
  {
    assert s == s[..i] + [s[i]] + s[i + 1..];
  }

  lemma EvenWithout(s: seq<Arrow>, e: Arrow, rest: multiset<Arrow>)
    requires Even(s) && e in s && (e.1, e.0) in s
    requires rest == if e.0 == e.1 then multiset(s) - multiset{e} else multiset(s) - multiset{e} - multiset{(e.1, e.0)}
    ensures forall p: nat, q: nat :: rest[(p, q)] == rest[(q, p)]
  {
  }

  lemma LastIsMatched(s: seq<Arrow>)
    requires s != [] && Even(s) && s[|s| - 1].0 != s[|s| - 1].1
    ensures (s[|s| - 1].1, s[|s| - 1].0) in s[..|s| - 1]
  {
    var e := s[|s| - 1];
    assert e in s && multiset(s)[e] > 0;
    assert multiset(s)[(e.1, e.0)] == multiset(s)[e];
    assert (e.1, e.0) in s;
  }

  lemma EvenWithoutLoop(s: seq<Arrow>)
    requires s != [] && Even(s) && s[|s| - 1].0 == s[|s| - 1].1
    ensures Even(s[..|s| - 1])
  {
    var e, n := s[|s| - 1], |s| - 1;
    Dropped(s, n);
    assert s[..n] + s[n + 1..] == s[..n];
    EvenWithout(s, e, multiset(s[..n]));
  }

  lemma EvenWithoutPair(s: seq<Arrow>, i: nat)
    requires i < |s| - 1 && Even(s) && s[i] == (s[|s| - 1].1, s[|s| - 1].0) && s[i].0 != s[i].1
    ensures Even(s[..|s| - 1][..i] + s[..|s| - 1][i + 1..])
  {
    var e, n := s[|s| - 1], |s| - 1;
    Dropped(s, n);
    assert s[..n] + s[n + 1..] == s[..n];
    Dropped(s[..n], i);
    EvenWithout(s, e, multiset(s[..n][..i] + s[..n][i + 1..]));
  }

  /** In an even list every arrow cancels with its reverse. */
  lemma {:induction false} EvenFlux(s: seq<Arrow>, w: Cochain)
    requires Even(s) && Antisymmetric(w)
    ensures Flux(s, w) == 0.0
    decreases |s|
  {
    if s != [] {
      var n, e := |s| - 1, s[|s| - 1];
      assert w(e.0, e.1) == -w(e.1, e.0);
      if e.0 == e.1 {
        EvenWithoutLoop(s);
        EvenFlux(s[..n], w);
      } else {
        LastIsMatched(s);
        var i :| 0 <= i < n && s[..n][i] == (e.1, e.0);
        FluxWithout(s[..n], i, w);
        EvenWithoutPair(s, i);
        EvenFlux(s[..n][..i] + s[..n][i + 1..], w);
      }
    }
  }

  lemma {:induction false} IndicatorFlux(s: seq<Arrow>, x: nat, y: nat)
    requires x != y
    ensures Flux(s, Indicator(x, y)) == multiset(s)[(x, y)] as real - multiset(s)[(y, x)] as real
  {
    if s != [] {
      var n := |s| - 1;
      IndicatorFlux(s[..n], x, y);
      assert s == s[..n] + [s[n]];
      assert multiset(s) == multiset(s[..n]) + multiset{s[n]};
      assert Indicator(x, y)(s[n].0, s[n].1) == Step(s[n].0, s[n].1, x, y) as real;
    }
  }

  lemma EvenIsBalanced(ts: seq<Tri<nat>>)
    requires Even(Arrows(ts))
    ensures Balanced(ts)
  {
    forall w: Cochain | Antisymmetric(w) ensures TriFlux(ts, w) == 0.0 {
      TriFluxIsFlux(ts, w);
      EvenFlux(Arrows(ts), w);
    }
  }

  lemma RunsByIndicator(ts: seq<Tri<nat>>, x: nat, y: nat)
    requires x != y
    ensures TriFlux(ts, Indicator(x, y)) == Runs(ts, x, y) as real - Runs(ts, y, x) as real
  {
    TriFluxIsFlux(ts, Indicator(x, y));
    IndicatorFlux(Arrows(ts), x, y);
  }

  /** To be balanced it is enough that the indicators of single edges add up to zero. */
  lemma BalancedByIndicators(ts: seq<Tri<nat>>)
    requires forall x: nat, y: nat :: x != y ==> TriFlux(ts, Indicator(x, y)) == 0.0
    ensures Balanced(ts)
  {
    forall x: nat, y: nat ensures multiset(Arrows(ts))[(x, y)] == multiset(Arrows(ts))[(y, x)] {
      if x != y { RunsByIndicator(ts, x, y); }
    }
    EvenIsBalanced(ts);
  }

  /** A mesh is balanced exactly when it runs along every edge as often one way as the other. */
  lemma BalancedIsEven(ts: seq<Tri<nat>>)
    ensures Balanced(ts) <==> forall p: nat, q: nat :: Runs(ts, p, q) == Runs(ts, q, p)
  {
    if Balanced(ts) {
      forall p: nat, q: nat ensures Runs(ts, p, q) == Runs(ts, q, p) {
        if p != q { RunsByIndicator(ts, p, q); }
      }
    } else if forall p: nat, q: nat :: Runs(ts, p, q) == Runs(ts, q, p) {
      forall p: nat, q: nat ensures multiset(Arrows(ts))[(p, q)] == multiset(Arrows(ts))[(q, p)] {
        assert Runs(ts, p, q) == Runs(ts, q, p);
      }
      EvenIsBalanced(ts);
    }
  }

  lemma RunsNext(ts: seq<Tri<nat>>, p: nat, q: nat)
    requires ts != []
    ensures var t := ts[|ts| - 1];
            Runs(ts, p, q) == Runs(ts[..|ts| - 1], p, q) + Goes(t.a, t.b, p, q) + Goes(t.b, t.c, p, q) + Goes(t.c, t.a, p, q)
  {
    var t := ts[|ts| - 1];
    var s := Arrows(ts[..|ts| - 1]);
    assert multiset(Arrows(ts)) == multiset(s) + multiset{(t.a, t.b)} + multiset{(t.b, t.c)} + multiset{(t.c, t.a)};
  }

  /** 1 when a side from u to v runs from p to q. */
  function Goes(u: nat, v: nat, p: nat, q: nat): (r: nat) { if u == p && v == q then 1 else 0 }

  /** The sides at an edge run along it one way or the other. */
  lemma {:induction false} SidesRun(ts: seq<Tri<nat>>, p: nat, q: nat)
    requires p != q
    ensures SideCount(ts, p, q) == Runs(ts, p, q) + Runs(ts, q, p)
  {
    if ts != [] {
      SidesRun(ts[..|ts| - 1], p, q);
      RunsNext(ts, p, q);
      RunsNext(ts, q, p);
    }
  }
}
