/** The compile cache, and why it is exactly "the most recently requested distinct sources". */
module ExpressionCache {
  import opened Geometry

  const MAX_SERIAL := 0xFFFF_FFFF_FFFF_FFFF

  // ----- What a history of requests leaves behind -----------------------------------------------

  ghost predicate NoDup<S>(xs: seq<S>) {
    forall i, j :: 0 <= i < j < |xs| ==> xs[i] != xs[j]
  }

  ghost function Position<S>(xs: seq<S>, s: S): (p: nat)
    requires s in xs
    ensures p < |xs| && xs[p] == s && s !in xs[..p]
  {
    if xs[0] == s then 0 else 1 + Position(xs[1..], s)
  }

  ghost function Without<S>(xs: seq<S>, s: S): (r: seq<S>) {
    if s in xs then xs[..Position(xs, s)] + xs[Position(xs, s) + 1..] else xs
  }

  /** The distinct sources of a history, each at its latest request. */
  ghost function Distinct<S>(history: seq<S>): (xs: seq<S>)
  {
    if history == [] then []
    else Without(Distinct(history[..|history| - 1]), history[|history| - 1]) + [history[|history| - 1]]
  }

  ghost function Last<S>(xs: seq<S>, n: nat): (r: seq<S>) {
    if |xs| <= n then xs else xs[|xs| - n..]
  }

  /** What follows the latest request for a source. */
  ghost function Since<S>(history: seq<S>, s: S): (r: seq<S>)
    requires s in history
  {
    var n := |history| - 1;
    if history[n] == s then [] else Since(history[..n], s) + [history[n]]
  }

  lemma WithoutIsExact<S>(xs: seq<S>, s: S)
    requires NoDup(xs)
    ensures NoDup(Without(xs, s)) && s !in Without(xs, s)
    ensures forall t :: t in Without(xs, s) <==> t in xs && t != s
  {
    if s in xs {
      var p := Position(xs, s);
      var ys := Without(xs, s);
      forall t | t in xs && t != s ensures t in ys {
        var i :| 0 <= i < |xs| && xs[i] == t;
        assert if i < p then ys[i] == t else ys[i - 1] == t;
      }
    }
  }

  lemma {:induction false} DistinctIsExact<S>(history: seq<S>)
    ensures NoDup(Distinct(history)) && forall s :: s in Distinct(history) <==> s in history
  {
    if history != [] {
      var n := |history| - 1;
      DistinctIsExact(history[..n]);
      WithoutIsExact(Distinct(history[..n]), history[n]);
      assert history == history[..n] + [history[n]];
    }
  }

  lemma PositionIsUnique<S>(xs: seq<S>, s: S, p: nat)
    requires NoDup(xs) && p < |xs| && xs[p] == s
    ensures Position(xs, s) == p
  {
  }

  lemma NoDupSlice<S>(xs: seq<S>, low: nat, high: nat)
    requires NoDup(xs) && low <= high <= |xs|
    ensures NoDup(xs[low..high])
  {
  }

  lemma InLast<S>(xs: seq<S>, s: S, n: nat)
    requires NoDup(xs)
    ensures s in Last(xs, n) <==> s in xs && |xs| <= Position(xs, s) + n
  {
    if s in xs {
      var p := Position(xs, s);
      if |xs| > n && |xs| <= p + n { assert Last(xs, n)[p - (|xs| - n)] == s; }
      assert forall i :: 0 <= i < |xs| && xs[i] == s ==> i == p;
    }
  }

  lemma WithoutMiddle<S>(front: seq<S>, s: S, back: seq<S>)
    requires NoDup(front + [s] + back)
    ensures Without(front + [s] + back, s) == front + back
  {
    PositionIsUnique(front + [s] + back, s, |front|);
  }

  lemma SplitAt<S>(xs: seq<S>, s: S) returns (front: seq<S>, back: seq<S>)
    requires s in xs
    ensures xs == front + [s] + back
  {
    var p := Position(xs, s);
    front, back := xs[..p], xs[p + 1..];
  }

  lemma InFront<S>(xs: seq<S>, s: S)
    requires s in xs && xs[|xs| - 1] != s
    ensures s in xs[..|xs| - 1]
  {
    var i :| 0 <= i < |xs| && xs[i] == s;
    assert xs[..|xs| - 1][i] == s;
  }

  /** The distinct sources end with one source and then exactly those requested since it. */
  lemma {:induction false} DistinctSplits<S>(history: seq<S>, s: S) returns (front: seq<S>)
    requires s in history
    ensures Distinct(history) == front + [s] + Distinct(Since(history, s))
  {
    var n := |history| - 1;
    var before, t := history[..n], history[n];
    if t == s {
      front := Without(Distinct(before), t);
    } else {
      InFront(history, s);
      var f := DistinctSplits(before, s);
      var back := Distinct(Since(before, s));
      DistinctIsExact(before);
      assert (Since(before, s) + [t])[..|Since(before, s)|] == Since(before, s);
      front := WithoutSplit(f, s, back, t);
    }
  }

  lemma WithoutSplit<S>(front: seq<S>, s: S, back: seq<S>, t: S) returns (front': seq<S>)
    requires NoDup(front + [s] + back) && t != s
    ensures Without(front + [s] + back, t) == front' + [s] + Without(back, t)
  {
    var all := front + [s] + back;
    front' := front;
    if t in back {
      var b, c := SplitAt(back, t);
      assert all == (front + [s] + b) + [t] + c;
      WithoutMiddle(front + [s] + b, t, c);
      NoDupSlice(all, |front| + 1, |all|);
      assert all[|front| + 1..|all|] == back == b + [t] + c;
      WithoutMiddle(b, t, c);
    } else if t in front {
      var b, c := SplitAt(front, t);
      front' := b + c;
      assert all == b + [t] + (c + [s] + back);
      WithoutMiddle(b, t, c + [s] + back);
    } else {
      assert t !in all;
    }
  }

  /** A source stays cached exactly while fewer than `capacity` distinct sources were requested since it. */
  lemma CachedIffRecent<S>(history: seq<S>, s: S, capacity: nat)
    ensures s in Last(Distinct(history), capacity)
       <==> s in history && |Distinct(Since(history, s))| < capacity
  {
    DistinctIsExact(history);
    var xs := Distinct(history);
    if s in history {
      var front := DistinctSplits(history, s);
      var back := Distinct(Since(history, s));
      PositionIsUnique(xs, s, |front|);
    }
    InLast(xs, s, capacity);
  }

  /** The same requests to a larger cache: it holds everything the smaller one holds. */
  lemma LargerContainsSmaller<S>(history: seq<S>, small: nat, large: nat)
    requires small <= large
    ensures forall s :: s in Last(Distinct(history), small) ==> s in Last(Distinct(history), large)
  {
    var xs := Distinct(history);
    forall s | s in Last(xs, small) ensures s in Last(xs, large) {
      CachedIffRecent(history, s, small);
      CachedIffRecent(history, s, large);
    }
  }

  lemma WithoutBehind<S>(a: seq<S>, kept: seq<S>, s: S)
    requires NoDup(a + kept) && s in kept
    ensures Without(a + kept, s) == a + Without(kept, s)
    ensures |Without(kept, s)| == |kept| - 1
  {
    var p := Position(kept, s);
    Joined(a, kept, p);
    WithoutAt(a + kept, s, |a| + p);
    Cut(a, kept, p);
    Regroup(a, kept[..p], kept[p + 1..]);
  }

  lemma Joined<S>(a: seq<S>, b: seq<S>, p: nat)
    requires p < |b|
    ensures (a + b)[|a| + p] == b[p]
  {
  }

  lemma WithoutAt<S>(xs: seq<S>, s: S, p: nat)
    requires NoDup(xs) && p < |xs| && xs[p] == s
    ensures Without(xs, s) == xs[..p] + xs[p + 1..]
  {
    PositionIsUnique(xs, s, p);
  }

  lemma Cut<S>(a: seq<S>, b: seq<S>, p: nat)
    requires p < |b|
    ensures (a + b)[..|a| + p] == a + b[..p] && (a + b)[|a| + p + 1..] == b[p + 1..]
  {
  }

  lemma Regroup<S>(a: seq<S>, b: seq<S>, c: seq<S>)
    ensures (a + b) + c == a + (b + c)
  {
  }

  /** A request for a cached source moves it to the end. */
  lemma LastAfterHit<S>(xs: seq<S>, s: S, n: nat)
    requires NoDup(xs) && s in Last(xs, n)
    ensures Last(Without(xs, s) + [s], n) == Without(Last(xs, n), s) + [s]
  {
    var kept := Last(xs, n);
    var a := xs[..|xs| - |kept|];
    assert xs == a + kept;
    LastAfterHitBehind(a, kept, s, n);
  }

  lemma LastAfterHitBehind<S>(a: seq<S>, kept: seq<S>, s: S, n: nat)
    requires NoDup(a + kept) && s in kept && |kept| <= n && (a == [] || |kept| == n)
    ensures Last(Without(a + kept, s) + [s], n) == Without(kept, s) + [s]
  {
    WithoutBehind(a, kept, s);
    var w := Without(kept, s);
    LastOfJoin(a, w + [s], n);
    Regroup(a, w, [s]);
  }

  lemma LastOfJoin<S>(a: seq<S>, b: seq<S>, n: nat)
    requires |b| <= n && (a == [] || |b| == n)
    ensures Last(a + b, n) == b
  {
  }

  /** A request for a source not cached adds it at the end, in place of the oldest when the cache is full. */
  lemma LastAfterMiss<S>(xs: seq<S>, s: S, n: nat)
    requires NoDup(xs) && n > 0 && s !in Last(xs, n)
    ensures Last(Without(xs, s) + [s], n) == (if |Last(xs, n)| < n then Last(xs, n) else Last(xs, n)[1..]) + [s]
  {
    InLast(xs, s, n);
    if s in xs {
      var b, c := SplitAt(xs, s);
      WithoutMiddle(b, s, c);
      PositionIsUnique(xs, s, |b|);
      LastOfLong(b + [s], c, n);
      LastOfLong(b, c, n);
      LastOfAppend(b + c, s, n);
    } else {
      LastOfAppend(xs, s, n);
    }
  }

  lemma LastOfLong<S>(a: seq<S>, b: seq<S>, n: nat)
    requires n <= |b|
    ensures Last(a + b, n) == b[|b| - n..]
  {
    assert (a + b)[|a| + |b| - n..] == b[|b| - n..];
  }

  lemma LastOfAppend<S>(xs: seq<S>, s: S, n: nat)
    requires n > 0
    ensures Last(xs + [s], n) == (if |Last(xs, n)| < n then Last(xs, n) else Last(xs, n)[1..]) + [s]
  {
    if |xs| >= n { assert (xs + [s])[|xs| + 1 - n..] == xs[|xs| - n..][1..] + [s]; }
  }

  // ----- Entries against the requests they answer -------------------------------------------------

  datatype Entry<S, E> = Entry(source: S, expression: E, lastUse: nat)

  ghost predicate Sole<S(!new), E>(entries: seq<Entry<S, E>>) {
    forall i, j :: 0 <= i < j < |entries| ==> entries[i].source != entries[j].source
  }

  ghost predicate Holds<S(!new), E>(entries: seq<Entry<S, E>>, s: S) {
    exists i :: 0 <= i < |entries| && entries[i].source == s
  }

  /** One entry for each listed source, stamped in the order of the list and not after `serial`. */
  ghost predicate Mirrors<S(!new), E>(entries: seq<Entry<S, E>>, recent: seq<S>, serial: nat) {
    && Sole(entries) && NoDup(recent)
    && (forall s :: Holds(entries, s) <==> s in recent)
    && (forall i :: 0 <= i < |entries| ==> entries[i].lastUse <= serial)
    && Ordered(entries, recent)
  }

  ghost predicate Ordered<S(!new), E>(entries: seq<Entry<S, E>>, recent: seq<S>) {
    forall i, j, p, q ::
      (0 <= i < |entries| && 0 <= j < |entries| && 0 <= p < q < |recent|
       && entries[i].source == recent[p] && entries[j].source == recent[q])
      ==> entries[i].lastUse < entries[j].lastUse
  }

  function Cut1<T>(xs: seq<T>, i: nat): (r: seq<T>)
    requires i < |xs|
  {
    xs[..i] + xs[i + 1..]
  }

  lemma WithoutKeepsOrder<S>(xs: seq<S>, s: S, p: nat, q: nat) returns (p': nat, q': nat)
    requires NoDup(xs) && p < q < |Without(xs, s)|
    ensures p' < q' < |xs| && xs[p'] == Without(xs, s)[p] && xs[q'] == Without(xs, s)[q]
  {
    p', q' := p, q;
    if s in xs {
      var k := Position(xs, s);
      p' := if p < k then p else p + 1;
      q' := if q < k then q else q + 1;
    }
  }

  lemma TouchMirrors<S(!new), E>(entries: seq<Entry<S, E>>, recent: seq<S>, serial: nat, i: nat)
    requires Mirrors(entries, recent, serial) && i < |entries|
    ensures var s := entries[i].source;
            Mirrors(entries[i := entries[i].(lastUse := serial + 1)], Without(recent, s) + [s], serial + 1)
  {
    var s := entries[i].source;
    var after := entries[i := entries[i].(lastUse := serial + 1)];
    var recent' := Without(recent, s) + [s];
    assert Holds(entries, s);
    WithoutIsExact(recent, s);
    forall t ensures Holds(after, t) <==> t in recent' {
      assert Holds(after, t) <==> Holds(entries, t) by {
        if Holds(entries, t) {
          var j :| 0 <= j < |entries| && entries[j].source == t;
          assert after[j].source == t;
        }
        if Holds(after, t) {
          var j :| 0 <= j < |after| && after[j].source == t;
          assert entries[j].source == t;
        }
      }
    }
    forall j, k, p, q | 0 <= j < |after| && 0 <= k < |after| && 0 <= p < q < |recent'| &&
      after[j].source == recent'[p] && after[k].source == recent'[q]
      ensures after[j].lastUse < after[k].lastUse
    {
      if q < |recent'| - 1 {
        var p', q' := WithoutKeepsOrder(recent, s, p, q);
        assert entries[j].source == recent[p'] && entries[k].source == recent[q'];
        assert recent'[p] in Without(recent, s) && recent'[q] in Without(recent, s);
      } else {
        assert recent'[p] in Without(recent, s);
        assert entries[k].source == s;
      }
    }
  }

  /** The least recently stamped entry is the first of the list. */
  lemma OldestIsFirst<S(!new), E>(entries: seq<Entry<S, E>>, recent: seq<S>, serial: nat, i: nat)
    requires Mirrors(entries, recent, serial) && i < |entries|
    requires forall j :: 0 <= j < |entries| ==> entries[i].lastUse <= entries[j].lastUse
    ensures recent != [] && entries[i].source == recent[0]
  {
    assert Holds(entries, entries[i].source);
    var p :| 0 <= p < |recent| && recent[p] == entries[i].source;
    assert recent[0] in recent;
    assert Holds(entries, recent[0]);
    var k :| 0 <= k < |entries| && entries[k].source == recent[0];
    var younger := entries[k].lastUse < entries[i].lastUse;
    assert p > 0 ==> younger;
  }

  lemma CutHolds<S(!new), E>(entries: seq<Entry<S, E>>, i: nat, t: S)
    requires Sole(entries) && i < |entries|
    ensures Holds(Cut1(entries, i), t) <==> Holds(entries, t) && t != entries[i].source
  {
    var after := Cut1(entries, i);
    if Holds(after, t) {
      var j :| 0 <= j < |after| && after[j].source == t;
      assert entries[if j < i then j else j + 1].source == t;
    }
    if Holds(entries, t) && t != entries[i].source {
      var j :| 0 <= j < |entries| && entries[j].source == t;
      assert after[if j < i then j else j - 1].source == t;
    }
  }

  lemma EvictMirrors<S(!new), E>(entries: seq<Entry<S, E>>, recent: seq<S>, serial: nat, i: nat)
    requires Mirrors(entries, recent, serial) && i < |entries|
    requires forall j :: 0 <= j < |entries| ==> entries[i].lastUse <= entries[j].lastUse
    ensures recent != [] && entries[i].source == recent[0]
    ensures Mirrors(Cut1(entries, i), recent[1..], serial)
  {
    OldestIsFirst(entries, recent, serial, i);
    var after, rest := Cut1(entries, i), recent[1..];
    forall t ensures Holds(after, t) <==> t in rest {
      CutHolds(entries, i, t);
      assert recent == [recent[0]] + rest;
    }
    CutIsOrdered(entries, recent, i);
  }

  lemma CutIsOrdered<S(!new), E>(entries: seq<Entry<S, E>>, recent: seq<S>, i: nat)
    requires Ordered(entries, recent) && recent != [] && i < |entries|
    ensures Ordered(Cut1(entries, i), recent[1..])
  {
    var after, rest := Cut1(entries, i), recent[1..];
    forall j, m, p, q | 0 <= j < |after| && 0 <= m < |after| && 0 <= p < q < |rest| &&
      after[j].source == rest[p] && after[m].source == rest[q]
      ensures after[j].lastUse < after[m].lastUse
    {
      assert rest[p] == recent[p + 1] && rest[q] == recent[q + 1];
      assert after[j] == entries[if j < i then j else j + 1] && after[m] == entries[if m < i then m else m + 1];
    }
  }

  lemma AppendMirrors<S(!new), E>(entries: seq<Entry<S, E>>, recent: seq<S>, serial: nat, e: Entry<S, E>)
    requires Mirrors(entries, recent, serial) && e.source !in recent && e.lastUse == serial + 1
    ensures Mirrors(entries + [e], recent + [e.source], serial + 1)
  {
    var after, recent' := entries + [e], recent + [e.source];
    assert !Holds(entries, e.source);
    forall t ensures Holds(after, t) <==> t in recent' {
      if Holds(entries, t) {
        var j :| 0 <= j < |entries| && entries[j].source == t;
        assert after[j].source == t;
      }
      assert after[|entries|].source == e.source;
      if Holds(after, t) {
        var j :| 0 <= j < |after| && after[j].source == t;
        if j < |entries| { assert entries[j].source == t; }
      }
    }
    forall j, m, p, q | 0 <= j < |after| && 0 <= m < |after| && 0 <= p < q < |recent'| &&
      after[j].source == recent'[p] && after[m].source == recent'[q]
      ensures after[j].lastUse < after[m].lastUse
    {
      assert p < |recent| && recent'[p] in recent;
      assert j < |entries|;
    }
  }

  lemma Something<S(!new)>(xs: seq<S>)
    ensures xs == [] || exists s :: s in xs
  {
    if xs != [] { assert xs[0] in xs; }
  }

  lemma {:induction false} MirrorsCount<S(!new), E>(entries: seq<Entry<S, E>>, recent: seq<S>, serial: nat)
    requires Mirrors(entries, recent, serial)
    ensures |entries| == |recent|
    decreases |entries|
  {
    if entries == [] {
      Something(recent);
    } else {
      var i := Least(entries);
      EvictMirrors(entries, recent, serial, i);
      MirrorsCount(Cut1(entries, i), recent[1..], serial);
    }
  }

  lemma {:induction false} Least<S(!new), E>(entries: seq<Entry<S, E>>) returns (i: nat)
    requires entries != []
    ensures i < |entries| && forall j :: 0 <= j < |entries| ==> entries[i].lastUse <= entries[j].lastUse
  {
    i := 0;
    var k := 0;
    while k < |entries|
      invariant 0 <= k <= |entries| && i < |entries|
      invariant forall j :: 0 <= j < k ==> entries[i].lastUse <= entries[j].lastUse
    {
      if entries[k].lastUse < entries[i].lastUse { i := k; }
      k := k + 1;
    }
  }

  // ----- One request ----------------------------------------------------------------------------

  lemma HitKeeps<S(!new), E>(entries: seq<Entry<S, E>>, history: seq<S>, n: nat, serial: nat, i: nat)
    requires Mirrors(entries, Last(Distinct(history), n), serial) && i < |entries|
    ensures Mirrors(entries[i := entries[i].(lastUse := serial + 1)],
                    Last(Distinct(history + [entries[i].source]), n), serial + 1)
  {
    var s, xs := entries[i].source, Distinct(history);
    DistinctIsExact(history);
    assert Holds(entries, s);
    assert (history + [s])[..|history|] == history;
    LastAfterHit(xs, s, n);
    TouchMirrors(entries, Last(xs, n), serial, i);
  }

  /** What a miss leaves of the entries: all of them, or all but the oldest when there is no room. */
  ghost predicate MakesRoom<S, E>(entries: seq<Entry<S, E>>, kept: seq<Entry<S, E>>, n: nat) {
    if |entries| < n then kept == entries
    else exists i :: 0 <= i < |entries| && kept == Cut1(entries, i)
           && forall j :: 0 <= j < |entries| ==> entries[i].lastUse <= entries[j].lastUse
  }

  lemma MissKeeps<S(!new), E>(entries: seq<Entry<S, E>>, history: seq<S>, n: nat, serial: nat,
                              kept: seq<Entry<S, E>>, e: Entry<S, E>)
    requires n > 0 && Mirrors(entries, Last(Distinct(history), n), serial) && !Holds(entries, e.source)
    requires MakesRoom(entries, kept, n) && e.lastUse == serial + 1
    ensures Mirrors(kept + [e], Last(Distinct(history + [e.source]), n), serial + 1)
  {
    var s, xs := e.source, Distinct(history);
    var recent := Last(xs, n);
    DistinctIsExact(history);
    assert (history + [s])[..|history|] == history;
    LastAfterMiss(xs, s, n);
    MirrorsCount(entries, recent, serial);
    if |entries| < n {
      AppendMirrors(entries, recent, serial, e);
    } else {
      var i :| 0 <= i < |entries| && kept == Cut1(entries, i)
        && forall j :: 0 <= j < |entries| ==> entries[i].lastUse <= entries[j].lastUse;
      EvictMirrors(entries, recent, serial, i);
      assert s !in recent[1..];
      AppendMirrors(kept, recent[1..], serial, e);
    }
  }

  /** Once the stamps start again from 0, the order of use is lost unless the request left nothing else. */
  lemma WrapLosesOrder<S(!new), E>(entries: seq<Entry<S, E>>, recent: seq<S>, serial: nat, k: nat)
    requires Mirrors(entries, recent, serial) && k < |entries| && recent != []
    requires entries[k].source == recent[|recent| - 1]
    ensures Mirrors(entries[k := entries[k].(lastUse := 0)], recent, 0) <==> |entries| <= 1
  {
    var after := entries[k := entries[k].(lastUse := 0)];
    MirrorsCount(entries, recent, serial);
    if |entries| <= 1 {
      forall t ensures Holds(after, t) <==> Holds(entries, t) {
        assert after[0].source == entries[0].source;
      }
    } else {
      var j := if k == 0 then 1 else 0;
      assert Holds(entries, entries[j].source);
      var p :| 0 <= p < |recent| && recent[p] == entries[j].source;
      var earlier := after[j].lastUse < after[k].lastUse;
      assert Ordered(after, recent) ==> earlier;
    }
  }

  /** After a hit the order is exact, unless the stamp has just started from 0 among other entries. */
  lemma HitIsExact<S(!new), E>(entries: seq<Entry<S, E>>, history: seq<S>, n: nat, serial: nat, i: nat)
    requires n > 0 && Mirrors(entries, Last(Distinct(history), n), serial) && i < |entries|
    ensures var recent := Last(Distinct(history + [entries[i].source]), n);
            && Mirrors(entries[i := entries[i].(lastUse := serial + 1)], recent, serial + 1)
            && (Mirrors(entries[i := entries[i].(lastUse := 0)], recent, 0) <==> |entries| <= 1)
  {
    var recent := Last(Distinct(history + [entries[i].source]), n);
    var later := entries[i := entries[i].(lastUse := serial + 1)];
    HitKeeps(entries, history, n, serial, i);
    LastIsLatest(history + [entries[i].source], n);
    WrapLosesOrder(later, recent, serial + 1, i);
    assert later[i := later[i].(lastUse := 0)] == entries[i := entries[i].(lastUse := 0)];
  }

  lemma MissIsExact<S(!new), E>(entries: seq<Entry<S, E>>, history: seq<S>, n: nat, serial: nat,
                                kept: seq<Entry<S, E>>, e: Entry<S, E>)
    requires n > 0 && Mirrors(entries, Last(Distinct(history), n), serial) && !Holds(entries, e.source)
    requires MakesRoom(entries, kept, n)
    ensures var recent := Last(Distinct(history + [e.source]), n);
            && Mirrors(kept + [e.(lastUse := serial + 1)], recent, serial + 1)
            && (Mirrors(kept + [e.(lastUse := 0)], recent, 0) <==> |kept| == 0)
  {
    var recent := Last(Distinct(history + [e.source]), n);
    MissKeeps(entries, history, n, serial, kept, e.(lastUse := serial + 1));
    LastIsLatest(history + [e.source], n);
    WrapAfterAppend(kept, e, recent, serial);
  }

  lemma WrapAfterAppend<S(!new), E>(kept: seq<Entry<S, E>>, e: Entry<S, E>, recent: seq<S>, serial: nat)
    requires Mirrors(kept + [e.(lastUse := serial + 1)], recent, serial + 1)
    requires recent != [] && e.source == recent[|recent| - 1]
    ensures Mirrors(kept + [e.(lastUse := 0)], recent, 0) <==> |kept| == 0
  {
    var later := kept + [e.(lastUse := serial + 1)];
    WrapLosesOrder(later, recent, serial + 1, |kept|);
    assert later[|kept| := later[|kept|].(lastUse := 0)] == kept + [e.(lastUse := 0)];
  }

  lemma LastIsLatest<S>(history: seq<S>, n: nat)
    requires history != [] && n > 0
    ensures var recent := Last(Distinct(history), n);
            recent != [] && recent[|recent| - 1] == history[|history| - 1]
  {
  }

  /** Where stamps are in order, the scan finds the least of them even if one is the largest possible. */
  lemma OldestIsLeast<S(!new), E>(entries: seq<Entry<S, E>>, recent: seq<S>, serial: nat, oldest: nat)
    requires Mirrors(entries, recent, serial) && serial <= MAX_SERIAL && oldest < |entries|
    requires forall i :: 0 <= i < |entries| && entries[i].lastUse < MAX_SERIAL
               ==> entries[oldest].lastUse <= entries[i].lastUse
    ensures forall i :: 0 <= i < |entries| ==> entries[oldest].lastUse <= entries[i].lastUse
  {
  }

  // ----- The cache ------------------------------------------------------------------------------

  class Cache<S(==, !new), E> {
    const compile: S -> Option<E>
    const capacity: nat
    var entries: seq<Entry<S, E>>
    var useSerial: nat
    /** The requests that compiled, since the last clear. */
    ghost var history: seq<S>

    constructor (compile: S -> Option<E>, capacity: nat)
      ensures Valid() && Exact() && this.compile == compile && this.capacity == capacity
      ensures entries == [] && history == [] && useSerial == 0
    {
      this.compile := compile;
      this.capacity := capacity;
      entries, useSerial, history := [], 0, [];
    }

    /** Every entry holds the compilation of its own source, whatever the stamps. */
    ghost predicate Valid() reads this {
      && |entries| <= capacity && useSerial <= MAX_SERIAL
      && forall i :: 0 <= i < |entries| ==> compile(entries[i].source) == Some(entries[i].expression)
    }

    /** The cache holds the `capacity` most recently requested distinct sources, stamped in that order. */
    ghost predicate Exact() reads this {
      Mirrors(entries, Last(Distinct(history), capacity), useSerial)
    }

    method Clear()
      requires Valid()
      modifies `entries, `history
      ensures Valid() && Exact() && entries == [] && history == []
    {
      entries, history := [], [];
    }

    method Find(source: S) returns (index: nat)
      ensures index <= |entries|
      ensures index < |entries| ==> entries[index].source == source
      ensures index == |entries| ==> !Holds(entries, source)
    {
      index := 0;
      while index < |entries|
        invariant 0 <= index <= |entries|
        invariant forall i :: 0 <= i < index ==> entries[i].source != source
      {
        if entries[index].source == source { return; }
        index := index + 1;
      }
    }

    /** The first entry with the smallest stamp below the largest possible one. */
    method Oldest() returns (oldest: nat)
      requires entries != []
      ensures oldest < |entries|
      ensures forall i :: 0 <= i < |entries| && entries[i].lastUse < MAX_SERIAL
                ==> entries[oldest].lastUse <= entries[i].lastUse
      ensures (forall i :: 0 <= i < |entries| ==> entries[i].lastUse >= MAX_SERIAL) ==> oldest == 0
    {
      oldest := 0;
      var oldestUse := MAX_SERIAL;
      var index := 0;
      while index < |entries|
        invariant 0 <= index <= |entries| && oldest < |entries| && oldestUse <= MAX_SERIAL
        invariant oldestUse < MAX_SERIAL ==> entries[oldest].lastUse == oldestUse
        invariant oldestUse == MAX_SERIAL ==> oldest == 0
        invariant forall i :: 0 <= i < index ==> oldestUse <= entries[i].lastUse
      {
        if entries[index].lastUse < oldestUse {
          oldest, oldestUse := index, entries[index].lastUse;
        }
        index := index + 1;
      }
    }

    /** The next stamp; it starts again from 0 after the largest. */
    method Stamp() returns (stamp: nat)
      requires useSerial <= MAX_SERIAL
      modifies `useSerial
      ensures stamp == useSerial == (if old(useSerial) == MAX_SERIAL then 0 else old(useSerial) + 1)
    {
      useSerial := (useSerial + 1) % (MAX_SERIAL + 1);
      stamp := useSerial;
    }

    method Get(source: S) returns (r: Option<E>)
      requires Valid()
      modifies `entries, `useSerial, `history
      ensures Valid() && r == compile(source)
      ensures r.None? ==> entries == old(entries) && useSerial == old(useSerial) && history == old(history)
      ensures r.Some? ==> history == old(history) + [source]
      ensures useSerial <= old(useSerial) + 1
      ensures old(Exact()) && old(useSerial) < MAX_SERIAL ==> Exact()
      ensures old(Exact()) && old(useSerial) == MAX_SERIAL && r.Some? && capacity > 0 ==> (Exact() <==> |entries| <= 1)
    {
      var index := Find(source);
      if index < |entries| {
        r := Some(entries[index].expression);
        Touch(index);
        return;
      }
      var compiled := compile(source);
      if compiled.None? { return None; }
      Store(source, compiled.value);
      return compiled;
    }

    method Touch(index: nat)
      requires Valid() && index < |entries|
      modifies `entries, `useSerial, `history
      ensures Valid() && history == old(history) + [old(entries)[index].source] && |entries| == |old(entries)|
      ensures useSerial <= old(useSerial) + 1
      ensures old(Exact()) && old(useSerial) < MAX_SERIAL ==> Exact()
      ensures old(Exact()) && old(useSerial) == MAX_SERIAL ==> (Exact() <==> |entries| <= 1)
    {
      ghost var before, past, serial := entries, history, useSerial;
      var stamp := Stamp();
      entries := entries[index := entries[index].(lastUse := stamp)];
      history := history + [before[index].source];
      if old(Exact()) { HitIsExact(before, past, capacity, serial, index); }
    }

    method Store(source: S, expression: E)
      requires Valid() && !Holds(entries, source) && compile(source) == Some(expression)
      modifies `entries, `useSerial, `history
      ensures Valid() && history == old(history) + [source] && useSerial <= old(useSerial) + 1
      ensures old(Exact()) && old(useSerial) < MAX_SERIAL ==> Exact()
      ensures old(Exact()) && old(useSerial) == MAX_SERIAL && capacity > 0 ==> (Exact() <==> |entries| <= 1)
    {
      ghost var before, past, serial := entries, history, useSerial;
      history := history + [source];
      if capacity == 0 {
        assert Last(Distinct(past), 0) == [] == Last(Distinct(history), 0);
        return;
      }
      MakeRoom();
      ghost var kept := entries;
      var stamp := Stamp();
      var entry := Entry(source, expression, stamp);
      entries := entries + [entry];
      if old(Exact()) {
        MissIsExact(before, past, capacity, serial, kept, entry);
        assert entry == entry.(lastUse := if serial == MAX_SERIAL then 0 else serial + 1);
        assert Exact() == Mirrors(kept + [entry], Last(Distinct(past + [source]), capacity), stamp);
      }
    }

    method MakeRoom()
      requires Valid() && capacity > 0
      modifies `entries
      ensures Valid() && |entries| < capacity
      ensures (exists recent :: Mirrors(old(entries), recent, useSerial)) ==> MakesRoom(old(entries), entries, capacity)
    {
      if |entries| >= capacity {
        var oldest := Oldest();
        ghost var before := entries;
        if recent :| Mirrors(before, recent, useSerial) {
          OldestIsLeast(before, recent, useSerial, oldest);
        }
        entries := Cut1(entries, oldest);
      }
    }
  }

  /** Of two caches with the same history, the one with the larger capacity holds everything that the other one holds. */
  lemma LargerCacheHolds<S(!new), E>(small: Cache<S, E>, large: Cache<S, E>)
    requires small.Exact() && large.Exact() && small.history == large.history && small.capacity <= large.capacity
    ensures forall s :: Holds(small.entries, s) ==> Holds(large.entries, s)
  {
    LargerContainsSmaller(small.history, small.capacity, large.capacity);
  }

  /** Two caches fed the same requests: both answer alike, and the larger one still holds all that the smaller one does. */
  method FeedBoth<S(!new), E>(small: Cache<S, E>, large: Cache<S, E>, requests: seq<S>)
    requires small != large && small.Valid() && large.Valid() && small.Exact() && large.Exact()
    requires small.compile == large.compile && small.capacity <= large.capacity && small.history == large.history
    requires small.useSerial + |requests| <= MAX_SERIAL && large.useSerial + |requests| <= MAX_SERIAL
    modifies small, large
    ensures small.Valid() && large.Valid() && small.Exact() && large.Exact() && small.history == large.history
    ensures forall s :: Holds(small.entries, s) ==> Holds(large.entries, s)
  {
    var i := 0;
    while i < |requests|
      invariant 0 <= i <= |requests| && small.Valid() && large.Valid() && small.Exact() && large.Exact()
      invariant small.history == large.history
      invariant small.useSerial + |requests| - i <= MAX_SERIAL && large.useSerial + |requests| - i <= MAX_SERIAL
    {
      var a := small.Get(requests[i]);
      var b := large.Get(requests[i]);
      assert a == b;
      i := i + 1;
    }
    LargerCacheHolds(small, large);
  }
}
