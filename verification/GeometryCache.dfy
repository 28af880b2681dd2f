/** The generation, recency and byte-budget cache of converted leaves, as a table of entries updated in place. */
module GeometryCache {
  import opened Geometry
  import opened Totals

  const MAX_COUNTER := 0xFFFF_FFFF_FFFF_FFFF

  datatype Entry<+G> = Entry(input: nat, mtime: nat, output: G, generation: nat, lastUse: nat, bytes: nat)

  type Store<+G> = map<nat, Entry<G>>

  // ----- Byte totals ----------------------------------------------------------------------------

  /** Removing a slot by moving the last one into it. */
  function SwapRemove<T>(xs: seq<T>, i: nat): (r: seq<T>)
    requires i < |xs|
    ensures |r| == |xs| - 1
  {
    if i + 1 < |xs| then xs[i := xs[|xs| - 1]][..|xs| - 1] else xs[..|xs| - 1]
  }

  lemma TotalAfterRemoval(ws: seq<nat>, i: nat)
    requires i < |ws|
    ensures Total(SwapRemove(ws, i)) + ws[i] == Total(ws)
  {
    var n := |ws| - 1;
    var moved := ws[i := ws[n]];
    TotalUpdated(ws, i, ws[n]);
    assert moved[n] == ws[n] && Total(moved) == Total(moved[..n]) + moved[n];
    assert SwapRemove(ws, i) == moved[..n];
  }

  ghost predicate Once(ids: seq<nat>) {
    forall i, j :: 0 <= i < j < |ids| ==> ids[i] != ids[j]
  }

  ghost predicate Listed<G>(store: Store<G>, ids: seq<nat>) {
    forall i :: 0 <= i < |ids| ==> ids[i] in store
  }

  ghost function Bytes<G>(store: Store<G>, ids: seq<nat>): (ws: seq<nat>)
    requires Listed(store, ids)
    ensures |ws| == |ids| && forall i :: 0 <= i < |ids| ==> ws[i] == store[ids[i]].bytes
  {
    seq(|ids|, (i: nat) requires i < |ids| => store[ids[i]].bytes)
  }

  ghost predicate Complete<G>(store: Store<G>, ids: seq<nat>) {
    forall id :: id in store ==> exists i :: 0 <= i < |ids| && ids[i] == id
  }

  // ----- The state every step keeps ---------------------------------------------------------------

  ghost predicate Indexed<G>(store: Store<G>, index: map<nat, nat>) {
    forall x :: x in index ==> index[x] in store && store[index[x]].input == x
  }

  /** Listed entries are the live ones, index slots name live entries of the same input, bytes are the total. */
  ghost predicate Accounts<G>(store: Store<G>, ids: seq<nat>, index: map<nat, nat>, bytes: nat) {
    Once(ids) && Listed(store, ids) && Complete(store, ids) && Indexed(store, index) && bytes == Total(Bytes(store, ids))
  }

  lemma SwapRemoved<T>(xs: seq<T>, i: nat, k: nat)
    requires i < |xs| && k < |xs| - 1
    ensures SwapRemove(xs, i)[k] == if k == i then xs[|xs| - 1] else xs[k]
  {
  }

  lemma RemovalKeepsOnce<G>(store: Store<G>, ids: seq<nat>, i: nat)
    requires i < |ids| && Once(ids) && Listed(store, ids)
    ensures Once(SwapRemove(ids, i)) && Listed(store - {ids[i]}, SwapRemove(ids, i))
  {
    forall k | 0 <= k < |ids| - 1
      ensures SwapRemove(ids, i)[k] == if k == i then ids[|ids| - 1] else ids[k]
    {
      SwapRemoved(ids, i, k);
    }
  }

  lemma RemovalKeepsComplete<G>(store: Store<G>, ids: seq<nat>, i: nat)
    requires i < |ids| && Complete(store, ids)
    ensures Complete(store - {ids[i]}, SwapRemove(ids, i))
  {
    var r := SwapRemove(ids, i);
    forall id | id in store - {ids[i]} ensures exists k :: 0 <= k < |r| && r[k] == id {
      var k :| 0 <= k < |ids| && ids[k] == id;
      SwapRemoved(ids, i, if k < |ids| - 1 then k else i);
    }
  }

  lemma RemovalKeepsList<G>(store: Store<G>, ids: seq<nat>, i: nat)
    requires i < |ids| && Once(ids) && Listed(store, ids) && Complete(store, ids)
    ensures var r := SwapRemove(ids, i); var left := store - {ids[i]};
            Once(r) && Listed(left, r) && Complete(left, r) && Bytes(left, r) == SwapRemove(Bytes(store, ids), i)
  {
    RemovalKeepsOnce(store, ids, i);
    RemovalKeepsComplete(store, ids, i);
    assert Bytes(store - {ids[i]}, SwapRemove(ids, i)) == SwapRemove(Bytes(store, ids), i);
  }

  /** Some entries are gone, none of them used later than one that is left. */
  ghost predicate Aged<G>(before: Store<G>, store: Store<G>) {
    && (forall id :: id in store ==> id in before && store[id] == before[id])
    && forall a, b :: a in before && a !in store && b in store ==> before[a].lastUse <= store[b].lastUse
  }

  lemma AgedNext<G>(before: Store<G>, store: Store<G>, id: nat)
    requires Aged(before, store) && id in store && forall b :: b in store ==> store[id].lastUse <= store[b].lastUse
    ensures Aged(before, store - {id})
  {
  }

  lemma AccountsAfterRemoval<G>(store: Store<G>, ids: seq<nat>, index: map<nat, nat>, bytes: nat, i: nat)
    requires Accounts(store, ids, index, bytes) && i < |ids|
    ensures store[ids[i]].bytes <= bytes
    ensures Accounts(store - {ids[i]}, SwapRemove(ids, i), index - {store[ids[i]].input}, bytes - store[ids[i]].bytes)
  {
    RemovalKeepsList(store, ids, i);
    TotalAfterRemoval(Bytes(store, ids), i);
  }

  function Without<T>(xs: seq<T>, p: nat): (r: seq<T>)
    requires p < |xs|
    ensures |r| == |xs| - 1 && forall k :: 0 <= k < |r| ==> r[k] == xs[if k < p then k else k + 1]
  {
    xs[..p] + xs[p + 1..]
  }

  lemma CutKeepsList<G>(store: Store<G>, ids: seq<nat>, p: nat)
    requires p < |ids| && Once(ids) && Listed(store, ids) && Complete(store, ids)
    ensures var r := Without(ids, p); var left := store - {ids[p]};
            Once(r) && Listed(left, r) && Complete(left, r) && Bytes(left, r) == Without(Bytes(store, ids), p)
  {
    var r, left := Without(ids, p), store - {ids[p]};
    forall x | x in left ensures exists k :: 0 <= k < |r| && r[k] == x {
      var k :| 0 <= k < |ids| && ids[k] == x;
      assert r[if k < p then k else k - 1] == x;
    }
    assert Listed(left, r);
    assert Bytes(left, r) == Without(Bytes(store, ids), p);
  }

  lemma {:induction false} TotalAfterCut(ws: seq<nat>, p: nat)
    requires p < |ws|
    ensures Total(Without(ws, p)) + ws[p] == Total(ws)
  {
    var n := |ws| - 1;
    var r := Without(ws, p);
    if p == n {
      assert r == ws[..n];
    } else {
      assert r[..n - 1] == Without(ws[..n], p);
      TotalAfterCut(ws[..n], p);
    }
  }

  /** Removing one entry by closing the gap. */
  lemma AccountsAfterCut<G>(store: Store<G>, ids: seq<nat>, index: map<nat, nat>, bytes: nat, p: nat)
    requires Accounts(store, ids, index, bytes) && p < |ids|
    ensures store[ids[p]].bytes <= bytes
    ensures Accounts(store - {ids[p]}, Without(ids, p), index - {store[ids[p]].input}, bytes - store[ids[p]].bytes)
  {
    CutKeepsList(store, ids, p);
    TotalAfterCut(Bytes(store, ids), p);
  }

  lemma AccountsAfterUpdate<G>(store: Store<G>, ids: seq<nat>, index: map<nat, nat>, bytes: nat, id: nat, e: Entry<G>)
    requires Accounts(store, ids, index, bytes) && id in store && e.input == store[id].input
    ensures store[id].bytes <= bytes
    ensures Accounts(store[id := e], ids, index, bytes - store[id].bytes + e.bytes)
  {
    var i :| 0 <= i < |ids| && ids[i] == id;
    TotalUpdated(Bytes(store, ids), i, e.bytes);
    assert Bytes(store[id := e], ids) == Bytes(store, ids)[i := e.bytes];
  }

  lemma InsertKeepsList<G>(store: Store<G>, ids: seq<nat>, id: nat, e: Entry<G>)
    requires Once(ids) && Listed(store, ids) && Complete(store, ids) && id !in store
    ensures Once(ids + [id]) && Listed(store[id := e], ids + [id]) && Complete(store[id := e], ids + [id])
    ensures Bytes(store[id := e], ids + [id]) == Bytes(store, ids) + [e.bytes]
  {
    var more, store' := ids + [id], store[id := e];
    forall x | x in store' ensures exists k :: 0 <= k < |more| && more[k] == x {
      if x == id {
        assert more[|ids|] == x;
      } else {
        var k :| 0 <= k < |ids| && ids[k] == x;
        assert more[k] == x;
      }
    }
  }

  lemma AccountsAfterInsert<G>(store: Store<G>, ids: seq<nat>, index: map<nat, nat>, bytes: nat, id: nat, e: Entry<G>)
    requires Accounts(store, ids, index, bytes) && id !in store
    ensures Accounts(store[id := e], ids + [id], index[e.input := id], bytes + e.bytes)
  {
    InsertKeepsList(store, ids, id, e);
    var ws := Bytes(store, ids);
    assert (ws + [e.bytes])[..|ws|] == ws;
  }

  ghost predicate OneEach<G>(store: Store<G>, index: map<nat, nat>) {
    forall id :: id in store ==> store[id].input in index && index[store[id].input] == id
  }

  /** The byte counter never goes below zero. */
  function Reduced(total: nat, part: nat): (r: nat) {
    if part <= total then total - part else 0
  }

  // ----- Pruning ----------------------------------------------------------------------------------

  datatype Table<+G> = Table(store: Store<G>, ids: seq<nat>, index: map<nat, nat>, bytes: nat)

  ghost predicate Sound<G>(t: Table<G>) {
    Accounts(t.store, t.ids, t.index, t.bytes)
  }

  /** Drops the entry at a place of the list. */
  function Cut<G>(t: Table<G>, p: nat): (r: Table<G>)
    requires p < |t.ids| && t.ids[p] in t.store
  {
    var id := t.ids[p];
    Table(t.store - {id}, Without(t.ids, p), t.index - {t.store[id].input}, Reduced(t.bytes, t.store[id].bytes))
  }

  /** What pruning from a place on leaves. */
  ghost function PrunedFrom<G>(t: Table<G>, generation: nat, p: nat): (r: Table<G>)
    decreases |t.ids| - p
  {
    if p >= |t.ids| || t.ids[p] !in t.store then t
    else if t.store[t.ids[p]].generation == generation then PrunedFrom(t, generation, p + 1)
    else PrunedFrom(Cut(t, p), generation, p)
  }

  lemma {:induction false} PrunedIsSound<G>(t: Table<G>, generation: nat, p: nat)
    requires Sound(t)
    ensures Sound(PrunedFrom(t, generation, p)) && PrunedFrom(t, generation, p).bytes <= t.bytes
    decreases |t.ids| - p
  {
    if p < |t.ids| {
      assert Listed(t.store, t.ids);
      if t.store[t.ids[p]].generation == generation {
        PrunedIsSound(t, generation, p + 1);
      } else {
        AccountsAfterCut(t.store, t.ids, t.index, t.bytes, p);
        PrunedIsSound(Cut(t, p), generation, p);
      }
    }
  }

  lemma PruneStep<G>(t: Table<G>, generation: nat, p: nat)
    requires Sound(t) && p < |t.ids|
    ensures t.ids[p] in t.store
    ensures t.store[t.ids[p]].generation == generation ==>
      PrunedFrom(t, generation, p) == PrunedFrom(t, generation, p + 1)
    ensures t.store[t.ids[p]].generation != generation ==>
      Sound(Cut(t, p)) && PrunedFrom(t, generation, p) == PrunedFrom(Cut(t, p), generation, p)
  {
    assert Listed(t.store, t.ids);
    AccountsAfterCut(t.store, t.ids, t.index, t.bytes, p);
  }

  lemma {:induction false} PrunedIsPart<G>(t: Table<G>, generation: nat, p: nat)
    ensures var r := PrunedFrom(t, generation, p);
            forall id :: id in r.store ==> id in t.store && r.store[id] == t.store[id]
    decreases |t.ids| - p
  {
    if p < |t.ids| && t.ids[p] in t.store {
      if t.store[t.ids[p]].generation == generation {
        PrunedIsPart(t, generation, p + 1);
      } else {
        PrunedIsPart(Cut(t, p), generation, p);
      }
    }
  }

  lemma {:induction false} PrunedKeepsCurrent<G>(t: Table<G>, generation: nat, p: nat)
    ensures var r := PrunedFrom(t, generation, p);
            forall id :: id in t.store && t.store[id].generation == generation ==> id in r.store
    decreases |t.ids| - p
  {
    if p < |t.ids| && t.ids[p] in t.store {
      if t.store[t.ids[p]].generation == generation {
        PrunedKeepsCurrent(t, generation, p + 1);
      } else {
        PrunedKeepsCurrent(Cut(t, p), generation, p);
      }
    }
  }

  ghost predicate CurrentUpTo<G>(t: Table<G>, generation: nat, p: nat) {
    forall k :: 0 <= k < p && k < |t.ids| ==> t.ids[k] in t.store && t.store[t.ids[k]].generation == generation
  }

  lemma {:induction false} PrunedIsCurrent<G>(t: Table<G>, generation: nat, p: nat)
    requires Once(t.ids) && Listed(t.store, t.ids) && CurrentUpTo(t, generation, p)
    ensures CurrentUpTo(PrunedFrom(t, generation, p), generation, |PrunedFrom(t, generation, p).ids|)
    decreases |t.ids| - p
  {
    if p < |t.ids| {
      if t.store[t.ids[p]].generation == generation {
        PrunedIsCurrent(t, generation, p + 1);
      } else {
        var c := Cut(t, p);
        assert Once(c.ids) && Listed(c.store, c.ids) && CurrentUpTo(c, generation, p);
        PrunedIsCurrent(c, generation, p);
      }
    }
  }

  /** Exactly the entries of the generation are left, as they were. */
  lemma PrunedIsExact<G>(t: Table<G>, generation: nat)
    requires Sound(t)
    ensures var r := PrunedFrom(t, generation, 0);
            && (forall id :: id in r.store <==> id in t.store && t.store[id].generation == generation)
            && (forall id :: id in r.store ==> r.store[id] == t.store[id])
  {
    var r := PrunedFrom(t, generation, 0);
    PrunedIsPart(t, generation, 0);
    PrunedKeepsCurrent(t, generation, 0);
    PrunedIsCurrent(t, generation, 0);
    PrunedIsSound(t, generation, 0);
    forall id | id in r.store ensures r.store[id].generation == generation {
      assert Complete(r.store, r.ids);
      var k :| 0 <= k < |r.ids| && r.ids[k] == id;
    }
  }

  lemma {:induction false} PrunedKeepsOneEach<G>(t: Table<G>, generation: nat, p: nat)
    requires OneEach(t.store, t.index)
    ensures OneEach(PrunedFrom(t, generation, p).store, PrunedFrom(t, generation, p).index)
    decreases |t.ids| - p
  {
    if p < |t.ids| && t.ids[p] in t.store {
      if t.store[t.ids[p]].generation == generation {
        PrunedKeepsOneEach(t, generation, p + 1);
      } else {
        PrunedKeepsOneEach(Cut(t, p), generation, p);
      }
    }
  }

  class Cache<G> {
    const sizeOf: G -> nat
    var store: Store<G>
    var ids: seq<nat>
    var index: map<nat, nat>
    var generation: nat
    var clock: nat
    var capacity: nat
    var bytes: nat
    /** Entries are never given an identity twice. */
    var nextId: nat

    constructor (sizeOf: G -> nat)
      ensures Valid() && Settled() && this.sizeOf == sizeOf && store == map[] && index == map[] && capacity == 0
      ensures generation == 0
    {
      this.sizeOf := sizeOf;
      store, ids, index, generation, clock, capacity, bytes, nextId := map[], [], map[], 0, 0, 0, 0, 0;
    }

    ghost predicate Valid() reads this {
      && Accounts(store, ids, index, bytes) && generation <= MAX_COUNTER
      && forall id :: id in store ==>
           id < nextId && store[id].generation <= generation && store[id].bytes == sizeOf(store[id].output)
    }

    /** Between requests the entries are within a non-zero budget. */
    ghost predicate Settled() reads this {
      capacity == 0 || bytes <= capacity
    }

    /** Every entry is the one its input leads to. */
    ghost predicate Bijective() reads this {
      OneEach(store, index)
    }

    function Contents(): (r: Table<G>) reads this { Table(store, ids, index, bytes) }

    predicate Oversize(g: G) reads this {
      capacity != 0 && sizeOf(g) > capacity
    }

    method Clear()
      requires Valid()
      modifies `store, `ids, `index, `bytes
      ensures Valid() && Settled() && Bijective() && store == map[] && index == map[]
    {
      store, ids, index, bytes := map[], [], map[], 0;
    }

    /** A new generation: no entry belongs to it yet. */
    method NewGeneration()
      requires Valid()
      modifies `store, `ids, `index, `bytes, `generation
      ensures Valid() && (old(Settled()) ==> Settled()) && (old(Bijective()) ==> Bijective())
      ensures forall id :: id in store ==> store[id].generation < generation
      ensures store == old(store) || store == map[]
    {
      if generation == MAX_COUNTER {
        Clear();
        generation := 1;
      } else {
        generation := generation + 1;
      }
    }

    method Tick() returns (stamp: nat)
      modifies `clock
      ensures clock == stamp == (old(clock) + 1) % (MAX_COUNTER + 1)
    {
      clock := (clock + 1) % (MAX_COUNTER + 1);
      stamp := clock;
    }

    /** The entry an input leads to, and its output if that is still current; a hit renews the entry. */
    method Lookup(input: nat, mtime: nat) returns (known: Option<nat>, data: Option<G>)
      requires Valid()
      modifies `store, `clock
      ensures Valid()
      ensures known == if input in index then Some(index[input]) else None
      ensures data == if known.Some? && old(store)[known.value].mtime == mtime then Some(old(store)[known.value].output) else None
      ensures data.None? ==> store == old(store)
      ensures data.Some? ==> store == old(store)[known.value := old(store)[known.value].(generation := generation, lastUse := clock)]
    {
      if input !in index { return None, None; }
      var id := index[input];
      var entry := store[id];
      if entry.mtime != mtime { return Some(id), None; }
      var stamp := Tick();
      AccountsAfterUpdate(store, ids, index, bytes, id, entry.(generation := generation, lastUse := stamp));
      store := store[id := entry.(generation := generation, lastUse := stamp)];
      return Some(id), Some(entry.output);
    }

    method RemoveAt(i: nat)
      requires Valid() && i < |ids|
      modifies `store, `ids, `index, `bytes
      ensures Valid() && (old(Bijective()) ==> Bijective())
      ensures ids == SwapRemove(old(ids), i) && store == old(store) - {old(ids)[i]}
      ensures index == old(index) - {old(store)[old(ids)[i]].input}
      ensures bytes == old(bytes) - old(store)[old(ids)[i]].bytes
    {
      var entry := store[ids[i]];
      AccountsAfterRemoval(store, ids, index, bytes, i);
      index := index - {entry.input};
      bytes := Reduced(bytes, entry.bytes);
      store := store - {ids[i]};
      ids := SwapRemove(ids, i);
    }

    /** Stores a conversion: into the entry already known for its input, or a new one, or not at all if oversize. */
    method Commit(input: nat, mtime: nat, known: Option<nat>, g: G)
      requires Valid()
      requires known.Some? && known.value in store ==> store[known.value].input == input
      requires known.Some? && !Oversize(g) ==> known.value in store
      modifies `store, `ids, `index, `bytes, `clock, `nextId
      ensures Valid() && nextId >= old(nextId)
      ensures Oversize(g) && known.Some? && known.value in old(store) ==>
        (store == old(store) - {known.value} && index == old(index) - {input})
      ensures Oversize(g) && !(known.Some? && known.value in old(store)) ==> store == old(store) && index == old(index)
      ensures !Oversize(g) && known.Some? ==>
        (store == old(store)[known.value := Entry(input, mtime, g, generation, clock, sizeOf(g))] && index == old(index))
      ensures !Oversize(g) && known.None? ==>
        (old(nextId) !in old(store) && index == old(index)[input := old(nextId)]
         && store == old(store)[old(nextId) := Entry(input, mtime, g, generation, clock, sizeOf(g))])
      ensures old(Bijective()) && (known.Some? || Oversize(g)) ==> Bijective()
      ensures old(Bijective()) && known.None? && !Oversize(g) ==> (Bijective() <==> input !in old(index))
    {
      if Oversize(g) {
        if known.Some? { Forget(known.value); }
        return;
      }
      var stamp := Tick();
      var entry := Entry(input, mtime, g, generation, stamp, sizeOf(g));
      if known.Some? { Replace(known.value, entry); } else { Insert(entry); }
    }

    method Replace(id: nat, entry: Entry<G>)
      requires Valid() && id in store && entry.input == store[id].input
      requires entry.generation <= generation && entry.bytes == sizeOf(entry.output)
      modifies `store, `bytes
      ensures Valid() && (old(Bijective()) ==> Bijective())
      ensures store == old(store)[id := entry]
    {
      var past := store[id];
      AccountsAfterUpdate(store, ids, index, bytes, id, entry);
      bytes := Reduced(bytes, past.bytes) + entry.bytes;
      store := store[id := entry];
    }

    /** A new entry takes over the index slot of its input; an older entry of that input stays listed. */
    method Insert(entry: Entry<G>)
      requires Valid() && entry.generation <= generation && entry.bytes == sizeOf(entry.output)
      modifies `store, `ids, `index, `bytes, `nextId
      ensures Valid() && old(nextId) !in old(store) && nextId == old(nextId) + 1
      ensures store == old(store)[old(nextId) := entry] && index == old(index)[entry.input := old(nextId)]
      ensures old(Bijective()) ==> (Bijective() <==> entry.input !in old(index))
    {
      AccountsAfterInsert(store, ids, index, bytes, nextId, entry);
      ghost var shadowed := if entry.input in index then index[entry.input] else nextId;
      store := store[nextId := entry];
      index := index[entry.input := nextId];
      ids := ids + [nextId];
      bytes := bytes + entry.bytes;
      nextId := nextId + 1;
      assert entry.input in old(index) ==> shadowed in store && store[shadowed].input == entry.input;
    }

    /** Removes an entry if it is still listed. */
    method Forget(id: nat)
      requires Valid()
      modifies `store, `ids, `index, `bytes
      ensures Valid() && (old(Bijective()) ==> Bijective())
      ensures id !in old(store) ==> store == old(store) && index == old(index)
      ensures id in old(store) ==> store == old(store) - {id} && index == old(index) - {old(store)[id].input}
    {
      var i := 0;
      while i < |ids|
        invariant 0 <= i <= |ids| && (forall k :: 0 <= k < i ==> ids[k] != id)
        invariant Valid() && store == old(store) && index == old(index) && ids == old(ids)
      {
        if ids[i] == id {
          RemoveAt(i);
          return;
        }
        i := i + 1;
      }
    }

    /** Removes every entry of an older generation, closing the gaps in place. */
    method Prune()
      requires Valid()
      modifies `store, `ids, `index, `bytes
      ensures Valid() && (old(Settled()) ==> Settled()) && (old(Bijective()) ==> Bijective())
      ensures forall id :: id in store <==> id in old(store) && old(store)[id].generation == generation
      ensures forall id :: id in store ==> store[id] == old(store)[id]
    {
      ghost var before := Contents();
      CloseGaps();
      PrunedIsSound(before, generation, 0);
      PrunedIsExact(before, generation);
      if old(Bijective()) { PrunedKeepsOneEach(before, generation, 0); }
    }

    /** The loop over the listed entries. */
    method CloseGaps()
      requires Sound(Contents())
      modifies `store, `ids, `index, `bytes
      ensures Contents() == PrunedFrom(old(Contents()), generation, 0)
    {
      ghost var before := Contents();
      var write := 0;
      while write < |ids|
        invariant 0 <= write && Sound(Contents())
        invariant PrunedFrom(Contents(), generation, write) == PrunedFrom(before, generation, 0)
        decreases |ids| - write
      {
        PruneStep(Contents(), generation, write);
        if store[ids[write]].generation == generation {
          write := write + 1;
        } else {
          DropAt(write);
        }
      }
    }

    method DropAt(p: nat)
      requires p < |ids| && ids[p] in store
      modifies `store, `ids, `index, `bytes
      ensures Contents() == Cut(old(Contents()), p)
    {
      var id := ids[p];
      index := index - {store[id].input};
      bytes := Reduced(bytes, store[id].bytes);
      store := store - {id};
      ids := Without(ids, p);
    }

    /** The removals were needed: with some removed entry back the total would exceed the budget. */
    ghost predicate Needed(before: Store<G>) reads this {
      exists id :: id in before && id !in store && bytes + before[id].bytes > capacity
    }

    /** Removes least recently used entries until the budget is met, and no more. */
    method EnforceBudget()
      requires Valid()
      modifies `store, `ids, `index, `bytes
      ensures Valid() && Settled() && (old(Bijective()) ==> Bijective())
      ensures forall id :: id in store ==> id in old(store) && store[id] == old(store)[id]
      ensures old(Settled()) ==> store == old(store) && index == old(index)
      ensures forall a, b :: a in old(store) && a !in store && b in store ==> old(store)[a].lastUse <= store[b].lastUse
      ensures store != old(store) ==> Needed(old(store))
    {
      ghost var before, last := store, 0;
      while capacity != 0 && bytes > capacity && |ids| != 0
        invariant Valid() && (old(Bijective()) ==> Bijective())
        invariant old(Settled()) ==> store == before && index == old(index) && bytes == old(bytes)
        invariant Aged(before, store)
        invariant store != before ==> last in before && last !in store && bytes + before[last].bytes > capacity
        decreases |ids|
      {
        var i := LeastRecent();
        last := ids[i];
        AgedNext(before, store, last);
        RemoveAt(i);
      }
    }

    method LeastRecent() returns (i: nat)
      requires Valid() && ids != []
      ensures i < |ids| && forall id :: id in store ==> store[ids[i]].lastUse <= store[id].lastUse
    {
      i := 0;
      var k := 1;
      while k < |ids|
        invariant 1 <= k <= |ids| && i < k
        invariant forall j :: 0 <= j < k ==> store[ids[i]].lastUse <= store[ids[j]].lastUse
      {
        if store[ids[k]].lastUse < store[ids[i]].lastUse { i := k; }
        k := k + 1;
      }
    }

    method SetCapacity(n: nat)
      requires Valid() && Settled()
      modifies `capacity, `store, `ids, `index, `bytes
      ensures Valid() && Settled() && capacity == n && (old(Bijective()) ==> Bijective())
      ensures forall id :: id in store ==> id in old(store) && store[id] == old(store)[id]
      ensures n == 0 || old(bytes) <= n ==> store == old(store) && index == old(index)
      ensures forall a, b :: a in old(store) && a !in store && b in store ==> old(store)[a].lastUse <= store[b].lastUse
      ensures store != old(store) ==> Needed(old(store))
    {
      if capacity == n { return; }
      capacity := n;
      EnforceBudget();
    }
  }
}
