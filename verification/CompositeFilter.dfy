/** The composite geometry filter: a worklist behind a cache that computes a plain recursive map. */
module CompositeFilter {
  import opened Geometry
  import opened CompositeTrees
  import GeometryCache

  // ----- Input data over time -----------------------------------------------------------------------

  /** The content and modification time of every data object at one moment. */
  datatype World<!C> = World(content: nat -> C, mtime: nat -> nat)

  /** Times never go back, and content only changes with them. */
  ghost predicate Later<C(!new)>(before: World<C>, after: World<C>) {
    forall x :: before.mtime(x) <= after.mtime(x) &&
      (before.mtime(x) == after.mtime(x) ==> before.content(x) == after.content(x))
  }

  /** An edit that advances the modification time of one object. */
  function Edited<C>(w: World<C>, x: nat, content: C, mtime: nat): (r: World<C>)
    requires mtime > w.mtime(x)
  {
    World((y: nat) => if y == x then content else w.content(y), (y: nat) => if y == x then mtime else w.mtime(y))
  }

  lemma EditIsLater<C(!new)>(w: World<C>, x: nat, content: C, mtime: nat)
    requires mtime > w.mtime(x)
    ensures Later(w, Edited(w, x, content, mtime))
  {
  }

  /** An entry whose time is still that of its input holds the conversion of its input. */
  ghost predicate Fresh<C(!new), G>(e: GeometryCache.Entry<G>, w: World<C>, convert: C -> Option<G>) {
    e.mtime <= w.mtime(e.input) && (e.mtime == w.mtime(e.input) ==> convert(w.content(e.input)) == Some(e.output))
  }

  function Conversion<C, G>(convert: C -> Option<G>, w: World<C>): (r: nat -> Option<G>) {
    (x: nat) => convert(w.content(x))
  }

  // ----- Runs -----------------------------------------------------------------------------------------

  datatype Step<!C> = Edit(object': nat, content: C, advance: nat) | SetCapacity(bytes: nat) | Ask(children: seq<Child>)

  function Root(children: seq<Child>): (r: Tree) { Composite(MultiBlock, children) }

  function Edits<C>(w: World<C>, x: nat, content: C, advance: nat): (r: World<C>) {
    Edited(w, x, content, w.mtime(x) + 1 + advance)
  }

  /** What a run answers without any cache: each request is the map of the input at that moment. */
  function Answers<C, G>(convert: C -> Option<G>, w: World<C>, steps: seq<Step<C>>): (r: seq<Option<Output<G>>>)
    decreases |steps|
  {
    if steps == [] then []
    else
      match steps[0]
      case Edit(x, content, advance) => Answers(convert, Edits(w, x, content, advance), steps[1..])
      case SetCapacity(_) => Answers(convert, w, steps[1..])
      case Ask(children) => [MapTree(Root(children), Conversion(convert, w))] + Answers(convert, w, steps[1..])
  }

  // ----- Leaves waiting to be converted ---------------------------------------------------------------

  datatype Pending = Pending(job: Job, mtime: nat, known: Option<nat>)

  function JobsOf(pending: seq<Pending>): (jobs: seq<Job>)
    ensures |jobs| == |pending| && forall i :: 0 <= i < |pending| ==> jobs[i] == pending[i].job
  {
    seq(|pending|, (i: nat) requires i < |pending| => pending[i].job)
  }

  /** A missed leaf as the walk recorded it. */
  ghost predicate Recorded<C(!new)>(p: Pending, w: World<C>, index: map<nat, nat>) {
    && p.job.input.Leaf? && p.mtime == w.mtime(p.job.input.object')
    && p.known == (if p.job.input.object' in index then Some(index[p.job.input.object']) else None)
  }

  lemma CoveredMoves<G(!new)>(nodes: seq<Node<G>>, sources: seq<Tree>, convert: nat -> Option<G>,
                              jobs: seq<Job>, job: Job, pending: seq<Job>)
    requires Covered(nodes, sources, convert, jobs + [job] + pending)
    ensures Covered(nodes, sources, convert, jobs + (pending + [job]))
  {
    var a, b := jobs + [job] + pending, jobs + (pending + [job]);
    forall j | 0 <= j < |b| ensures JobFits(nodes, sources, b[j]) {
      assert b[j] == a[if j < |jobs| then j else if j < |b| - 1 then j + 1 else |jobs|];
    }
    forall i: nat, k: nat | i < |nodes| && k < |nodes[i].slots|
      ensures Filled(nodes, sources, convert, i, k) || Waiting(b, i, k)
    {
      JobTaken(jobs, job, pending, i, k);
      WaitingMore(jobs, pending, i, k);
      WaitingMore(jobs, pending + [job], i, k);
      WaitingMore(pending, [job], i, k);
      assert [job][0] == job;
    }
  }

  /** Nothing changed but the stamps of entries that were hit. */
  ghost predicate Restamped<G>(before: GeometryCache.Store<G>, after: GeometryCache.Store<G>) {
    && before.Keys == after.Keys
    && forall id :: id in after ==>
         after[id].input == before[id].input && after[id].mtime == before[id].mtime && after[id].output == before[id].output
  }

  lemma {:induction false} JobBagHas(jobs: seq<Job>, i: nat)
    requires i < |jobs| && jobs[i].input.Leaf?
    ensures jobs[i].input.object' in JobBag(jobs)
  {
    if i < |jobs| - 1 { JobBagHas(jobs[..|jobs| - 1], i); }
  }

  lemma {:induction false} JobBagTwice(jobs: seq<Job>, i: nat, j: nat)
    requires i < j < |jobs| && jobs[i].input.Leaf? && jobs[j].input == jobs[i].input
    ensures JobBag(jobs)[jobs[i].input.object'] >= 2
  {
    var n := |jobs| - 1;
    if j == n { JobBagHas(jobs[..n], i); } else { JobBagTwice(jobs[..n], i, j); }
  }

  /** The first of the remaining leaves, once assigned. */
  lemma FirstAssigned<G(!new)>(nodes: seq<Node<G>>, sources: seq<Tree>, convert: nat -> Option<G>,
                               jobs: seq<Job>, i: nat, g: G)
    requires i < |jobs| && Covered(nodes, sources, convert, jobs[i..]) && jobs[i].input.Leaf?
    requires convert(jobs[i].input.object') == Some(g)
    ensures jobs[i].parent < |nodes| && jobs[i].index < |nodes[jobs[i].parent].slots|
    ensures Covered(Assign(nodes, jobs[i].parent, jobs[i].index, Holds(g)), sources, convert, jobs[i + 1..])
  {
    var rest := jobs[i + 1..];
    assert jobs[i..] == [] + [jobs[i]] + rest && [] + rest == rest;
    LeafAssigned(nodes, sources, convert, [], jobs[i], rest, g);
  }

  /** The walk so far: jobs and pending leaves cover what is not filled, and reach only leaves of the tree. */
  ghost predicate Planned<G(!new)>(root: Tree, nodes: seq<Node<G>>, sources: seq<Tree>, convert: nat -> Option<G>,
                                   jobs: seq<Job>, pending: seq<Job>) {
    && Covered(nodes, sources, convert, jobs + pending) && sources != [] && sources[0] == root
    && JobBag(jobs) + JobBag(pending) <= LeafBag(root)
  }

  /** One job for each slot of the root. */
  lemma RootCovered<G(!new)>(root: Tree, convert: nat -> Option<G>)
    requires root.Composite?
    ensures Covered([NewNode<G>(root)], [root], convert, ChildJobs(root.children, 0))
  {
    ChildJobsAreExact(root.children, 0);
  }

  lemma PlanStarts<G(!new)>(root: Tree, convert: nat -> Option<G>)
    requires root.Composite?
    ensures Planned(root, [NewNode<G>(root)], [root], convert, ChildJobs(root.children, 0), [])
  {
    RootCovered(root, convert);
    JobBagOfChildren(root.children, 0);
    assert ChildJobs(root.children, 0) + [] == ChildJobs(root.children, 0);
  }

  /** A composite replaced by its children weighs less and reaches the same leaves. */
  lemma PlanExpands<G(!new)>(root: Tree, nodes: seq<Node<G>>, sources: seq<Tree>, convert: nat -> Option<G>,
                             jobs: seq<Job>, job: Job, pending: seq<Job>)
    requires Planned(root, nodes, sources, convert, jobs + [job], pending) && job.input.Composite?
    ensures job.parent < |nodes| && job.index < |nodes[job.parent].slots|
    ensures Planned(root, Assign(nodes, job.parent, job.index, Nested(|nodes|)) + [NewNode(job.input)],
                    sources + [job.input], convert, jobs + ChildJobs(job.input.children, |nodes|), pending)
    ensures Weight(jobs + ChildJobs(job.input.children, |nodes|)) < Weight(jobs + [job])
  {
    var parent := |nodes|;
    var more := ChildJobs(job.input.children, parent);
    CompositeAssigned(nodes, sources, convert, jobs, job, pending);
    WeightOfChildren(job.input.children, parent);
    WeightOfSum(jobs, more);
    JobBagOfChildren(job.input.children, parent);
    JobBagOfSum(jobs, more);
    assert (jobs + [job])[..|jobs|] == jobs;
  }

  lemma PlanFills<G(!new)>(root: Tree, nodes: seq<Node<G>>, sources: seq<Tree>, convert: nat -> Option<G>,
                           jobs: seq<Job>, job: Job, pending: seq<Job>, g: G)
    requires Planned(root, nodes, sources, convert, jobs + [job], pending) && job.input.Leaf?
    requires convert(job.input.object') == Some(g)
    ensures job.parent < |nodes| && job.index < |nodes[job.parent].slots|
    ensures Planned(root, Assign(nodes, job.parent, job.index, Holds(g)), sources, convert, jobs, pending)
  {
    LeafAssigned(nodes, sources, convert, jobs, job, pending, g);
    assert (jobs + [job])[..|jobs|] == jobs;
  }

  lemma PlanPostpones<G(!new)>(root: Tree, nodes: seq<Node<G>>, sources: seq<Tree>, convert: nat -> Option<G>,
                               jobs: seq<Job>, job: Job, pending: seq<Job>)
    requires Planned(root, nodes, sources, convert, jobs + [job], pending)
    ensures Planned(root, nodes, sources, convert, jobs, pending + [job])
  {
    CoveredMoves(nodes, sources, convert, jobs, job, pending);
    assert (jobs + [job])[..|jobs|] == jobs && (pending + [job])[..|pending|] == pending;
  }

  lemma PlanReaches<G(!new)>(root: Tree, nodes: seq<Node<G>>, sources: seq<Tree>, convert: nat -> Option<G>,
                             jobs: seq<Job>, job: Job, pending: seq<Job>)
    requires Planned(root, nodes, sources, convert, jobs + [job], pending) && job.input.Leaf?
    ensures job.input.object' in LeafBag(root)
  {
    assert (jobs + [job])[..|jobs|] == jobs;
  }

  /** With the walk done, the pending leaves are all that is left to commit. */
  lemma PlanEnds<G(!new)>(root: Tree, nodes: seq<Node<G>>, sources: seq<Tree>, convert: nat -> Option<G>,
                          pending: seq<Job>)
    requires Planned(root, nodes, sources, convert, [], pending)
    ensures Covered(nodes, sources, convert, pending[0..]) && JobBag(pending) <= LeafBag(root)
    ensures sources != [] && sources[0] == root
  {
    assert [] + pending == pending[0..];
  }

  lemma AllAssigned<G(!new)>(nodes: seq<Node<G>>, sources: seq<Tree>, convert: nat -> Option<G>, pending: seq<Job>)
    requires Covered(nodes, sources, convert, pending[|pending|..]) && sources != []
    ensures nodes != [] && MapTree(sources[0], convert) == Some(Read(nodes, 0))
  {
    assert pending[|pending|..] == [];
    CoveredIsMapped(nodes, sources, convert, 0);
  }

  /** No leaf object occurs twice in a tree. */
  ghost predicate DistinctLeaves(t: Tree) {
    forall x :: LeafBag(t)[x] <= 1
  }

  lemma PendingIsDistinct(root: Tree, pending: seq<Pending>, i: nat, j: nat)
    requires DistinctLeaves(root) && JobBag(JobsOf(pending)) <= LeafBag(root)
    requires i < j < |pending| && pending[i].job.input.Leaf? && pending[j].job.input.Leaf?
    ensures pending[i].job.input != pending[j].job.input
  {
    if pending[i].job.input == pending[j].job.input { JobBagTwice(JobsOf(pending), i, j); }
  }

  // ----- What a commit does to the entries ------------------------------------------------------------

  ghost predicate AllFresh<C(!new), G>(store: GeometryCache.Store<G>, w: World<C>, convert: C -> Option<G>) {
    forall id :: id in store ==> Fresh(store[id], w, convert)
  }

  /** Entries of this generation belong to leaves of the tree. */
  ghost predicate LeavesOnly<G>(store: GeometryCache.Store<G>, generation: nat, root: Tree) {
    forall id :: id in store && store[id].generation == generation ==> store[id].input in LeafBag(root)
  }

  /** The entry a pending leaf remembers can still be updated, or its output is too large to be kept anyway. */
  ghost predicate ReadyIn<G>(store: GeometryCache.Store<G>, nextId: nat, p: Pending, oversize: bool) {
    p.job.input.Leaf? && (p.known.Some? ==>
      && p.known.value < nextId
      && (p.known.value in store ==> store[p.known.value].input == p.job.input.object')
      && (!oversize ==> p.known.value in store))
  }

  /** The store after a commit: the entry dropped, the store untouched, or the entry at the known or a new place. */
  ghost predicate Stored<G>(before: GeometryCache.Store<G>, after: GeometryCache.Store<G>, known: Option<nat>, id: nat,
                            oversize: bool, entry: GeometryCache.Entry<G>) {
    if oversize then
      if known.Some? && known.value in before then after == before - {known.value} else after == before
    else if known.Some? then after == before[known.value := entry]
    else id !in before && after == before[id := entry]
  }

  lemma StoredIsFresh<C(!new), G>(before: GeometryCache.Store<G>, after: GeometryCache.Store<G>, known: Option<nat>, id: nat,
                                  oversize: bool, entry: GeometryCache.Entry<G>, w: World<C>, convert: C -> Option<G>)
    requires Stored(before, after, known, id, oversize, entry) && AllFresh(before, w, convert) && Fresh(entry, w, convert)
    ensures AllFresh(after, w, convert)
  {
  }

  lemma StoredLeavesOnly<G>(before: GeometryCache.Store<G>, after: GeometryCache.Store<G>, known: Option<nat>, id: nat,
                            oversize: bool, entry: GeometryCache.Entry<G>, generation: nat, root: Tree)
    requires Stored(before, after, known, id, oversize, entry) && LeavesOnly(before, generation, root)
    requires entry.input in LeafBag(root)
    ensures LeavesOnly(after, generation, root)
  {
  }

  lemma HitKeeps<C(!new), G>(before: GeometryCache.Store<G>, after: GeometryCache.Store<G>, id: nat, w: World<C>,
                             convert: C -> Option<G>, generation: nat, root: Tree)
    requires AllFresh(before, w, convert) && LeavesOnly(before, generation, root)
    requires id in before && before[id].input in LeafBag(root)
    requires exists stamp :: after == before[id := before[id].(generation := generation, lastUse := stamp)]
    ensures AllFresh(after, w, convert) && LeavesOnly(after, generation, root) && Restamped(before, after)
  {
  }

  /** Another leaf stays ready: a dropped entry is missed only by one whose output is too large as well. */
  lemma StoredIsReady<G>(before: GeometryCache.Store<G>, after: GeometryCache.Store<G>, p: Pending, id: nat, oversize: bool,
                         entry: GeometryCache.Entry<G>, nextId: nat, q: Pending, large: bool)
    requires Stored(before, after, p.known, id, oversize, entry) && p.job.input.Leaf? && entry.input == p.job.input.object'
    requires ReadyIn(before, id, p, oversize) && ReadyIn(before, id, q, large) && id <= nextId
    requires q.job.input == p.job.input ==> large == oversize
    ensures ReadyIn(after, nextId, q, large)
  {
    if oversize && p.known.Some? && p.known.value in before && q.known == p.known {
      assert before[p.known.value].input == p.job.input.object';
    }
  }

  class Filter<C(!new), G(!new)> {
    const convert: C -> Option<G>
    const cache: GeometryCache.Cache<G>

    constructor (convert: C -> Option<G>, sizeOf: G -> nat)
      ensures cache.Valid() && cache.Settled() && cache.Bijective() && fresh(cache) && this.convert == convert
      ensures forall w :: Consistent(w)
    {
      this.convert := convert;
      cache := new GeometryCache.Cache(sizeOf);
    }

    ghost predicate Consistent(w: World<C>) reads this, cache {
      AllFresh(cache.store, w, convert)
    }

    /** Edits leave the cache consistent: it is stale at worst where times have moved on. */
    lemma ConsistentLater(before: World<C>, after: World<C>)
      requires Consistent(before) && Later(before, after)
      ensures Consistent(after)
    {
    }

    function LeafMap(w: World<C>): (r: nat -> Option<G>) {
      Conversion(convert, w)
    }

    /** Entries of the current generation belong to leaves of the tree. */
    ghost predicate OnlyLeaves(root: Tree) reads this, cache {
      LeavesOnly(cache.store, cache.generation, root)
    }

    /** Builds the hierarchy, resolves hits at once and collects the leaves that must be converted. */
    method Walk(w: World<C>, root: Tree) returns (nodes: seq<Node<G>>, ghost sources: seq<Tree>, pending: seq<Pending>)
      requires cache.Valid() && Consistent(w) && OnlyLeaves(root) && root.Composite?
      modifies cache`store, cache`clock
      ensures cache.Valid() && Consistent(w) && OnlyLeaves(root) && Restamped(old(cache.store), cache.store)
      ensures Planned(root, nodes, sources, LeafMap(w), [], JobsOf(pending))
      ensures forall i :: 0 <= i < |pending| ==> Recorded(pending[i], w, cache.index)
    {
      nodes, sources, pending := [NewNode(root)], [root], [];
      var jobs := ChildJobs(root.children, 0);
      PlanStarts(root, LeafMap(w));
      while jobs != []
        invariant cache.Valid() && Consistent(w) && OnlyLeaves(root) && Restamped(old(cache.store), cache.store)
        invariant Planned(root, nodes, sources, LeafMap(w), jobs, JobsOf(pending))
        invariant forall i :: 0 <= i < |pending| ==> Recorded(pending[i], w, cache.index)
        decreases Weight(jobs)
      {
        var job, rest := jobs[|jobs| - 1], jobs[..|jobs| - 1];
        assert jobs == rest + [job];
        if job.input.Composite? {
          PlanExpands(root, nodes, sources, LeafMap(w), rest, job, JobsOf(pending));
          jobs := rest + ChildJobs(job.input.children, |nodes|);
          nodes := Assign(nodes, job.parent, job.index, Nested(|nodes|)) + [NewNode(job.input)];
          sources := sources + [job.input];
        } else {
          nodes, pending := Leaf(w, root, nodes, sources, rest, job, pending);
          jobs := rest;
        }
      }
    }

    /** A hit is the conversion of the leaf as it is now. */
    method LookupLeaf(w: World<C>, ghost root: Tree, x: nat) returns (known: Option<nat>, data: Option<G>)
      requires cache.Valid() && Consistent(w) && OnlyLeaves(root) && x in LeafBag(root)
      modifies cache`store, cache`clock
      ensures cache.Valid() && Consistent(w) && OnlyLeaves(root) && Restamped(old(cache.store), cache.store)
      ensures known == (if x in cache.index then Some(cache.index[x]) else None)
      ensures data.Some? ==> LeafMap(w)(x) == data
    {
      ghost var before := cache.store;
      known, data := cache.Lookup(x, w.mtime(x));
      if data.Some? { HitKeeps(before, cache.store, known.value, w, convert, cache.generation, root); }
    }

    /** One leaf: assigned from the cache, or left for conversion. */
    method Leaf(w: World<C>, ghost root: Tree, nodes: seq<Node<G>>, ghost sources: seq<Tree>, ghost jobs: seq<Job>,
                job: Job, pending: seq<Pending>)
      returns (nodes': seq<Node<G>>, pending': seq<Pending>)
      requires cache.Valid() && Consistent(w) && OnlyLeaves(root) && job.input.Leaf?
      requires Planned(root, nodes, sources, LeafMap(w), jobs + [job], JobsOf(pending))
      requires forall i :: 0 <= i < |pending| ==> Recorded(pending[i], w, cache.index)
      modifies cache`store, cache`clock
      ensures cache.Valid() && Consistent(w) && OnlyLeaves(root) && Restamped(old(cache.store), cache.store)
      ensures Planned(root, nodes', sources, LeafMap(w), jobs, JobsOf(pending'))
      ensures forall i :: 0 <= i < |pending'| ==> Recorded(pending'[i], w, cache.index)
    {
      var x := job.input.object';
      PlanReaches(root, nodes, sources, LeafMap(w), jobs, job, JobsOf(pending));
      var known, data := LookupLeaf(w, root, x);
      if data.Some? {
        PlanFills(root, nodes, sources, LeafMap(w), jobs, job, JobsOf(pending), data.value);
        nodes' := Assign(nodes, job.parent, job.index, Holds(data.value));
        pending' := pending;
      } else {
        PlanPostpones(root, nodes, sources, LeafMap(w), jobs, job, JobsOf(pending));
        nodes' := nodes;
        pending' := pending + [Pending(job, w.mtime(x), known)];
        assert JobsOf(pending') == JobsOf(pending) + [job];
      }
    }

    ghost predicate Gives(w: World<C>, p: Pending, g: G) {
      p.job.input.Leaf? && LeafMap(w)(p.job.input.object') == Some(g)
    }

    /** Converts every pending leaf, stopping at the first that fails. */
    method Convert(w: World<C>, pending: seq<Pending>) returns (ok: bool, converted: seq<G>)
      requires forall i :: 0 <= i < |pending| ==> pending[i].job.input.Leaf?
      ensures ok ==> |converted| == |pending| && forall i :: 0 <= i < |pending| ==> Gives(w, pending[i], converted[i])
      ensures !ok ==> exists i :: 0 <= i < |pending| && LeafMap(w)(pending[i].job.input.object').None?
    {
      converted := [];
      ok := true;
      while |converted| < |pending|
        invariant |converted| <= |pending|
        invariant forall i :: 0 <= i < |converted| ==> Gives(w, pending[i], converted[i])
      {
        var r := convert(w.content(pending[|converted|].job.input.object'));
        if r.None? {
          assert LeafMap(w)(pending[|converted|].job.input.object').None?;
          return false, converted;
        }
        converted := converted + [r.value];
      }
    }

    ghost predicate Ready(p: Pending, g: G) reads cache {
      ReadyIn(cache.store, cache.nextId, p, cache.Oversize(g))
    }

    method CommitLeaf(w: World<C>, ghost root: Tree, p: Pending, g: G)
      requires cache.Valid() && Consistent(w) && OnlyLeaves(root) && Ready(p, g) && Gives(w, p, g)
      requires p.job.input.object' in LeafBag(root) && p.mtime == w.mtime(p.job.input.object')
      modifies cache`store, cache`ids, cache`index, cache`bytes, cache`clock, cache`nextId
      ensures cache.Valid() && Consistent(w) && OnlyLeaves(root)
      ensures forall q, h :: old(Ready(q, h)) && (q.job.input == p.job.input ==> h == g) ==> Ready(q, h)
      ensures forall x :: x in cache.index ==> x in old(cache.index) || x == p.job.input.object'
      ensures old(cache.Bijective()) && (p.known.None? ==> p.job.input.object' !in old(cache.index)) ==> cache.Bijective()
    {
      ghost var before, id, big := cache.store, cache.nextId, cache.Oversize(g);
      cache.Commit(p.job.input.object', p.mtime, p.known, g);
      ghost var entry := GeometryCache.Entry(p.job.input.object', p.mtime, g, cache.generation, cache.clock, cache.sizeOf(g));
      assert Stored(before, cache.store, p.known, id, big, entry);
      StoredIsFresh(before, cache.store, p.known, id, big, entry, w, convert);
      StoredLeavesOnly(before, cache.store, p.known, id, big, entry, cache.generation, root);
      forall q, h | old(Ready(q, h)) && (q.job.input == p.job.input ==> h == g) ensures Ready(q, h) {
        StoredIsReady(before, cache.store, p, id, big, entry, cache.nextId, q, cache.Oversize(h));
      }
    }

    ghost predicate AllReady(pending: seq<Pending>, converted: seq<G>, i: nat)
      requires |converted| == |pending|
      reads cache
    {
      forall j :: i <= j < |pending| ==> Ready(pending[j], converted[j])
    }

    /** The work left when the leaves from the i-th on are still to be committed. */
    ghost predicate Committing(w: World<C>, root: Tree, nodes: seq<Node<G>>, sources: seq<Tree>, pending: seq<Pending>,
                               i: nat)
      reads this, cache
    {
      && cache.Valid() && Consistent(w) && OnlyLeaves(root) && i <= |pending|
      && Covered(nodes, sources, LeafMap(w), JobsOf(pending)[i..])
    }

    /** With no leaf occurring twice: what remains has no index slot yet, and entries stay the ones inputs lead to. */
    ghost predicate Tidy(was: bool, root: Tree, pending: seq<Pending>, i: nat) reads this, cache {
      DistinctLeaves(root) ==> Unclaimed(pending, i, cache.index) && (was ==> cache.Bijective())
    }

    method CommitOne(w: World<C>, ghost root: Tree, nodes: seq<Node<G>>, ghost sources: seq<Tree>,
                     pending: seq<Pending>, converted: seq<G>, i: nat, ghost was: bool)
      returns (nodes': seq<Node<G>>)
      requires i < |pending| == |converted| && Committing(w, root, nodes, sources, pending, i)
      requires AllReady(pending, converted, i)
      requires forall j :: 0 <= j < |pending| ==> Gives(w, pending[j], converted[j])
      requires pending[i].mtime == w.mtime(pending[i].job.input.object') && JobBag(JobsOf(pending)) <= LeafBag(root)
      requires Tidy(was, root, pending, i)
      modifies cache`store, cache`ids, cache`index, cache`bytes, cache`clock, cache`nextId
      ensures Committing(w, root, nodes', sources, pending, i + 1) && AllReady(pending, converted, i + 1)
      ensures Tidy(was, root, pending, i + 1)
    {
      var p, g := pending[i], converted[i];
      JobBagHas(JobsOf(pending), i);
      FirstAssigned(nodes, sources, LeafMap(w), JobsOf(pending), i, g);
      ghost var index := cache.index;
      CommitLeaf(w, root, p, g);
      if DistinctLeaves(root) { UnclaimedNext(root, pending, i, index, cache.index); }
      nodes' := Assign(nodes, p.job.parent, p.job.index, Holds(g));
      forall j | i < j < |pending| ensures Ready(pending[j], converted[j]) {
        assert Gives(w, pending[j], converted[j]) && Gives(w, p, g);
      }
    }

    method CommitAll(w: World<C>, ghost root: Tree, nodes: seq<Node<G>>, ghost sources: seq<Tree>,
                     pending: seq<Pending>, converted: seq<G>)
      returns (nodes': seq<Node<G>>)
      requires Committing(w, root, nodes, sources, pending, 0) && JobBag(JobsOf(pending)) <= LeafBag(root)
      requires |converted| == |pending| && AllReady(pending, converted, 0)
      requires forall i :: 0 <= i < |pending| ==> Recorded(pending[i], w, cache.index)
      requires forall i :: 0 <= i < |pending| ==> Gives(w, pending[i], converted[i])
      modifies cache`store, cache`ids, cache`index, cache`bytes, cache`clock, cache`nextId
      ensures Committing(w, root, nodes', sources, pending, |pending|)
      ensures old(cache.Bijective()) && DistinctLeaves(root) ==> cache.Bijective()
    {
      nodes' := nodes;
      var i := 0;
      ghost var index, was := cache.index, cache.Bijective();
      while i < |pending|
        invariant 0 <= i <= |pending|
        invariant Committing(w, root, nodes', sources, pending, i) && AllReady(pending, converted, i)
        invariant Tidy(was, root, pending, i)
      {
        assert Recorded(pending[i], w, index);
        nodes' := CommitOne(w, root, nodes', sources, pending, converted, i, was);
        i := i + 1;
      }
    }

    /** A request returns the recursive map of the current input, whatever the cache held before. */
    method Request(w: World<C>, root: Tree) returns (r: Option<Output<G>>)
      requires cache.Valid() && cache.Settled() && Consistent(w) && root.Composite?
      modifies cache
      ensures cache.Valid() && cache.Settled() && Consistent(w)
      ensures r == MapTree(root, LeafMap(w))
      ensures r.Some? ==> forall id :: id in cache.store ==> cache.store[id].input in LeafBag(root)
      ensures old(cache.Bijective()) && DistinctLeaves(root) ==> cache.Bijective()
    {
      cache.NewGeneration();
      r := Build(w, root);
      if r.Some? { Settle(w, root); }
    }

    method Build(w: World<C>, root: Tree) returns (r: Option<Output<G>>)
      requires cache.Valid() && Consistent(w) && OnlyLeaves(root) && root.Composite?
      modifies cache`store, cache`ids, cache`index, cache`bytes, cache`clock, cache`nextId
      ensures cache.Valid() && Consistent(w) && OnlyLeaves(root)
      ensures r == MapTree(root, LeafMap(w))
      ensures r.None? ==> cache.bytes == old(cache.bytes)
      ensures old(cache.Bijective()) && DistinctLeaves(root) ==> cache.Bijective()
    {
      var nodes, pending;
      ghost var sources;
      nodes, sources, pending := Walk(w, root);
      PlanEnds(root, nodes, sources, LeafMap(w), JobsOf(pending));
      var ok, converted := Convert(w, pending);
      if !ok {
        PendingFails(root, LeafMap(w), pending);
        return None;
      }
      RecordedIsReady(w, pending, converted);
      nodes := CommitAll(w, root, nodes, sources, pending, converted);
      AllAssigned(nodes, sources, LeafMap(w), JobsOf(pending));
      r := Some(Read(nodes, 0));
    }

    /** Only entries of this request stay, and only as many as the budget allows. */
    method Settle(w: World<C>, ghost root: Tree)
      requires cache.Valid() && Consistent(w) && OnlyLeaves(root)
      modifies cache`store, cache`ids, cache`index, cache`bytes
      ensures cache.Valid() && cache.Settled() && Consistent(w) && (old(cache.Bijective()) ==> cache.Bijective())
      ensures forall id :: id in cache.store ==> cache.store[id].input in LeafBag(root)
    {
      cache.Prune();
      cache.EnforceBudget();
    }

    lemma RecordedIsReady(w: World<C>, pending: seq<Pending>, converted: seq<G>)
      requires cache.Valid() && |converted| == |pending|
      requires forall i :: 0 <= i < |pending| ==> Recorded(pending[i], w, cache.index)
      ensures AllReady(pending, converted, 0)
    {
    }

    method SetCacheByteCapacity(n: nat, ghost w: World<C>)
      requires cache.Valid() && cache.Settled()
      modifies cache
      ensures cache.Valid() && cache.Settled() && cache.capacity == n && (old(cache.Bijective()) ==> cache.Bijective())
      ensures old(Consistent(w)) ==> Consistent(w)
    {
      cache.SetCapacity(n);
    }
  }

  /** Over any run of edits, capacity changes and requests, the cache is invisible. */
  method Run<C(!new), G(!new)>(filter: Filter<C, G>, start: World<C>, steps: seq<Step<C>>)
    returns (answers: seq<Option<Output<G>>>)
    requires filter.cache.Valid() && filter.cache.Settled() && filter.Consistent(start)
    modifies filter.cache
    ensures filter.cache.Valid() && filter.cache.Settled()
    ensures answers == Answers(filter.convert, start, steps)
  {
    answers := [];
    var w, i := start, 0;
    assert steps[0..] == steps;
    while i < |steps|
      invariant 0 <= i <= |steps|
      invariant filter.cache.Valid() && filter.cache.Settled() && filter.Consistent(w)
      invariant answers + Answers(filter.convert, w, steps[i..]) == Answers(filter.convert, start, steps)
    {
      assert steps[i..][0] == steps[i] && steps[i..][1..] == steps[i + 1..];
      match steps[i] {
        case Edit(x, content, advance) =>
          EditIsLater(w, x, content, w.mtime(x) + 1 + advance);
          filter.ConsistentLater(w, Edits(w, x, content, advance));
          w := Edits(w, x, content, advance);
        case SetCapacity(n) =>
          filter.SetCacheByteCapacity(n, w);
        case Ask(children) =>
          var answer := filter.Request(w, Root(children));
          ghost var rest := Answers(filter.convert, w, steps[i + 1..]);
          assert answers + ([answer] + rest) == (answers + [answer]) + rest;
          answers := answers + [answer];
      }
      i := i + 1;
    }
  }

  /** A pending leaf without a remembered entry has no index slot yet. */
  ghost predicate Unclaimed(pending: seq<Pending>, i: nat, index: map<nat, nat>) {
    forall j :: i <= j < |pending| && pending[j].job.input.Leaf? && pending[j].known.None?
      ==> pending[j].job.input.object' !in index
  }

  lemma UnclaimedNext(root: Tree, pending: seq<Pending>, i: nat, before: map<nat, nat>, after: map<nat, nat>)
    requires DistinctLeaves(root) && JobBag(JobsOf(pending)) <= LeafBag(root) && i < |pending|
    requires pending[i].job.input.Leaf? && Unclaimed(pending, i, before)
    requires forall x :: x in after ==> x in before || x == pending[i].job.input.object'
    ensures Unclaimed(pending, i + 1, after)
  {
    forall j | i < j < |pending| && pending[j].job.input.Leaf? && pending[j].known.None?
      ensures pending[j].job.input.object' !in after
    {
      PendingIsDistinct(root, pending, i, j);
    }
  }

  lemma PendingFails<G>(root: Tree, convert: nat -> Option<G>, pending: seq<Pending>)
    requires forall i :: 0 <= i < |pending| ==> pending[i].job.input.Leaf?
    requires exists i :: 0 <= i < |pending| && convert(pending[i].job.input.object').None?
    requires JobBag(JobsOf(pending)) <= LeafBag(root)
    ensures MapTree(root, convert).None?
  {
    var i :| 0 <= i < |pending| && convert(pending[i].job.input.object').None?;
    JobBagHas(JobsOf(pending), i);
    LeafFailsMap(root, convert, pending[i].job.input.object');
  }
}
