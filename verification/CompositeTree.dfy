/** Composite data, its recursive map over leaves, and hierarchies filled slot by slot from a worklist. */
module CompositeTrees {
  import opened Geometry

  datatype Kind = MultiBlock | Partitioned

  datatype Tree = Leaf(object': nat) | Composite(kind: Kind, children: seq<Child>)

  /** A slot may be unnamed and may be empty. */
  datatype Child = Child(name: Option<string>, value: Option<Tree>)

  datatype Output<+G> = Converted(geometry: G) | Group(kind: Kind, children: seq<OutputChild<G>>)

  datatype OutputChild<+G> = OutputChild(name: Option<string>, value: Option<Output<G>>)

  // ----- The specification: one recursive map -----------------------------------------------------

  function MapTree<G>(t: Tree, convert: nat -> Option<G>): (r: Option<Output<G>>)
    decreases t, 0
  {
    match t
    case Leaf(x) => (match convert(x) case None => None case Some(g) => Some(Converted(g)))
    case Composite(kind, children) =>
      match MapChildren(children, convert) case None => None case Some(cs) => Some(Group(kind, cs))
  }

  function MapChild<G>(c: Child, convert: nat -> Option<G>): (r: Option<OutputChild<G>>)
    decreases c, 1
  {
    if c.value.None? then Some(OutputChild(c.name, None))
    else match MapTree(c.value.value, convert) case None => None case Some(o) => Some(OutputChild(c.name, Some(o)))
  }

  function MapChildren<G>(cs: seq<Child>, convert: nat -> Option<G>): (r: Option<seq<OutputChild<G>>>)
    decreases cs, 1
  {
    if cs == [] then Some([])
    else
      match MapChildren(cs[..|cs| - 1], convert)
      case None => None
      case Some(os) => match MapChild(cs[|cs| - 1], convert) case None => None case Some(o) => Some(os + [o])
  }

  lemma {:induction false} MappedByIndex<G>(cs: seq<Child>, convert: nat -> Option<G>, os: seq<OutputChild<G>>)
    requires |os| == |cs| && forall k :: 0 <= k < |cs| ==> MapChild(cs[k], convert) == Some(os[k])
    ensures MapChildren(cs, convert) == Some(os)
  {
    if cs != [] {
      MappedByIndex(cs[..|cs| - 1], convert, os[..|cs| - 1]);
      assert os == os[..|cs| - 1] + [os[|cs| - 1]];
    }
  }

  /** The leaf objects of a tree, once for each occurrence. */
  function LeafBag(t: Tree): (r: multiset<nat>)
    decreases t, 0
  {
    match t
    case Leaf(x) => multiset{x}
    case Composite(_, children) => LeafBagAll(children)
  }

  function LeafBagAll(cs: seq<Child>): (r: multiset<nat>)
    decreases cs, 1
  {
    if cs == [] then multiset{} else LeafBagAll(cs[..|cs| - 1]) + ChildBag(cs[|cs| - 1])
  }

  function ChildBag(c: Child): (r: multiset<nat>)
    decreases c, 1
  {
    if c.value.Some? then LeafBag(c.value.value) else multiset{}
  }

  /** One leaf that does not convert fails the whole map. */
  lemma {:induction false} LeafFailsMap<G>(t: Tree, convert: nat -> Option<G>, x: nat)
    requires x in LeafBag(t) && convert(x).None?
    ensures MapTree(t, convert).None?
    decreases t, 0
  {
    if t.Composite? { LeafFailsChildren(t.children, convert, x); }
  }

  lemma {:induction false} LeafFailsChildren<G>(cs: seq<Child>, convert: nat -> Option<G>, x: nat)
    requires x in LeafBagAll(cs) && convert(x).None?
    ensures MapChildren(cs, convert).None?
    decreases cs, 1
  {
    var n := |cs| - 1;
    if x in LeafBagAll(cs[..n]) { LeafFailsChildren(cs[..n], convert, x); } else { LeafFailsChild(cs[n], convert, x); }
  }

  lemma {:induction false} LeafFailsChild<G>(c: Child, convert: nat -> Option<G>, x: nat)
    requires x in ChildBag(c) && convert(x).None?
    ensures MapChild(c, convert).None?
    decreases c, 1
  {
    LeafFailsMap(c.value.value, convert, x);
  }

  function Size(t: Tree): (n: nat)
    ensures n > 0
    decreases t, 0
  {
    match t
    case Leaf(_) => 1
    case Composite(_, children) => 1 + SizeAll(children)
  }

  function SizeAll(cs: seq<Child>): (r: nat)
    decreases cs, 1
  {
    if cs == [] then 0 else SizeAll(cs[..|cs| - 1]) + ChildSize(cs[|cs| - 1])
  }

  function ChildSize(c: Child): (r: nat)
    decreases c, 1
  {
    if c.value.Some? then Size(c.value.value) else 0
  }

  // ----- A hierarchy under construction -----------------------------------------------------------

  datatype Slot<+G> = Empty | Holds(geometry: G) | Nested(group: nat)

  /** An output composite: its slots are assigned one at a time. */
  datatype Node<+G> = Node(kind: Kind, names: seq<Option<string>>, slots: seq<Slot<G>>)

  datatype Job = Job(input: Tree, parent: nat, index: nat)

  function Names(cs: seq<Child>): (ns: seq<Option<string>>)
    ensures |ns| == |cs|
  {
    seq(|cs|, (k: nat) requires k < |cs| => cs[k].name)
  }

  /** A composite with every name copied and every slot still empty. */
  function NewNode<G>(t: Tree): (r: Node<G>)
    requires t.Composite?
  {
    Node(t.kind, Names(t.children), seq(|t.children|, (k: nat) => Empty))
  }

  function Read<G>(nodes: seq<Node<G>>, i: nat): (r: Output<G>)
    requires i < |nodes|
    decreases |nodes| - i, 1
  {
    var n := |nodes[i].slots|;
    Group(nodes[i].kind, seq(n, (k: nat) requires k < n =>
      OutputChild(if k < |nodes[i].names| then nodes[i].names[k] else None, ReadSlot(nodes, i, nodes[i].slots[k]))))
  }

  function ReadSlot<G>(nodes: seq<Node<G>>, i: nat, s: Slot<G>): (r: Option<Output<G>>)
    requires i < |nodes|
    decreases |nodes| - i, 0
  {
    match s
    case Empty => None
    case Holds(g) => Some(Converted(g))
    case Nested(j) => if i < j < |nodes| then Some(Read(nodes, j)) else None
  }

  ghost predicate Shaped<G>(nodes: seq<Node<G>>, sources: seq<Tree>) {
    |nodes| == |sources| && forall i :: 0 <= i < |nodes| ==>
      && sources[i].Composite? && nodes[i].kind == sources[i].kind
      && nodes[i].names == Names(sources[i].children) && |nodes[i].slots| == |sources[i].children|
  }

  /** A slot already holds what its child maps to. */
  ghost predicate Filled<G(!new)>(nodes: seq<Node<G>>, sources: seq<Tree>, convert: nat -> Option<G>, i: nat, k: nat)
    requires Shaped(nodes, sources) && i < |nodes| && k < |nodes[i].slots|
  {
    match sources[i].children[k].value
    case None => nodes[i].slots[k] == Empty
    case Some(Leaf(x)) => nodes[i].slots[k].Holds? && convert(x) == Some(nodes[i].slots[k].geometry)
    case Some(Composite(kind, cs)) =>
      nodes[i].slots[k].Nested? && i < nodes[i].slots[k].group < |nodes|
      && sources[nodes[i].slots[k].group] == Composite(kind, cs)
  }

  ghost predicate Waiting(jobs: seq<Job>, i: nat, k: nat) {
    exists j :: 0 <= j < |jobs| && jobs[j].parent == i && jobs[j].index == k
  }

  ghost predicate JobFits<G>(nodes: seq<Node<G>>, sources: seq<Tree>, job: Job)
    requires Shaped(nodes, sources)
  {
    job.parent < |nodes| && job.index < |nodes[job.parent].slots|
    && sources[job.parent].children[job.index].value == Some(job.input)
  }

  /** Every slot is filled or still has a job that will fill it. */
  ghost predicate Covered<G(!new)>(nodes: seq<Node<G>>, sources: seq<Tree>, convert: nat -> Option<G>, jobs: seq<Job>) {
    && Shaped(nodes, sources)
    && (forall j :: 0 <= j < |jobs| ==> JobFits(nodes, sources, jobs[j]))
    && forall i: nat, k: nat :: i < |nodes| && k < |nodes[i].slots| ==>
         Filled(nodes, sources, convert, i, k) || Waiting(jobs, i, k)
  }

  /** With no job left, every composite reads back as the map of its source. */
  lemma {:induction false} CoveredIsMapped<G(!new)>(nodes: seq<Node<G>>, sources: seq<Tree>, convert: nat -> Option<G>,
                                                     i: nat)
    requires Covered(nodes, sources, convert, []) && i < |nodes|
    ensures MapTree(sources[i], convert) == Some(Read(nodes, i))
    decreases |nodes| - i
  {
    var cs := sources[i].children;
    var os := seq(|cs|, (k: nat) requires k < |cs| =>
      OutputChild(nodes[i].names[k], ReadSlot(nodes, i, nodes[i].slots[k])));
    forall k: nat | k < |cs| ensures MapChild(cs[k], convert) == Some(os[k]) {
      assert Filled(nodes, sources, convert, i, k);
      if cs[k].value.Some? && cs[k].value.value.Composite? {
        CoveredIsMapped(nodes, sources, convert, nodes[i].slots[k].group);
      }
    }
    MappedByIndex(cs, convert, os);
    assert Read(nodes, i).children == os;
  }

  function Assign<G>(nodes: seq<Node<G>>, i: nat, k: nat, s: Slot<G>): (r: seq<Node<G>>)
    requires i < |nodes| && k < |nodes[i].slots|
  {
    nodes[i := nodes[i].(slots := nodes[i].slots[k := s])]
  }

  lemma WaitingMore(jobs: seq<Job>, more: seq<Job>, i: nat, k: nat)
    ensures Waiting(jobs + more, i, k) <==> Waiting(jobs, i, k) || Waiting(more, i, k)
  {
    if Waiting(jobs, i, k) {
      var j :| 0 <= j < |jobs| && jobs[j].parent == i && jobs[j].index == k;
      assert (jobs + more)[j] == jobs[j];
    }
    if Waiting(more, i, k) {
      var j :| 0 <= j < |more| && more[j].parent == i && more[j].index == k;
      assert (jobs + more)[|jobs| + j] == more[j];
    }
    if Waiting(jobs + more, i, k) {
      var j :| 0 <= j < |jobs + more| && (jobs + more)[j].parent == i && (jobs + more)[j].index == k;
      assert if j < |jobs| then jobs[j] == (jobs + more)[j] else more[j - |jobs|] == (jobs + more)[j];
    }
  }

  /** A converted leaf replaces its job. */
  lemma LeafAssigned<G(!new)>(nodes: seq<Node<G>>, sources: seq<Tree>, convert: nat -> Option<G>,
                              before: seq<Job>, job: Job, after: seq<Job>, g: G)
    requires Covered(nodes, sources, convert, before + [job] + after) && job.input.Leaf?
    requires convert(job.input.object') == Some(g)
    ensures job.parent < |nodes| && job.index < |nodes[job.parent].slots|
    ensures Covered(Assign(nodes, job.parent, job.index, Holds(g)), sources, convert, before + after)
  {
    var all := before + [job] + after;
    assert all[|before|] == job && JobFits(nodes, sources, all[|before|]);
    var nodes' := Assign(nodes, job.parent, job.index, Holds(g));
    JobsKept(nodes, nodes', sources, before, job, after);
    forall i: nat, k: nat | i < |nodes'| && k < |nodes'[i].slots|
      ensures Filled(nodes', sources, convert, i, k) || Waiting(before + after, i, k)
    {
      JobTaken(before, job, after, i, k);
      assert Filled(nodes, sources, convert, i, k) || Waiting(all, i, k);
    }
  }

  lemma JobTaken(before: seq<Job>, job: Job, after: seq<Job>, i: nat, k: nat)
    ensures Waiting(before + [job] + after, i, k)
       <==> Waiting(before + after, i, k) || (i == job.parent && k == job.index)
  {
    WaitingMore(before + [job], after, i, k);
    WaitingMore(before, [job], i, k);
    WaitingMore(before, after, i, k);
    assert [job][0] == job;
  }

  lemma JobsKept<G>(nodes: seq<Node<G>>, nodes': seq<Node<G>>, sources: seq<Tree>,
                    before: seq<Job>, job: Job, after: seq<Job>)
    requires Shaped(nodes, sources) && Shaped(nodes', sources)
    requires forall j :: 0 <= j < |before + [job] + after| ==> JobFits(nodes, sources, (before + [job] + after)[j])
    ensures forall j :: 0 <= j < |before + after| ==> JobFits(nodes', sources, (before + after)[j])
  {
    forall j | 0 <= j < |before + after| ensures JobFits(nodes', sources, (before + after)[j]) {
      var all := before + [job] + after;
      assert (before + after)[j] == all[if j < |before| then j else j + 1];
    }
  }

  /** The jobs for the non-empty slots of a new composite, first slot first. */
  function ChildJobs(cs: seq<Child>, parent: nat): (jobs: seq<Job>)
  {
    if cs == [] then []
    else
      var n := |cs| - 1;
      ChildJobs(cs[..n], parent) + (if cs[n].value.Some? then [Job(cs[n].value.value, parent, n)] else [])
  }

  lemma {:induction false} ChildJobsAreExact(cs: seq<Child>, parent: nat)
    ensures forall j :: 0 <= j < |ChildJobs(cs, parent)| ==>
      ChildJobs(cs, parent)[j].parent == parent && ChildJobs(cs, parent)[j].index < |cs| &&
      cs[ChildJobs(cs, parent)[j].index].value == Some(ChildJobs(cs, parent)[j].input)
    ensures forall k: nat :: k < |cs| && cs[k].value.Some? ==> Waiting(ChildJobs(cs, parent), parent, k)
  {
    if cs != [] {
      var n := |cs| - 1;
      var front := ChildJobs(cs[..n], parent);
      ChildJobsAreExact(cs[..n], parent);
      forall k: nat | k < |cs| && cs[k].value.Some? ensures Waiting(ChildJobs(cs, parent), parent, k) {
        if k < n {
          assert cs[..n][k] == cs[k];
          WaitingMore(front, ChildJobs(cs, parent)[|front|..], parent, k);
          assert ChildJobs(cs, parent) == front + ChildJobs(cs, parent)[|front|..];
        } else {
          assert ChildJobs(cs, parent)[|front|].index == k;
        }
      }
    }
  }

  /** A new composite replaces its job with the jobs of its children. */
  lemma CompositeAssigned<G(!new)>(nodes: seq<Node<G>>, sources: seq<Tree>, convert: nat -> Option<G>,
                                   jobs: seq<Job>, job: Job, pending: seq<Job>)
    requires Covered(nodes, sources, convert, jobs + [job] + pending) && job.input.Composite?
    ensures job.parent < |nodes| && job.index < |nodes[job.parent].slots|
    ensures Covered(Assign(nodes, job.parent, job.index, Nested(|nodes|)) + [NewNode(job.input)], sources + [job.input],
                    convert, jobs + ChildJobs(job.input.children, |nodes|) + pending)
  {
    var all := jobs + [job] + pending;
    assert all[|jobs|] == job && JobFits(nodes, sources, all[|jobs|]);
    var n := |nodes|;
    var cs := job.input.children;
    var nodes' := Assign(nodes, job.parent, job.index, Nested(n)) + [NewNode(job.input)];
    var sources' := sources + [job.input];
    var fresh' := ChildJobs(cs, n);
    ChildJobsAreExact(cs, n);
    forall j | 0 <= j < |jobs + fresh' + pending| ensures JobFits(nodes', sources', (jobs + fresh' + pending)[j]) {
      if j < |jobs| {
        assert all[j] == jobs[j] && JobFits(nodes, sources, all[j]);
      } else if j >= |jobs| + |fresh'| {
        assert all[j - |fresh'| + 1] == (jobs + fresh' + pending)[j] && JobFits(nodes, sources, all[j - |fresh'| + 1]);
      } else {
        assert fresh'[j - |jobs|] == (jobs + fresh' + pending)[j];
      }
    }
    forall i: nat, k: nat | i < |nodes'| && k < |nodes'[i].slots|
      ensures Filled(nodes', sources', convert, i, k) || Waiting(jobs + fresh' + pending, i, k)
    {
      WaitingMore(jobs + fresh', pending, i, k);
      WaitingMore(jobs, fresh', i, k);
      if i < n {
        JobTaken(jobs, job, pending, i, k);
        WaitingMore(jobs, pending, i, k);
        assert Filled(nodes, sources, convert, i, k) || Waiting(all, i, k);
      }
    }
  }

  function Weight(jobs: seq<Job>): (r: nat) {
    if jobs == [] then 0 else Weight(jobs[..|jobs| - 1]) + Size(jobs[|jobs| - 1].input)
  }

  lemma {:induction false} WeightOfSum(a: seq<Job>, b: seq<Job>)
    ensures Weight(a + b) == Weight(a) + Weight(b)
  {
    if b == [] {
      assert a + b == a;
    } else {
      assert (a + b)[..|a + b| - 1] == a + b[..|b| - 1];
      WeightOfSum(a, b[..|b| - 1]);
    }
  }

  lemma {:induction false} WeightOfChildren(cs: seq<Child>, parent: nat)
    ensures Weight(ChildJobs(cs, parent)) == SizeAll(cs)
  {
    if cs != [] {
      var n := |cs| - 1;
      WeightOfChildren(cs[..n], parent);
      WeightOfSum(ChildJobs(cs[..n], parent), if cs[n].value.Some? then [Job(cs[n].value.value, parent, n)] else []);
    }
  }

  /** The leaf objects still to be reached from a list of jobs. */
  function JobBag(jobs: seq<Job>): (r: multiset<nat>) {
    if jobs == [] then multiset{} else JobBag(jobs[..|jobs| - 1]) + LeafBag(jobs[|jobs| - 1].input)
  }

  lemma {:induction false} JobBagOfSum(a: seq<Job>, b: seq<Job>)
    ensures JobBag(a + b) == JobBag(a) + JobBag(b)
  {
    if b == [] {
      assert a + b == a;
    } else {
      assert (a + b)[..|a + b| - 1] == a + b[..|b| - 1];
      JobBagOfSum(a, b[..|b| - 1]);
    }
  }

  lemma {:induction false} JobBagOfChildren(cs: seq<Child>, parent: nat)
    ensures JobBag(ChildJobs(cs, parent)) == LeafBagAll(cs)
  {
    if cs != [] {
      var n := |cs| - 1;
      JobBagOfChildren(cs[..n], parent);
      JobBagOfSum(ChildJobs(cs[..n], parent), if cs[n].value.Some? then [Job(cs[n].value.value, parent, n)] else []);
    }
  }
}
