/** Evaluation over ranges of tuples: any division of the range writes the same output as one pass. */
module ExpressionRange {
  import opened ExpressionSyntax
  import opened ExpressionEval
  import opened Chunks
  import ExpressionParser
  import ExpressionMeaning

  datatype Policy = Propagate | Replace(replacement: real) | Refuse

  /** An accepted expression with the bound values of every tuple. */
  datatype Plan = Plan(ops: Arithmetic, finite: real -> bool, arena: Arena, root: nat, rows: seq<seq<Value>>,
                       components: nat, policy: Policy) {
    ghost predicate Valid() {
      && InArena(arena, |arena.names|, root)
      && forall t :: 0 <= t < |rows| ==> Accepts(rows[t])
    }

    ghost predicate Accepts(row: seq<Value>)
      requires InArena(arena, |arena.names|, root)
    {
      |row| == |arena.names| && NodeShape(arena, Widths(row), root) == Components(components)
    }

    function Result(t: nat): (v: Value)
      requires Valid() && t < |rows|
      ensures |v| == components
    {
      assert Accepts(rows[t]);
      EvalNode(ops, arena, rows[t], root)
    }

    function Kept(x: real): (r: real) {
      if !finite(x) && policy.Replace? then policy.replacement else x
    }

    /** What a tuple leaves in the output. */
    function Written(t: nat): (v: Value)
      requires Valid() && t < |rows|
      ensures |v| == components
    {
      seq(components, (c: nat) requires c < components => Kept(Result(t)[c]))
    }

    ghost predicate Refused(t: nat)
      requires Valid() && t < |rows|
    {
      policy.Refuse? && exists c :: 0 <= c < components && !finite(Result(t)[c])
    }

    function WrittenUpTo(t: nat): (v: Value)
      requires Valid() && t <= |rows|
      ensures |v| == t * components
    {
      if t == 0 then [] else WrittenUpTo(t - 1) + Written(t - 1)
    }
  }

  lemma Slots(t: nat, n: nat, k: nat)
    requires t < n
    ensures t * k + k <= n * k && (t + 1) * k == t * k + k
  {
    var rest := n - t - 1;
    assert rest * k >= 0;
    assert n * k == (t + 1 + rest) * k == t * k + k + rest * k;
  }

  lemma SlotsApart(t: nat, u: nat, k: nat)
    requires t < u
    ensures t * k + k <= u * k
  {
    Slots(t, u, k);
  }

  /** The slots of a tuple among those of n tuples. */
  function RowOf(cells: seq<real>, n: nat, k: nat, t: nat): (v: Value)
    requires |cells| == n * k && t < n
    ensures |v| == k
  {
    Slots(t, n, k);
    cells[t * k..t * k + k]
  }

  /** Writing the slots of one tuple leaves the slots of every other tuple alone. */
  lemma OtherRowsKept(before: seq<real>, after: seq<real>, n: nat, k: nat, tuple: nat, t: nat)
    requires |before| == |after| == n * k && tuple < n && t < n && t != tuple
    requires forall j :: 0 <= j < |after| && !(tuple * k <= j < tuple * k + k) ==> after[j] == before[j]
    ensures RowOf(after, n, k, t) == RowOf(before, n, k, t)
  {
    Slots(t, n, k);
    if t < tuple { SlotsApart(t, tuple, k); } else { SlotsApart(tuple, t, k); }
  }

  lemma RowNext(cells: seq<real>, rows: nat, k: nat, n: nat)
    requires |cells| == rows * k && n < rows
    ensures n * k <= (n + 1) * k <= |cells| && cells[..(n + 1) * k] == cells[..n * k] + RowOf(cells, rows, k, n)
  {
    Slots(n, rows, k);
    Joined(cells, n * k, n * k + k);
  }

  lemma {:induction false} RowsGive(plan: Plan, cells: seq<real>, n: nat)
    requires plan.Valid() && |cells| == |plan.rows| * plan.components && n <= |plan.rows|
    requires forall t: nat :: t < n ==> RowOf(cells, |plan.rows|, plan.components, t) == plan.Written(t)
    ensures n * plan.components <= |cells| && cells[..n * plan.components] == plan.WrittenUpTo(n)
  {
    if n > 0 {
      RowsGive(plan, cells, n - 1);
      RowNext(cells, |plan.rows|, plan.components, n - 1);
      assert RowOf(cells, |plan.rows|, plan.components, n - 1) == plan.Written(n - 1);
    }
  }

  lemma Joined(cells: seq<real>, low: nat, high: nat)
    requires low <= high <= |cells|
    ensures cells[..high] == cells[..low] + cells[low..high]
  {
  }

  class Evaluation {
    const plan: Plan
    const output: array<real>
    var nonFiniteFound: bool

    constructor (plan: Plan)
      requires plan.Valid()
      ensures this.plan == plan && output.Length == |plan.rows| * plan.components && !nonFiniteFound && fresh(output)
    {
      this.plan := plan;
      output := new real[|plan.rows| * plan.components];
      nonFiniteFound := false;
    }

    ghost predicate Valid() reads this {
      plan.Valid() && output.Length == |plan.rows| * plan.components
    }

    ghost function Row(t: nat): (r: Value)
      requires Valid() && t < |plan.rows|
      reads this, output
    {
      RowOf(output[..], |plan.rows|, plan.components, t)
    }

    method WriteCells(base: nat, value: Value)
      requires base + |value| <= output.Length
      modifies output, `nonFiniteFound
      ensures forall c :: 0 <= c < |value| ==> output[base + c] == plan.Kept(value[c])
      ensures forall j :: 0 <= j < output.Length && !(base <= j < base + |value|) ==> output[j] == old(output[j])
      ensures nonFiniteFound ==
        (old(nonFiniteFound) || (plan.policy.Refuse? && exists c :: 0 <= c < |value| && !plan.finite(value[c])))
    {
      var component := 0;
      while component < |value|
        invariant 0 <= component <= |value|
        invariant forall c :: 0 <= c < component ==> output[base + c] == plan.Kept(value[c])
        invariant forall j :: 0 <= j < output.Length && !(base <= j < base + |value|) ==> output[j] == old(output[j])
        invariant nonFiniteFound ==
          (old(nonFiniteFound) || (plan.policy.Refuse? && exists c :: 0 <= c < component && !plan.finite(value[c])))
      {
        var item := value[component];
        if !plan.finite(item) {
          if plan.policy.Replace? {
            item := plan.policy.replacement;
          } else if plan.policy.Refuse? {
            nonFiniteFound := true;
          }
        }
        output[base + component] := item;
        component := component + 1;
      }
    }

    method EvaluateTuple(tuple: nat)
      requires Valid() && tuple < |plan.rows|
      modifies output, `nonFiniteFound
      ensures Row(tuple) == plan.Written(tuple)
      ensures forall t: nat :: t < |plan.rows| && t != tuple ==> Row(t) == old(Row(t))
      ensures nonFiniteFound == (old(nonFiniteFound) || plan.Refused(tuple))
    {
      ghost var before, n, k := output[..], |plan.rows|, plan.components;
      Slots(tuple, |plan.rows|, plan.components);
      WriteCells(tuple * plan.components, plan.Result(tuple));
      assert Row(tuple) == plan.Written(tuple);
      forall t: nat | t < n && t != tuple ensures Row(t) == RowOf(before, n, k, t) {
        OtherRowsKept(before, output[..], n, k, tuple, t);
      }
    }

    method EvaluateRange(begin: nat, end: nat)
      requires Valid() && begin <= end <= |plan.rows|
      modifies output, `nonFiniteFound
      ensures forall t: nat :: begin <= t < end ==> Row(t) == plan.Written(t)
      ensures forall t: nat :: t < |plan.rows| && !(begin <= t < end) ==> Row(t) == old(Row(t))
      ensures nonFiniteFound == (old(nonFiniteFound) || exists t: nat :: begin <= t < end && plan.Refused(t))
    {
      var tuple := begin;
      while tuple < end
        invariant begin <= tuple <= end
        invariant forall t: nat :: begin <= t < tuple ==> Row(t) == plan.Written(t)
        invariant forall t: nat :: t < |plan.rows| && !(begin <= t < tuple) ==> Row(t) == old(Row(t))
        invariant nonFiniteFound == (old(nonFiniteFound) || exists t: nat :: begin <= t < tuple && plan.Refused(t))
      {
        EvaluateTuple(tuple);
        tuple := tuple + 1;
      }
    }

    /** Runs chunks that together cover every tuple, in any order and however they overlap. */
    method EvaluateChunks(chunks: seq<Chunk>)
      requires Valid() && !nonFiniteFound && Cover(chunks, |plan.rows|)
      modifies output, `nonFiniteFound
      ensures output[..] == plan.WrittenUpTo(|plan.rows|)
      ensures nonFiniteFound <==> exists t: nat :: t < |plan.rows| && plan.Refused(t)
    {
      var i := 0;
      while i < |chunks|
        invariant 0 <= i <= |chunks|
        invariant forall t: nat :: t < |plan.rows| && InSome(chunks[..i], t) ==> Row(t) == plan.Written(t)
        invariant nonFiniteFound <==> exists t: nat :: t < |plan.rows| && InSome(chunks[..i], t) && plan.Refused(t)
      {
        EvaluateRange(chunks[i].0, chunks[i].1);
        forall t: nat ensures InSome(chunks[..i + 1], t) <==> InSome(chunks[..i], t) || chunks[i].0 <= t < chunks[i].1 {
          InSomeNext(chunks, i, t);
        }
        i := i + 1;
      }
      assert chunks[..i] == chunks;
      RowsGive(plan, output[..], |plan.rows|);
      assert output[..][..output.Length] == output[..];
    }
  }

  datatype Outcome = Output(values: seq<real>) | InvalidState

  /** One division of the work or another: the outcome depends on the plan alone. */
  method Evaluate(plan: Plan, chunks: seq<Chunk>) returns (r: Outcome)
    requires plan.Valid() && Cover(chunks, |plan.rows|)
    ensures r.InvalidState? <==> exists t: nat :: t < |plan.rows| && plan.Refused(t)
    ensures r.Output? ==> r.values == plan.WrittenUpTo(|plan.rows|)
  {
    var evaluation := new Evaluation(plan);
    evaluation.EvaluateChunks(chunks);
    r := if evaluation.nonFiniteFound then InvalidState else Output(evaluation.output[..]);
  }

  /** From source text to output: every tuple's result is the value of the source's tree on that tuple's data. */
  lemma ResultsMeanSource(plan: Plan, src: Source, length: nat, data: seq<ExpressionMeaning.Data>) returns (e: Expr)
    requires plan.Valid() && ExpressionParser.CompiledSource(src, length) == ExpressionParser.Ok(plan.arena, plan.root)
    requires |data| == |plan.rows|
    requires forall t :: 0 <= t < |data| ==> plan.rows[t] == ExpressionMeaning.Bound(plan.arena.names, data[t])
    ensures WellFormed(e) && plan.arena == Emit(e, Arena([], []))
    ensures forall t: nat :: t < |data| ==>
      ExpressionMeaning.TreeShape(e, data[t]) == Components(plan.components) &&
      plan.Result(t) == ExpressionMeaning.EvalTree(plan.ops, e, data[t])
  {
    e := ExpressionMeaning.CompilationKeepsMeaning(src, length, (name) => []);
    forall t: nat | t < |data|
      ensures ExpressionMeaning.TreeShape(e, data[t]) == Components(plan.components)
      ensures plan.Result(t) == ExpressionMeaning.EvalTree(plan.ops, e, data[t])
    {
      var again := ExpressionMeaning.CompilationKeepsMeaning(src, length, data[t]);
      assert plan.Accepts(plan.rows[t]) && again == e;
    }
  }
}
