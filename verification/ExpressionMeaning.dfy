/** The meaning of an expression tree, and why its compiled nodes have the same meaning. */
module ExpressionMeaning {
  import opened ExpressionSyntax
  import opened ExpressionEval
  import ExpressionGrammar
  import ExpressionParser
  import Geometry

  type Data = string -> Value

  function TreeShape(e: Expr, data: Data): (r: Shape)
    requires WellFormed(e)
    decreases e
  {
    match e
    case Constant(_) => Components(1)
    case Variable(name) => Limited(Components(|data(name)|))
    case Component(name, k) => ComponentShape(Limited(Components(|data(name)|)), k)
    case Negate(x) => TreeShape(x, data)
    case Binary(_, l, r) => BinaryShape(TreeShape(l, data), TreeShape(r, data))
    case Conditional(x, y, z) => ChoiceShape(TreeShape(x, data), TreeShape(y, data), TreeShape(z, data))
    case Call(f, xs) => CallShape(f, seq(|xs|, (k: nat) requires k < |xs| => TreeShape(xs[k], data)))
  }

  function EvalTree(ops: Arithmetic, e: Expr, data: Data): (v: Value)
    requires WellFormed(e) && TreeShape(e, data).Components?
    ensures |v| == TreeShape(e, data).n
    decreases e
  {
    match e
    case Constant(c) => [c]
    case Variable(name) => data(name)
    case Component(name, k) => [data(name)[k]]
    case Negate(x) =>
      var v := EvalTree(ops, x, data);
      seq(|v|, (k: nat) requires k < |v| => -v[k])
    case Binary(op, l, r) => BinaryValue(ops, op, EvalTree(ops, l, data), EvalTree(ops, r, data))
    case Conditional(x, y, z) => ChoiceValue(EvalTree(ops, x, data), EvalTree(ops, y, data), EvalTree(ops, z, data))
    case Call(f, xs) =>
      var shapes := seq(|xs|, (k: nat) requires k < |xs| => TreeShape(xs[k], data));
      assert forall k :: 0 <= k < |xs| ==> shapes[k].Components?;
      var values := seq(|xs|, (k: nat) requires k < |xs| => assert shapes[k].Components?; EvalTree(ops, xs[k], data));
      assert Lengths(values) == shapes;
      CallValue(ops, f, values)
  }

  /** The data bound to each variable of an arena, in the order the names were met. */
  function Bound(names: seq<string>, data: Data): (env: seq<Value>)
    ensures |env| == |names| && forall v :: 0 <= v < |names| ==> env[v] == data(names[v])
  {
    seq(|names|, (v: nat) requires v < |names| => data(names[v]))
  }

  // ----- Nodes that stand for a tree ------------------------------------------------------------

  ghost predicate StandsForVariable(c: Arena, i: int, name: string) {
    && 0 <= i < |c.nodes| && c.nodes[i].VariableNode?
    && c.nodes[i].variable < |c.names| && c.names[c.nodes[i].variable] == name
  }

  ghost predicate StandsFor(c: Arena, i: int, e: Expr)
    decreases e
  {
    0 <= i < |c.nodes| &&
    match e
    case Constant(v) => c.nodes[i] == ConstantNode(v)
    case Variable(name) => StandsForVariable(c, i, name)
    case Component(name, k) =>
      c.nodes[i].ComponentNode? && c.nodes[i].component == k && StandsForVariable(c, c.nodes[i].child, name)
    case Negate(x) => c.nodes[i].NegateNode? && StandsFor(c, c.nodes[i].child, x)
    case Binary(op, l, r) =>
      c.nodes[i].BinaryNode? && c.nodes[i].op == op && StandsFor(c, c.nodes[i].left, l) && StandsFor(c, c.nodes[i].right, r)
    case Conditional(x, y, z) =>
      && c.nodes[i].ConditionalNode? && StandsFor(c, c.nodes[i].condition, x)
      && StandsFor(c, c.nodes[i].yes, y) && StandsFor(c, c.nodes[i].no, z)
    case Call(f, xs) =>
      && c.nodes[i].CallNode? && c.nodes[i].function' == f && |c.nodes[i].children| == |xs|
      && forall k :: 0 <= k < |xs| ==> StandsFor(c, c.nodes[i].children[k], xs[k])
  }

  /** The nodes emitted for a tree stand for it, whatever is emitted after them. */
  lemma {:induction false} EmittedStandsFor(e: Expr, a: Arena, c: Arena)
    requires Extends(c, Emit(e, a))
    ensures StandsFor(c, |Emit(e, a).nodes| - 1, e)
    decreases e
  {
    var i := |Emit(e, a).nodes| - 1;
    assert c.nodes[i] == Emit(e, a).nodes[i];
    match e
    case Constant(_) =>
    case Variable(name) =>
      VariableStands(name, a, c);
    case Component(name, _) =>
      VariableStands(name, a, c);
    case Negate(x) =>
      EmittedStandsFor(x, a, c);
    case Binary(_, _, _) =>
      EmittedBinary(e, a, c);
    case Conditional(_, _, _) =>
      EmittedConditional(e, a, c);
    case Call(f, xs) =>
      AllEmittedStand(xs, a, c);
      assert c.nodes[i] == CallNode(f, EmitAll(xs, a).1);
  }

  lemma {:induction false} EmittedBinary(e: Expr, a: Arena, c: Arena)
    requires e.Binary? && Extends(c, Emit(e, a))
    ensures StandsFor(c, |Emit(e, a).nodes| - 1, e)
    decreases e, 0
  {
    var i := |Emit(e, a).nodes| - 1;
    var b := Emit(e.left, a);
    var d := Emit(e.right, b);
    EmittedStandsFor(e.left, a, c);
    EmittedStandsFor(e.right, b, c);
    assert c.nodes[i] == Emit(e, a).nodes[i] == BinaryNode(e.op, |b.nodes| - 1, |d.nodes| - 1);
  }

  lemma {:induction false} EmittedConditional(e: Expr, a: Arena, c: Arena)
    requires e.Conditional? && Extends(c, Emit(e, a))
    ensures StandsFor(c, |Emit(e, a).nodes| - 1, e)
    decreases e, 0
  {
    var i := |Emit(e, a).nodes| - 1;
    var b := Emit(e.condition, a);
    var d := Emit(e.yes, b);
    var f := Emit(e.no, d);
    EmittedStandsFor(e.condition, a, c);
    EmittedStandsFor(e.yes, b, c);
    EmittedStandsFor(e.no, d, c);
    assert c.nodes[i] == Emit(e, a).nodes[i] == ConditionalNode(|b.nodes| - 1, |d.nodes| - 1, |f.nodes| - 1);
  }

  lemma VariableStands(name: string, a: Arena, c: Arena)
    requires Extends(c, EmitVariable(name, a))
    ensures StandsForVariable(c, |a.nodes|, name)
  {
    var b := EmitVariable(name, a);
    var v := IndexOf(a.names, name);
    assert c.nodes[|a.nodes|] == b.nodes[|a.nodes|] == VariableNode(v);
    assert c.names[v] == b.names[v] == name;
  }

  lemma {:induction false} AllEmittedStand(es: seq<Expr>, a: Arena, c: Arena)
    requires Extends(c, EmitAll(es, a).0)
    ensures forall k :: 0 <= k < |es| ==> StandsFor(c, EmitAll(es, a).1[k], es[k])
    decreases es
  {
    if es != [] {
      var n := |es| - 1;
      AllEmittedStand(es[..n], a, c);
      var (b, children) := EmitAll(es[..n], a);
      EmittedStandsFor(es[n], b, c);
      forall k | 0 <= k < |es| ensures StandsFor(c, EmitAll(es, a).1[k], es[k]) {
        if k < n { assert EmitAll(es, a).1[k] == children[k] && es[..n][k] == es[k]; }
      }
    }
  }

  // ----- What they compute ----------------------------------------------------------------------

  /** A node computes the same shape, and when that is a size the same value, as a tree. */
  ghost predicate Means(c: Arena, i: int, e: Expr, data: Data) {
    && InArena(c, |c.names|, i) && WellFormed(e)
    && NodeShape(c, Widths(Bound(c.names, data)), i) == TreeShape(e, data)
    && (TreeShape(e, data).Components? ==>
          forall ops: Arithmetic :: EvalNode(ops, c, Bound(c.names, data), i) == EvalTree(ops, e, data))
  }

  lemma {:induction false} StandInMeans(c: Arena, i: int, e: Expr, data: Data)
    requires WellFormed(e) && InArena(c, |c.names|, i) && StandsFor(c, i, e)
    ensures Means(c, i, e, data)
    decreases e
  {
    match e
    case Constant(_) =>
    case Variable(name) =>
      VariableMeans(name, i, c, data);
    case Component(name, k) =>
      VariableMeans(name, c.nodes[i].child, c, data);
      ComponentMeans(e, i, c, data);
    case Negate(x) =>
      StandInMeans(c, c.nodes[i].child, x, data);
      NegateMeans(e, i, c, data);
    case Binary(_, l, r) =>
      StandInMeans(c, c.nodes[i].left, l, data);
      StandInMeans(c, c.nodes[i].right, r, data);
      BinaryMeans(e, i, c, data);
    case Conditional(x, y, z) =>
      StandInMeans(c, c.nodes[i].condition, x, data);
      StandInMeans(c, c.nodes[i].yes, y, data);
      StandInMeans(c, c.nodes[i].no, z, data);
      ConditionalMeans(e, i, c, data);
    case Call(f, xs) =>
      forall k | 0 <= k < |xs| ensures Means(c, c.nodes[i].children[k], xs[k], data) {
        StandInMeans(c, c.nodes[i].children[k], xs[k], data);
      }
      CallMeans(e, i, c, data);
  }

  lemma VariableMeans(name: string, i: int, c: Arena, data: Data)
    requires IsVariable(name) && InArena(c, |c.names|, i) && StandsForVariable(c, i, name)
    ensures Means(c, i, Variable(name), data)
  {
    var v := c.nodes[i].variable;
    assert Bound(c.names, data)[v] == data(name);
    assert Widths(Bound(c.names, data))[v] == |data(name)|;
  }

  lemma ComponentMeans(e: Expr, i: int, c: Arena, data: Data)
    requires e.Component? && WellFormed(e) && InArena(c, |c.names|, i) && c.nodes[i].ComponentNode?
    requires c.nodes[i].component == e.component && Means(c, c.nodes[i].child, Variable(e.name), data)
    ensures Means(c, i, e, data)
  {
    var env, x := Bound(c.names, data), c.nodes[i].child;
    assert NodeShape(c, Widths(env), i) == ComponentShape(NodeShape(c, Widths(env), x), e.component);
    if TreeShape(e, data).Components? {
      forall ops: Arithmetic ensures EvalNode(ops, c, env, i) == EvalTree(ops, e, data) {
        assert EvalNode(ops, c, env, x) == EvalTree(ops, Variable(e.name), data);
        assert EvalNode(ops, c, env, i) == [EvalNode(ops, c, env, x)[e.component]];
      }
    }
  }

  lemma BinaryMeans(e: Expr, i: int, c: Arena, data: Data)
    requires e.Binary? && WellFormed(e) && InArena(c, |c.names|, i) && c.nodes[i].BinaryNode?
    requires c.nodes[i].op == e.op
    requires Means(c, c.nodes[i].left, e.left, data) && Means(c, c.nodes[i].right, e.right, data)
    ensures Means(c, i, e, data)
  {
    var env, l, r := Bound(c.names, data), c.nodes[i].left, c.nodes[i].right;
    assert NodeShape(c, Widths(env), i) == BinaryShape(NodeShape(c, Widths(env), l), NodeShape(c, Widths(env), r));
    if TreeShape(e, data).Components? {
      forall ops: Arithmetic ensures EvalNode(ops, c, env, i) == EvalTree(ops, e, data) {
        assert EvalNode(ops, c, env, i) ==
               BinaryValue(ops, e.op, EvalNode(ops, c, env, l), EvalNode(ops, c, env, r));
      }
    }
  }

  lemma ConditionalMeans(e: Expr, i: int, c: Arena, data: Data)
    requires e.Conditional? && WellFormed(e) && InArena(c, |c.names|, i) && c.nodes[i].ConditionalNode?
    requires Means(c, c.nodes[i].condition, e.condition, data)
    requires Means(c, c.nodes[i].yes, e.yes, data) && Means(c, c.nodes[i].no, e.no, data)
    ensures Means(c, i, e, data)
  {
    var env, x, y, z := Bound(c.names, data), c.nodes[i].condition, c.nodes[i].yes, c.nodes[i].no;
    var ws := Widths(env);
    assert NodeShape(c, ws, i) == ChoiceShape(NodeShape(c, ws, x), NodeShape(c, ws, y), NodeShape(c, ws, z));
    if TreeShape(e, data).Components? {
      forall ops: Arithmetic ensures EvalNode(ops, c, env, i) == EvalTree(ops, e, data) {
        assert EvalNode(ops, c, env, i) ==
               ChoiceValue(EvalNode(ops, c, env, x), EvalNode(ops, c, env, y), EvalNode(ops, c, env, z));
      }
    }
  }

  lemma NegateMeans(e: Expr, i: int, c: Arena, data: Data)
    requires e.Negate? && InArena(c, |c.names|, i) && c.nodes[i].NegateNode?
    requires Means(c, c.nodes[i].child, e.operand, data)
    ensures Means(c, i, e, data)
  {
    if TreeShape(e, data).Components? {
      var env := Bound(c.names, data);
      forall ops: Arithmetic ensures EvalNode(ops, c, env, i) == EvalTree(ops, e, data) {
        assert EvalNode(ops, c, env, c.nodes[i].child) == EvalTree(ops, e.operand, data);
        assert EvalNode(ops, c, env, i) == EvalTree(ops, e, data);
      }
    }
  }

  lemma CallMeans(e: Expr, i: int, c: Arena, data: Data)
    requires e.Call? && WellFormed(e) && InArena(c, |c.names|, i) && c.nodes[i].CallNode?
    requires c.nodes[i].function' == e.function' && |c.nodes[i].children| == |e.arguments|
    requires forall k :: 0 <= k < |e.arguments| ==> Means(c, c.nodes[i].children[k], e.arguments[k], data)
    ensures Means(c, i, e, data)
  {
    var xs, children, env := e.arguments, c.nodes[i].children, Bound(c.names, data);
    var treeShapes := seq(|xs|, (k: nat) requires k < |xs| => TreeShape(xs[k], data));
    var nodeShapes := seq(|children|, (k: nat) requires k < |children| => NodeShape(c, Widths(env), children[k]));
    assert treeShapes == nodeShapes;
    if TreeShape(e, data).Components? {
      assert AllKnown(treeShapes);
      assert forall k :: 0 <= k < |xs| ==> treeShapes[k].Components?;
      forall ops: Arithmetic ensures EvalNode(ops, c, env, i) == EvalTree(ops, e, data) {
        var treeValues := seq(|xs|, (k: nat) requires k < |xs| => assert treeShapes[k].Components?; EvalTree(ops, xs[k], data));
        var nodeValues := seq(|children|, (k: nat) requires k < |children| =>
          assert nodeShapes[k].Components?; EvalNode(ops, c, env, children[k]));
        forall k | 0 <= k < |xs| ensures treeValues[k] == nodeValues[k] {
          assert Means(c, children[k], xs[k], data) && treeShapes[k].Components?;
        }
        assert treeValues == nodeValues;
      }
    }
  }

  /** The tree that a source parses to, if it does. */
  ghost function TreeOf(src: Source): (r: Geometry.Option<Expr>) {
    var r := ExpressionGrammar.Parse(src, 0, ExpressionGrammar.CONDITIONAL, Arena([], []));
    if r.Got? then Geometry.Some(r.expr) else Geometry.None
  }

  /** Compiling keeps the meaning: shape check and evaluation of the root are those of the source's tree. */
  lemma CompilationKeepsMeaning(src: Source, length: nat, data: Data) returns (e: Expr)
    requires ExpressionParser.CompiledSource(src, length).Ok?
    ensures WellFormed(e) && TreeOf(src) == Geometry.Some(e)
    ensures var c := ExpressionParser.CompiledSource(src, length);
            c.arena == Emit(e, Arena([], [])) && Means(c.arena, c.root, e, data)
  {
    var empty := Arena([], []);
    ExpressionGrammar.ParseIsSound(src, 0, ExpressionGrammar.CONDITIONAL, empty);
    e := ExpressionGrammar.Parse(src, 0, ExpressionGrammar.CONDITIONAL, empty).expr;
    EmitIsPostOrder(e, empty);
    EmittedStandsFor(e, empty, Emit(e, empty));
    StandInMeans(Emit(e, empty), |Emit(e, empty).nodes| - 1, e, data);
  }
}
