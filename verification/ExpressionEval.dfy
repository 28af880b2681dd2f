/** Shape checking and evaluation of node arenas, and why they agree with the tree that was compiled. */
module ExpressionEval {
  import opened ExpressionSyntax

  // ----- Post-order arenas --------------------------------------------------------------------

  predicate OperandsBefore(node: Node, i: nat, variables: nat) {
    match node
    case ConstantNode(_) => true
    case VariableNode(v) => v < variables
    case ComponentNode(x, _) => 0 <= x < i
    case NegateNode(x) => 0 <= x < i
    case BinaryNode(_, l, r) => 0 <= l < i && 0 <= r < i
    case ConditionalNode(x, y, z) => 0 <= x < i && 0 <= y < i && 0 <= z < i
    case CallNode(f, xs) => |xs| == Arity(f) && forall k :: 0 <= k < |xs| ==> 0 <= xs[k] < i
  }

  ghost predicate PostOrder(a: Arena) {
    forall i :: 0 <= i < |a.nodes| ==> OperandsBefore(a.nodes[i], i, |a.names|)
  }

  ghost predicate Extends(b: Arena, a: Arena) {
    a.nodes <= b.nodes && a.names <= b.names
  }

  lemma {:induction false} EmitIsPostOrder(e: Expr, a: Arena)
    requires WellFormed(e) && PostOrder(a)
    ensures PostOrder(Emit(e, a))
    decreases e
  {
    match e
    case Constant(_) =>
    case Variable(_) =>
    case Component(_, _) =>
    case Negate(x) => EmitIsPostOrder(x, a);
    case Binary(_, l, r) =>
      EmitIsPostOrder(l, a);
      EmitIsPostOrder(r, Emit(l, a));
    case Conditional(x, y, z) =>
      EmitIsPostOrder(x, a);
      EmitIsPostOrder(y, Emit(x, a));
      EmitIsPostOrder(z, Emit(y, Emit(x, a)));
    case Call(_, xs) => EmitAllIsPostOrder(xs, a);
  }

  lemma {:induction false} EmitAllIsPostOrder(es: seq<Expr>, a: Arena)
    requires PostOrder(a) && forall i :: 0 <= i < |es| ==> WellFormed(es[i])
    ensures PostOrder(EmitAll(es, a).0)
    ensures forall k :: 0 <= k < |es| ==> 0 <= EmitAll(es, a).1[k] < |EmitAll(es, a).0.nodes|
    decreases es
  {
    if es != [] {
      EmitAllIsPostOrder(es[..|es| - 1], a);
      EmitIsPostOrder(es[|es| - 1], EmitAll(es[..|es| - 1], a).0);
    }
  }

  // ----- Shapes -------------------------------------------------------------------------------

  datatype Shape = Components(n: nat) | Invalid | Unsupported

  /** Equal component counts, or one side a scalar. */
  function Broadcast(l: nat, r: nat): (s: Shape) {
    if l == r then Components(l) else if l == 1 then Components(r) else if r == 1 then Components(l) else Invalid
  }

  function Limited(s: Shape): (r: Shape) {
    if s.Components? && s.n > MAX_COMPONENTS then Unsupported else s
  }

  function ComponentShape(x: Shape, k: nat): (r: Shape) {
    if !x.Components? || k >= x.n then Invalid else Components(1)
  }

  function BinaryShape(l: Shape, r: Shape): (result: Shape) {
    if !l.Components? || !r.Components? then Invalid else Broadcast(l.n, r.n)
  }

  /** The two branches broadcast; the condition is a scalar or has one value per component. */
  function ChoiceShape(x: Shape, y: Shape, z: Shape): (r: Shape) {
    if !x.Components? then Invalid
    else
      var s := BinaryShape(y, z);
      if !s.Components? || (x.n != 1 && x.n != s.n) then Invalid else Limited(s)
  }

  predicate AllKnown(xs: seq<Shape>) {
    forall i :: 0 <= i < |xs| ==> xs[i].Components?
  }

  function CallShape(f: Function, xs: seq<Shape>): (r: Shape)
    requires |xs| == Arity(f)
  {
    if !AllKnown(xs) then Invalid
    else
      match f
      case Mag => Components(1)
      case Cross => if xs[0].n != 3 || xs[1].n != 3 then Invalid else Components(3)
      case MakeVec2 | MakeVec3 | MakeVec4 =>
        if exists i :: 0 <= i < |xs| && xs[i].n != 1 then Invalid else Components(|xs|)
      case Dot => if xs[0].n != xs[1].n then Invalid else Components(1)
      case Clamp =>
        var s := BinaryShape(xs[0], xs[1]);
        if !s.Components? then Invalid
        else
          var t := BinaryShape(s, xs[2]);
          if !t.Components? then Invalid else Limited(t)
      case Where => ChoiceShape(xs[0], xs[1], xs[2])
      case Min | Max | Pow => BinaryShape(xs[0], xs[1])
      case _ => Limited(xs[0])
  }

  ghost predicate InArena(a: Arena, variables: nat, i: int) {
    PostOrder(a) && variables == |a.names| && 0 <= i < |a.nodes|
  }

  function NodeShape(a: Arena, widths: seq<nat>, i: int): (r: Shape)
    requires InArena(a, |widths|, i)
    decreases i
  {
    match a.nodes[i]
    case ConstantNode(_) => Components(1)
    case VariableNode(v) => Limited(Components(widths[v]))
    case ComponentNode(x, k) => ComponentShape(NodeShape(a, widths, x), k)
    case NegateNode(x) => NodeShape(a, widths, x)
    case BinaryNode(_, l, r) => BinaryShape(NodeShape(a, widths, l), NodeShape(a, widths, r))
    case ConditionalNode(x, y, z) =>
      ChoiceShape(NodeShape(a, widths, x), NodeShape(a, widths, y), NodeShape(a, widths, z))
    case CallNode(f, xs) =>
      CallShape(f, seq(|xs|, (k: nat) requires k < |xs| => NodeShape(a, widths, xs[k])))
  }

  predicate Bindable(widths: seq<nat>) {
    forall v :: 0 <= v < |widths| ==> 1 <= widths[v] <= MAX_COMPONENTS
  }

  predicate Sized(s: Shape) {
    s == Invalid || (s.Components? && 1 <= s.n <= MAX_COMPONENTS)
  }

  /** With bindings of 1 to 16 components, no node ever has none or more than 16: the size error cannot occur. */
  lemma {:induction false} ShapesAreSized(a: Arena, widths: seq<nat>, i: int)
    requires InArena(a, |widths|, i) && Bindable(widths)
    ensures Sized(NodeShape(a, widths, i))
    decreases i
  {
    match a.nodes[i]
    case ConstantNode(_) =>
    case VariableNode(_) =>
    case ComponentNode(x, _) =>
    case NegateNode(x) => ShapesAreSized(a, widths, x);
    case BinaryNode(_, l, r) =>
      ShapesAreSized(a, widths, l);
      ShapesAreSized(a, widths, r);
    case ConditionalNode(_, y, z) =>
      ShapesAreSized(a, widths, y);
      ShapesAreSized(a, widths, z);
    case CallNode(f, xs) =>
      var shapes := seq(|xs|, (k: nat) requires k < |xs| => NodeShape(a, widths, xs[k]));
      forall k | 0 <= k < |xs| ensures Sized(shapes[k]) { ShapesAreSized(a, widths, xs[k]); }
      CallsAreSized(f, shapes);
  }

  lemma CallsAreSized(f: Function, xs: seq<Shape>)
    requires |xs| == Arity(f) && forall k :: 0 <= k < |xs| ==> Sized(xs[k])
    ensures Sized(CallShape(f, xs))
  {
  }

  // ----- Values -------------------------------------------------------------------------------

  /** The operations whose results are not fixed here. */
  datatype Arithmetic = Arithmetic(
    divide: (real, real) -> real,
    power: (real, real) -> real,
    unary: (Function, real) -> real,
    root: real -> real)

  type Value = seq<real>

  function Truth(b: bool): (r: real) { if b then 1.0 else 0.0 }

  function ScalarBinary(ops: Arithmetic, op: BinaryOp, x: real, y: real): (r: real) {
    match op
    case Add => x + y
    case Subtract => x - y
    case Multiply => x * y
    case Divide => ops.divide(x, y)
    case Power => ops.power(x, y)
    case Equal => Truth(x == y)
    case NotEqual => Truth(x != y)
    case Less => Truth(x < y)
    case LessEqual => Truth(x <= y)
    case Greater => Truth(x > y)
    case GreaterEqual => Truth(x >= y)
  }

  /** A scalar operand gives its one value to every component. */
  function Pick(v: Value, i: nat): (r: real)
    requires |v| == 1 || i < |v|
  {
    if |v| == 1 then v[0] else v[i]
  }

  function BinaryValue(ops: Arithmetic, op: BinaryOp, l: Value, r: Value): (result: Value)
    requires Broadcast(|l|, |r|).Components?
  {
    seq(Broadcast(|l|, |r|).n, (i: nat) requires i < Broadcast(|l|, |r|).n =>
      ScalarBinary(ops, op, Pick(l, i), Pick(r, i)))
  }

  function ChoiceValue(x: Value, y: Value, z: Value): (r: Value)
    requires ChoiceShape(Components(|x|), Components(|y|), Components(|z|)).Components?
  {
    seq(Broadcast(|y|, |z|).n, (i: nat) requires i < Broadcast(|y|, |z|).n =>
      if Pick(x, i) != 0.0 then Pick(y, i) else Pick(z, i))
  }

  function DotProduct(l: Value, r: Value): (result: real)
    requires |l| == |r|
  {
    if l == [] then 0.0 else DotProduct(l[..|l| - 1], r[..|r| - 1]) + l[|l| - 1] * r[|r| - 1]
  }

  function ClampValue(x: Value, low: Value, high: Value): (r: Value)
    requires CallShape(Clamp, [Components(|x|), Components(|low|), Components(|high|)]).Components?
  {
    var n := Broadcast(Broadcast(|x|, |low|).n, |high|).n;
    seq(n, (i: nat) requires i < n =>
      var v, m, h := Pick(x, i), Pick(low, i), Pick(high, i);
      if v < m then m else if v > h then h else v)
  }

  function Lengths(xs: seq<Value>): (ns: seq<Shape>)
    ensures |ns| == |xs| && forall k :: 0 <= k < |xs| ==> ns[k] == Components(|xs[k]|)
  {
    seq(|xs|, (k: nat) requires k < |xs| => Components(|xs[k]|))
  }

  function CrossProduct(x: Value, y: Value): (v: Value)
    requires |x| == 3 && |y| == 3
    ensures |v| == 3
  {
    [x[1] * y[2] - x[2] * y[1], x[2] * y[0] - x[0] * y[2], x[0] * y[1] - x[1] * y[0]]
  }

  /** A vector of the first components of its operands. */
  function Firsts(xs: seq<Value>): (v: Value)
    requires forall i :: 0 <= i < |xs| ==> |xs[i]| >= 1
    ensures |v| == |xs|
  {
    seq(|xs|, (i: nat) requires i < |xs| => xs[i][0])
  }

  /** Minimum, maximum and power, component by component. */
  function PairValue(ops: Arithmetic, f: Function, x: Value, y: Value): (v: Value)
    requires Broadcast(|x|, |y|).Components?
    ensures |v| == Broadcast(|x|, |y|).n
  {
    seq(Broadcast(|x|, |y|).n, (i: nat) requires i < Broadcast(|x|, |y|).n =>
      var p, q := Pick(x, i), Pick(y, i);
      if f == Min then (if p < q then p else q) else if f == Max then (if p > q then p else q) else ops.power(p, q))
  }

  /** The value of a call; it has exactly the components its shape announces. */
  function CallValue(ops: Arithmetic, f: Function, xs: seq<Value>): (v: Value)
    requires |xs| == Arity(f) && CallShape(f, Lengths(xs)).Components?
    ensures |v| == CallShape(f, Lengths(xs)).n
  {
    var x := xs[0];
    match f
    case Mag => [ops.root(DotProduct(x, x))]
    case Normalize =>
      var magnitude := ops.root(DotProduct(x, x));
      seq(|x|, (i: nat) requires i < |x| => ops.divide(x[i], magnitude))
    case Dot => [DotProduct(x, xs[1])]
    case Cross => CrossProduct(x, xs[1])
    case MakeVec2 | MakeVec3 | MakeVec4 => Firsts(xs)
    case Clamp => ClampValue(x, xs[1], xs[2])
    case Where => ChoiceValue(x, xs[1], xs[2])
    case Min | Max | Pow => PairValue(ops, f, x, xs[1])
    case _ => seq(|x|, (i: nat) requires i < |x| => ops.unary(f, x[i]))
  }

  function Widths(env: seq<Value>): (ws: seq<nat>)
    ensures |ws| == |env|
  {
    seq(|env|, (v: nat) requires v < |env| => |env[v]|)
  }

  /** Evaluation of an accepted node: every operand component it reads exists. */
  function EvalNode(ops: Arithmetic, a: Arena, env: seq<Value>, i: int): (v: Value)
    requires InArena(a, |env|, i) && NodeShape(a, Widths(env), i).Components?
    ensures |v| == NodeShape(a, Widths(env), i).n
    decreases i
  {
    match a.nodes[i]
    case ConstantNode(c) => [c]
    case VariableNode(v) => env[v]
    case ComponentNode(x, k) => [EvalNode(ops, a, env, x)[k]]
    case NegateNode(x) =>
      var v := EvalNode(ops, a, env, x);
      seq(|v|, (k: nat) requires k < |v| => -v[k])
    case BinaryNode(op, l, r) => BinaryValue(ops, op, EvalNode(ops, a, env, l), EvalNode(ops, a, env, r))
    case ConditionalNode(x, y, z) =>
      ChoiceValue(EvalNode(ops, a, env, x), EvalNode(ops, a, env, y), EvalNode(ops, a, env, z))
    case CallNode(f, xs) =>
      var shapes := seq(|xs|, (k: nat) requires k < |xs| => NodeShape(a, Widths(env), xs[k]));
      assert forall k :: 0 <= k < |xs| ==> shapes[k].Components?;
      var values := seq(|xs|, (k: nat) requires k < |xs| => assert shapes[k].Components?; EvalNode(ops, a, env, xs[k]));
      assert Lengths(values) == shapes;
      CallValue(ops, f, values)
  }
}
