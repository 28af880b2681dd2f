/** Source symbols, expression trees and the flat node arena of the expression compiler. */
module ExpressionSyntax {
  import opened Geometry

  const MAX_NODES := 4096
  const MAX_NAMES := 256
  const MAX_COMPONENTS := 16

  /** The value of a numeric literal; a minus sign in front of one is an operator. */
  type Literal = v: real | v >= 0.0 witness 0.0

  /** A source character, or a numeric literal or component index that has already been scanned. */
  datatype Symbol = Ch(c: char) | Num(value: Literal) | Index(n: nat)

  type Source = seq<Symbol>

  datatype Function =
    | AbsF | Sqrt | Exp | Log | Log10 | Sin | Cos | Tan | Floor | Ceil | Round
    | Min | Max | Pow | Clamp | Mag | Dot | Cross | Normalize | MakeVec2 | MakeVec3 | MakeVec4 | Where

  datatype BinaryOp = Add | Subtract | Multiply | Divide | Power
                    | Equal | NotEqual | Less | LessEqual | Greater | GreaterEqual

  datatype Expr =
    | Constant(value: Literal)
    | Variable(name: string)
    | Component(name: string, component: nat)
    | Negate(operand: Expr)
    | Binary(op: BinaryOp, left: Expr, right: Expr)
    | Conditional(condition: Expr, yes: Expr, no: Expr)
    | Call(function': Function, arguments: seq<Expr>)

  /** Nodes refer to their operands by index; -1 stands for an operand that failed to parse. */
  datatype Node =
    | ConstantNode(value: real)
    | VariableNode(variable: nat)
    | ComponentNode(child: int, component: nat)
    | NegateNode(child: int)
    | BinaryNode(op: BinaryOp, left: int, right: int)
    | ConditionalNode(condition: int, yes: int, no: int)
    | CallNode(function': Function, children: seq<int>)

  datatype Arena = Arena(nodes: seq<Node>, names: seq<string>)

  function FunctionNamed(name: string): (r: Option<Function>) {
    if name == "abs" then Some(AbsF) else if name == "sqrt" then Some(Sqrt) else if name == "exp" then Some(Exp)
    else if name == "log" then Some(Log) else if name == "log10" then Some(Log10) else if name == "sin" then Some(Sin)
    else if name == "cos" then Some(Cos) else if name == "tan" then Some(Tan) else if name == "floor" then Some(Floor)
    else if name == "ceil" then Some(Ceil) else if name == "round" then Some(Round) else if name == "min" then Some(Min)
    else if name == "max" then Some(Max) else if name == "pow" then Some(Pow) else if name == "clamp" then Some(Clamp)
    else if name == "mag" || name == "magnitude" || name == "length" then Some(Mag)
    else if name == "dot" then Some(Dot) else if name == "cross" then Some(Cross)
    else if name == "normalize" then Some(Normalize) else if name == "vec2" then Some(MakeVec2)
    else if name == "vec3" then Some(MakeVec3) else if name == "vec4" then Some(MakeVec4)
    else if name == "where" then Some(Where) else None
  }

  function NameOf(f: Function): (r: string) {
    match f
    case AbsF => "abs" case Sqrt => "sqrt" case Exp => "exp" case Log => "log" case Log10 => "log10"
    case Sin => "sin" case Cos => "cos" case Tan => "tan" case Floor => "floor" case Ceil => "ceil"
    case Round => "round" case Min => "min" case Max => "max" case Pow => "pow" case Clamp => "clamp"
    case Mag => "mag" case Dot => "dot" case Cross => "cross" case Normalize => "normalize"
    case MakeVec2 => "vec2" case MakeVec3 => "vec3" case MakeVec4 => "vec4" case Where => "where"
  }

  function Arity(f: Function): (n: nat)
    ensures 1 <= n <= 4
  {
    match f
    case Min | Max | Pow | Dot | Cross | MakeVec2 => 2
    case Clamp | MakeVec3 | Where => 3
    case MakeVec4 => 4
    case _ => 1
  }

  predicate IsSpace(c: char) { c == ' ' || '\t' <= c <= '\r' }
  predicate IsDigit(c: char) { '0' <= c <= '9' }
  predicate IsNameStart(c: char) { 'a' <= c <= 'z' || 'A' <= c <= 'Z' || c == '_' }
  predicate IsNameChar(c: char) { IsNameStart(c) || IsDigit(c) }

  // ----- The arena --------------------------------------------------------------------------

  /** Appends a node unless 4096 are in use. */
  function AddNode(a: Arena, node: Node): (r: Option<Arena>) {
    if |a.nodes| == MAX_NODES then None else Some(a.(nodes := a.nodes + [node]))
  }

  function IndexOf(names: seq<string>, name: string): (i: nat)
    ensures i <= |names|
    ensures i < |names| ==> names[i] == name
    ensures forall k :: 0 <= k < i ==> names[k] != name
  {
    if names == [] || names[0] == name then 0 else 1 + IndexOf(names[1..], name)
  }

  /** The index of a variable name, entering it on first use unless 256 are in use. */
  function Intern(a: Arena, name: string): (r: Option<(Arena, nat)>) {
    var i := IndexOf(a.names, name);
    if i < |a.names| then Some((a, i))
    else if |a.names| == MAX_NAMES then None
    else Some((a.(names := a.names + [name]), i))
  }

  /** What compiling a tree appends to an arena; the root is the last node. */
  function Emit(e: Expr, a: Arena): (a': Arena)
    ensures a.nodes <= a'.nodes && a.names <= a'.names && |a.nodes| < |a'.nodes|
  {
    match e
    case Constant(v) => a.(nodes := a.nodes + [ConstantNode(v)])
    case Variable(name) => EmitVariable(name, a)
    case Component(name, k) =>
      var b := EmitVariable(name, a);
      b.(nodes := b.nodes + [ComponentNode(|b.nodes| - 1, k)])
    case Negate(x) =>
      var b := Emit(x, a);
      b.(nodes := b.nodes + [NegateNode(|b.nodes| - 1)])
    case Binary(op, l, r) =>
      var b := Emit(l, a);
      var c := Emit(r, b);
      c.(nodes := c.nodes + [BinaryNode(op, |b.nodes| - 1, |c.nodes| - 1)])
    case Conditional(x, y, z) =>
      var b := Emit(x, a);
      var c := Emit(y, b);
      var d := Emit(z, c);
      d.(nodes := d.nodes + [ConditionalNode(|b.nodes| - 1, |c.nodes| - 1, |d.nodes| - 1)])
    case Call(f, xs) =>
      var (b, children) := EmitAll(xs, a);
      b.(nodes := b.nodes + [CallNode(f, children)])
  }

  function EmitVariable(name: string, a: Arena): (a': Arena)
    ensures a.nodes <= a'.nodes && a.names <= a'.names && |a.nodes| < |a'.nodes|
  {
    var i := IndexOf(a.names, name);
    Arena(a.nodes + [VariableNode(i)], if i < |a.names| then a.names else a.names + [name])
  }

  /** Arguments from first to last, with the index of each root. */
  function EmitAll(es: seq<Expr>, a: Arena): (r: (Arena, seq<int>))
    ensures a.nodes <= r.0.nodes && a.names <= r.0.names && |r.1| == |es|
  {
    if es == [] then (a, [])
    else
      var (b, children) := EmitAll(es[..|es| - 1], a);
      var c := Emit(es[|es| - 1], b);
      (c, children + [|c.nodes| - 1])
  }

  predicate Fits(a: Arena) {
    |a.nodes| <= MAX_NODES && |a.names| <= MAX_NAMES
  }

  // ----- Trees the grammar can express -------------------------------------------------------

  predicate IsName(name: string) {
    name != "" && IsNameStart(name[0]) && forall i :: 0 <= i < |name| ==> IsNameChar(name[i])
  }

  /** Names that can stand for data: the two constants are taken. */
  predicate IsVariable(name: string) {
    IsName(name) && name != "pi" && name != "e"
  }

  predicate WellFormed(e: Expr) {
    match e
    case Constant(_) => true
    case Variable(name) => IsVariable(name)
    case Component(name, k) => IsVariable(name) && k < MAX_COMPONENTS
    case Negate(x) => WellFormed(x)
    case Binary(_, l, r) => WellFormed(l) && WellFormed(r)
    case Conditional(x, y, z) => WellFormed(x) && WellFormed(y) && WellFormed(z)
    case Call(f, xs) => |xs| == Arity(f) && forall i :: 0 <= i < |xs| ==> WellFormed(xs[i])
  }
}
