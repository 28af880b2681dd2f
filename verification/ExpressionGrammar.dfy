/** What the recursive-descent parser computes: a tree, how far it read, and the arena it filled. */
module ExpressionGrammar {
  import opened ExpressionSyntax
  import Geometry

  const PI := 3.14159265358979323846
  const EULER := 2.71828182845904523536

  // Precedence levels, loosest first; ?: is the loosest and ^ binds looser than a sign.
  const CONDITIONAL := 0
  const COMPARE := 1
  const ADD := 2
  const MULTIPLY := 3
  const POWER := 4
  const UNARY := 5
  const PRIMARY := 6

  /** A failed parse keeps the position at which it first went wrong. */
  datatype Parsed = Fail(at: nat) | Got(expr: Expr, pos: nat, arena: Arena)

  datatype ParsedArguments =
    | BadArguments(at: nat)
    | Arguments(exprs: seq<Expr>, pos: nat, arena: Arena, children: seq<int>)

  // ----- Reading symbols --------------------------------------------------------------------

  /** The character at a position; the terminator past the end and at scanned literals. */
  function Peek(src: Source, pos: nat): (r: char) {
    if pos < |src| && src[pos].Ch? then src[pos].c else '\0'
  }

  function Skip(src: Source, pos: nat): (q: nat)
    requires pos <= |src|
    ensures pos <= q <= |src| && !IsSpace(Peek(src, q))
    ensures !IsSpace(Peek(src, pos)) ==> q == pos
    decreases |src| - pos
  {
    if IsSpace(Peek(src, pos)) then Skip(src, pos + 1) else pos
  }

  function NameEnd(src: Source, pos: nat): (q: nat)
    requires pos <= |src|
    ensures pos <= q <= |src| && !IsNameChar(Peek(src, q))
    ensures forall k :: pos <= k < q ==> src[k].Ch? && IsNameChar(src[k].c)
    decreases |src| - pos
  {
    if IsNameChar(Peek(src, pos)) then NameEnd(src, pos + 1) else pos
  }

  function Text(src: Source, from: nat, to: nat): (name: string)
    requires from <= to <= |src|
    requires forall k :: from <= k < to ==> src[k].Ch?
    ensures |name| == to - from && forall k :: 0 <= k < |name| ==> name[k] == src[from + k].c
  {
    seq(to - from, (k: nat) requires k < to - from => src[from + k].c)
  }

  /** The operator at a position on one of the left-associative levels, and its width. */
  function OperatorAt(src: Source, pos: nat, level: nat): (r: Geometry.Option<(BinaryOp, nat)>)
    ensures r.Some? ==> 1 <= r.value.1 <= 2 && pos + r.value.1 <= |src|
  {
    var c := Peek(src, pos);
    var equals := Peek(src, pos + 1) == '=';
    if level == COMPARE then
      if c == '=' && equals then Geometry.Some((Equal, 2))
      else if c == '!' && equals then Geometry.Some((NotEqual, 2))
      else if c == '<' && equals then Geometry.Some((LessEqual, 2))
      else if c == '>' && equals then Geometry.Some((GreaterEqual, 2))
      else if c == '<' then Geometry.Some((Less, 1))
      else if c == '>' then Geometry.Some((Greater, 1))
      else Geometry.None
    else if level == ADD then
      if c == '+' then Geometry.Some((BinaryOp.Add, 1))
      else if c == '-' then Geometry.Some((Subtract, 1))
      else Geometry.None
    else if level == MULTIPLY then
      if c == '*' then Geometry.Some((BinaryOp.Multiply, 1))
      else if c == '/' then Geometry.Some((Divide, 1))
      else Geometry.None
    else Geometry.None
  }

  function ComponentLetter(c: char): (r: Geometry.Option<nat>) {
    if c == 'x' then Geometry.Some(0) else if c == 'y' then Geometry.Some(1)
    else if c == 'z' then Geometry.Some(2) else if c == 'w' then Geometry.Some(3) else Geometry.None
  }

  // ----- The grammar ------------------------------------------------------------------------

  /** Adds a finished tree's root node; the arena may be full. */
  function Finish(e: Expr, node: Node, pos: nat, arena: Arena): (r: Parsed) {
    var b := AddNode(arena, node);
    if b.None? then Fail(pos) else Got(e, pos, b.value)
  }

  predicate InRange(r: Parsed, src: Source, pos: int) {
    match r
    case Fail(at) => pos <= at <= |src|
    case Got(_, p, b) => pos < p <= |src| && Fits(b) && b.nodes != []
  }

  predicate ArgumentsInRange(r: ParsedArguments, src: Source, pos: nat) {
    match r
    case BadArguments(at) => pos <= at <= |src|
    case Arguments(es, p, b, children) => pos <= p <= |src| && |es| == |children| <= 4 && Fits(b)
  }

  /** Parses one level from a position. */
  function Parse(src: Source, pos: nat, level: nat, a: Arena): (r: Parsed)
    requires pos <= |src| && level <= PRIMARY && Fits(a)
    ensures InRange(r, src, pos)
    decreases |src| - pos, 2 * (PRIMARY - level) + 1
  {
    if level == CONDITIONAL then ParseConditional(src, pos, a)
    else if level <= MULTIPLY then
      var left := Parse(src, pos, level + 1, a);
      if left.Fail? then left else ParseTail(src, level, left)
    else if level == POWER then ParsePower(src, pos, a)
    else if level == UNARY then
      var q := Skip(src, pos);
      if Peek(src, q) == '+' then Parse(src, q + 1, UNARY, a)
      else if Peek(src, q) == '-' then
        var x := Parse(src, q + 1, UNARY, a);
        if x.Fail? then x
        else Finish(Negate(x.expr), NegateNode(|x.arena.nodes| - 1), x.pos, x.arena)
      else Parse(src, q, PRIMARY, a)
    else ParsePrimary(src, Skip(src, pos), a)
  }

  /** Extends a left operand by every further operator of its level, associating to the left. */
  function ParseTail(src: Source, level: nat, left: Parsed): (r: Parsed)
    requires COMPARE <= level <= MULTIPLY && left.Got? && InRange(left, src, left.pos - 1)
    ensures InRange(r, src, left.pos - 1)
    decreases |src| - left.pos, 0
  {
    var q := Skip(src, left.pos);
    var o := OperatorAt(src, q, level);
    if o.None? then left.(pos := q)
    else
      var both := ParseOperand(src, q + o.value.1, level, left, o.value.0);
      if both.Fail? then both else ParseTail(src, level, both)
  }

  /** The right operand of an operator that ends before q, joined to the left operand. */
  function ParseOperand(src: Source, q: nat, level: nat, left: Parsed, op: BinaryOp): (r: Parsed)
    requires COMPARE <= level <= MULTIPLY && left.Got? && Fits(left.arena) && q <= |src|
    ensures InRange(r, src, q)
    decreases |src| - q, 2 * (PRIMARY - level)
  {
    var right := Parse(src, q, level + 1, left.arena);
    if right.Fail? then right
    else Finish(Binary(op, left.expr, right.expr),
                BinaryNode(op, |left.arena.nodes| - 1, |right.arena.nodes| - 1), right.pos, right.arena)
  }

  function ParsePower(src: Source, pos: nat, a: Arena): (r: Parsed)
    requires pos <= |src| && Fits(a)
    ensures InRange(r, src, pos)
    decreases |src| - pos, 2 * (PRIMARY - POWER)
  {
    var left := Parse(src, pos, UNARY, a);
    if left.Fail? then left
    else
      var q := Skip(src, left.pos);
      if Peek(src, q) != '^' then left.(pos := q)
      else
        var right := Parse(src, q + 1, POWER, left.arena);
        if right.Fail? then right
        else Finish(Binary(BinaryOp.Power, left.expr, right.expr),
                    BinaryNode(BinaryOp.Power, |left.arena.nodes| - 1, |right.arena.nodes| - 1), right.pos, right.arena)
  }

  function ParseConditional(src: Source, pos: nat, a: Arena): (r: Parsed)
    requires pos <= |src| && Fits(a)
    ensures InRange(r, src, pos)
    decreases |src| - pos, 2 * PRIMARY
  {
    var x := Parse(src, pos, COMPARE, a);
    if x.Fail? then x
    else
      var q := Skip(src, x.pos);
      if Peek(src, q) != '?' then x.(pos := q) else ParseBranches(src, q + 1, x)
  }

  /** The two branches of a conditional, from just after its question mark. */
  function ParseBranches(src: Source, q: nat, x: Parsed): (r: Parsed)
    requires x.Got? && Fits(x.arena) && q <= |src|
    ensures InRange(r, src, q)
    decreases |src| - q, 2 * PRIMARY + 2
  {
    var y := Parse(src, q, CONDITIONAL, x.arena);
    if y.Fail? then y
    else
      var k := Skip(src, y.pos);
      if Peek(src, k) != ':' then Fail(k)
      else
        var z := Parse(src, k + 1, CONDITIONAL, y.arena);
        if z.Fail? then z
        else Finish(Conditional(x.expr, y.expr, z.expr),
                    ConditionalNode(|x.arena.nodes| - 1, |y.arena.nodes| - 1, |z.arena.nodes| - 1), z.pos, z.arena)
  }

  /** A primary starting at a position that holds no space. */
  function ParsePrimary(src: Source, pos: nat, a: Arena): (r: Parsed)
    requires pos <= |src| && Fits(a)
    ensures InRange(r, src, pos)
    decreases |src| - pos, 0
  {
    var c := Peek(src, pos);
    if c == '(' then
      var x := Parse(src, pos + 1, CONDITIONAL, a);
      if x.Fail? then x
      else
        var k := Skip(src, x.pos);
        if Peek(src, k) != ')' then Fail(k) else x.(pos := k + 1)
    else if pos < |src| && src[pos].Num? then
      Finish(Constant(src[pos].value), ConstantNode(src[pos].value), pos + 1, a)
    else if IsNameStart(c) then
      var n := NameEnd(src, pos);
      var q := Skip(src, n);
      if Peek(src, q) == '(' then ParseCall(src, Text(src, pos, n), q, a)
      else ParseVariable(src, Text(src, pos, n), q, a)
    else Fail(pos)
  }

  /** A call, from its opening parenthesis at q. */
  function ParseCall(src: Source, name: string, q: nat, a: Arena): (r: Parsed)
    requires q < |src| && Peek(src, q) == '(' && Fits(a)
    ensures InRange(r, src, q)
    decreases |src| - q, 1
  {
    var f := FunctionNamed(name);
    if f.None? then Fail(q)
    else
      var s := Skip(src, q + 1);
      var list := if Peek(src, s) == ')' then Arguments([], s, a, []) else ParseArguments(src, s, [], a, []);
      if list.BadArguments? then Fail(list.at)
      else if Peek(src, list.pos) != ')' then Fail(list.pos)
      else if |list.exprs| != Arity(f.value) then Fail(list.pos + 1)
      else Finish(Call(f.value, list.exprs), CallNode(f.value, list.children), list.pos + 1, list.arena)
  }

  /** The arguments after those already read; stops after the last one, at a symbol that is not a comma. */
  function ParseArguments(src: Source, pos: nat, es: seq<Expr>, b: Arena, children: seq<int>): (r: ParsedArguments)
    requires pos <= |src| && |es| == |children| <= 4 && Fits(b)
    ensures ArgumentsInRange(r, src, pos)
    decreases |src| - pos, 2 * PRIMARY + 2
  {
    if |es| >= 4 then BadArguments(pos)
    else
      var x := Parse(src, pos, CONDITIONAL, b);
      if x.Fail? then BadArguments(x.at)
      else
        var k := Skip(src, x.pos);
        var es', children' := es + [x.expr], children + [|x.arena.nodes| - 1];
        if Peek(src, k) != ',' then Arguments(es', k, x.arena, children')
        else ParseArguments(src, k + 1, es', x.arena, children')
  }

  /** A constant, a variable or one component of a variable, after its name has been read up to q. */
  function ParseVariable(src: Source, name: string, q: nat, a: Arena): (r: Parsed)
    requires 0 < q <= |src| && Fits(a)
    ensures InRange(r, src, q - 1)
  {
    if name == "pi" then Finish(Constant(PI), ConstantNode(PI), q, a)
    else if name == "e" then Finish(Constant(EULER), ConstantNode(EULER), q, a)
    else
      var v := Intern(a, name);
      if v.None? then Fail(q)
      else
        var b := AddNode(v.value.0, VariableNode(v.value.1));
        if b.None? then Fail(q)
        else if Peek(src, q) == '.' || Peek(src, q) == '[' then ParseComponent(src, name, q, b.value)
        else Got(Variable(name), q, b.value)
  }

  /** A component suffix: a letter after a dot, or an index below 16 in brackets. */
  function ParseComponent(src: Source, name: string, q: nat, b: Arena): (r: Parsed)
    requires q < |src| && (Peek(src, q) == '.' || Peek(src, q) == '[') && Fits(b)
    ensures InRange(r, src, q)
  {
    if Peek(src, q) == '.' then
      var k := ComponentLetter(Peek(src, q + 1));
      if k.None? then Fail(q + 1)
      else Finish(Component(name, k.value), ComponentNode(|b.nodes| - 1, k.value), q + 2, b)
    else
      var s := Skip(src, q + 1);
      if !(s < |src| && src[s].Index? && src[s].n < MAX_COMPONENTS) then Fail(s)
      else
        var t := Skip(src, s + 1);
        if Peek(src, t) != ']' then Fail(t)
        else Finish(Component(name, src[s].n), ComponentNode(|b.nodes| - 1, src[s].n), t + 1, b)
  }

  // ----- Every tree read is well formed, and the arena holds exactly its post-order ----------

  ghost predicate Sound(r: Parsed, a: Arena) {
    r.Got? ==> WellFormed(r.expr) && r.arena == Emit(r.expr, a)
  }

  lemma {:induction false} ParseIsSound(src: Source, pos: nat, level: nat, a: Arena)
    requires pos <= |src| && level <= PRIMARY && Fits(a)
    ensures Sound(Parse(src, pos, level, a), a)
    decreases |src| - pos, 2 * (PRIMARY - level) + 1
  {
    var r := Parse(src, pos, level, a);
    if level == CONDITIONAL {
      ConditionalIsSound(src, pos, a);
    } else if level <= MULTIPLY {
      ParseIsSound(src, pos, level + 1, a);
      var left := Parse(src, pos, level + 1, a);
      if left.Got? { TailIsSound(src, level, left, a); }
    } else if level == POWER {
      PowerIsSound(src, pos, a);
    } else if level == UNARY {
      var q := Skip(src, pos);
      if Peek(src, q) == '+' || Peek(src, q) == '-' {
        ParseIsSound(src, q + 1, UNARY, a);
      } else {
        ParseIsSound(src, q, PRIMARY, a);
      }
    } else {
      PrimaryIsSound(src, Skip(src, pos), a);
      assert r == ParsePrimary(src, Skip(src, pos), a);
    }
  }

  lemma {:induction false} TailIsSound(src: Source, level: nat, left: Parsed, a: Arena)
    requires COMPARE <= level <= MULTIPLY && left.Got? && InRange(left, src, left.pos - 1) && Sound(left, a)
    ensures Sound(ParseTail(src, level, left), a)
    decreases |src| - left.pos, 0
  {
    var q := Skip(src, left.pos);
    var o := OperatorAt(src, q, level);
    if o.Some? {
      var p := q + o.value.1;
      ParseIsSound(src, p, level + 1, left.arena);
      var both := ParseOperand(src, p, level, left, o.value.0);
      if both.Got? { TailIsSound(src, level, both, a); }
    }
  }

  lemma {:induction false} PowerIsSound(src: Source, pos: nat, a: Arena)
    requires pos <= |src| && Fits(a)
    ensures Sound(ParsePower(src, pos, a), a)
    decreases |src| - pos, 2 * (PRIMARY - POWER)
  {
    ParseIsSound(src, pos, UNARY, a);
    var left := Parse(src, pos, UNARY, a);
    if left.Got? {
      var q := Skip(src, left.pos);
      if Peek(src, q) == '^' { ParseIsSound(src, q + 1, POWER, left.arena); }
    }
  }

  lemma {:induction false} ConditionalIsSound(src: Source, pos: nat, a: Arena)
    requires pos <= |src| && Fits(a)
    ensures Sound(ParseConditional(src, pos, a), a)
    decreases |src| - pos, 2 * PRIMARY
  {
    ParseIsSound(src, pos, COMPARE, a);
    var x := Parse(src, pos, COMPARE, a);
    if x.Got? {
      var q := Skip(src, x.pos);
      if Peek(src, q) == '?' { BranchesAreSound(src, q + 1, x, a); }
    }
  }

  lemma {:induction false} BranchesAreSound(src: Source, q: nat, x: Parsed, a: Arena)
    requires x.Got? && Fits(x.arena) && q <= |src| && Sound(x, a)
    ensures Sound(ParseBranches(src, q, x), a)
    decreases |src| - q, 2 * PRIMARY + 2
  {
    ParseIsSound(src, q, CONDITIONAL, x.arena);
    var y := Parse(src, q, CONDITIONAL, x.arena);
    if y.Got? {
      var k := Skip(src, y.pos);
      if Peek(src, k) == ':' {
        ParseIsSound(src, k + 1, CONDITIONAL, y.arena);
        BranchesBuild(x, y, Parse(src, k + 1, CONDITIONAL, y.arena), a);
      }
    }
  }

  lemma BranchesBuild(x: Parsed, y: Parsed, z: Parsed, a: Arena)
    requires x.Got? && Sound(x, a) && y.Got? && Sound(y, x.arena) && Sound(z, y.arena)
    ensures z.Got? ==>
              Sound(Finish(Conditional(x.expr, y.expr, z.expr),
                           ConditionalNode(|x.arena.nodes| - 1, |y.arena.nodes| - 1, |z.arena.nodes| - 1),
                           z.pos, z.arena), a)
  {
  }

  lemma {:induction false} PrimaryIsSound(src: Source, pos: nat, a: Arena)
    requires pos <= |src| && Fits(a)
    ensures Sound(ParsePrimary(src, pos, a), a)
    decreases |src| - pos, 0
  {
    var c := Peek(src, pos);
    if c == '(' {
      ParseIsSound(src, pos + 1, CONDITIONAL, a);
    } else if IsNameStart(c) {
      var n := NameEnd(src, pos);
      var q := Skip(src, n);
      if Peek(src, q) == '(' {
        CallIsSound(src, Text(src, pos, n), q, a);
      } else {
        VariableIsSound(src, Text(src, pos, n), q, a);
      }
    }
  }

  lemma {:induction false} CallIsSound(src: Source, name: string, q: nat, a: Arena)
    requires q < |src| && Peek(src, q) == '(' && Fits(a)
    ensures Sound(ParseCall(src, name, q, a), a)
    decreases |src| - q, 1
  {
    var s := Skip(src, q + 1);
    if Peek(src, s) != ')' { ArgumentsAreSound(src, s, [], a, [], a); }
  }

  lemma VariableIsSound(src: Source, name: string, q: nat, a: Arena)
    requires 0 < q <= |src| && Fits(a) && IsName(name)
    ensures Sound(ParseVariable(src, name, q, a), a)
  {
    var v := Intern(a, name);
    if name != "pi" && name != "e" && v.Some? {
      var b := AddNode(v.value.0, VariableNode(v.value.1));
      assert b.Some? ==> b.value == EmitVariable(name, a);
    }
  }

  ghost predicate SoundArguments(r: ParsedArguments, a: Arena) {
    r.Arguments? ==>
      && (forall i :: 0 <= i < |r.exprs| ==> WellFormed(r.exprs[i]))
      && (r.arena, r.children) == EmitAll(r.exprs, a)
  }

  lemma {:induction false} ArgumentsAreSound(src: Source, pos: nat, es: seq<Expr>, b: Arena, children: seq<int>, a: Arena)
    requires pos <= |src| && |es| == |children| <= 4 && Fits(b) && SoundArguments(Arguments(es, pos, b, children), a)
    ensures SoundArguments(ParseArguments(src, pos, es, b, children), a)
    decreases |src| - pos, 2 * PRIMARY + 2
  {
    if |es| < 4 {
      ParseIsSound(src, pos, CONDITIONAL, b);
      var x := Parse(src, pos, CONDITIONAL, b);
      if x.Got? {
        var k := Skip(src, x.pos);
        AppendEmit(es, x.expr, a);
        if Peek(src, k) == ',' {
          ArgumentsAreSound(src, k + 1, es + [x.expr], x.arena, children + [|x.arena.nodes| - 1], a);
        }
      }
    }
  }

  lemma AppendEmit(es: seq<Expr>, e: Expr, a: Arena)
    ensures EmitAll(es + [e], a) ==
            (Emit(e, EmitAll(es, a).0), EmitAll(es, a).1 + [|Emit(e, EmitAll(es, a).0).nodes| - 1])
  {
    assert (es + [e])[..|es|] == es;
  }
}
