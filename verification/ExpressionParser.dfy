/** The recursive-descent parser over a moving cursor and a growing arena. */
module ExpressionParser {
  import opened ExpressionSyntax
  import opened ExpressionGrammar

  datatype Compiled = InvalidArgument(offset: nat) | Ok(arena: Arena, root: nat)

  const MAX_LENGTH := 65536

  class Parser {
    const source: Source
    var cursor: nat
    var nodes: seq<Node>
    var names: seq<string>
    var failed: bool
    var errorOffset: nat

    constructor (source: Source)
      ensures Valid() && this.source == source && cursor == 0 && nodes == [] && names == [] && !failed
    {
      this.source := source;
      cursor, nodes, names, failed, errorOffset := 0, [], [], false, 0;
    }

    ghost predicate Valid() reads this {
      cursor <= |source| && Fits(Current())
    }

    function Current(): (r: Arena) reads this { Arena(nodes, names) }

    /** This parser has reached exactly the state a specification result describes. */
    ghost predicate Reached(r: Parsed, result: int) reads this {
      match r
      case Fail(at) => failed && errorOffset == at
      case Got(_, p, b) => !failed && cursor == p && Current() == b && result == |b.nodes| - 1
    }

    ghost predicate ReachedArguments(r: ParsedArguments, children: seq<int>) reads this {
      match r
      case BadArguments(at) => failed && errorOffset == at
      case Arguments(_, p, b, cs) => !failed && cursor == p && Current() == b && children == cs
    }

    /** Only the first failure is recorded. */
    method Refuse()
      requires Valid()
      modifies `failed, `errorOffset
      ensures Valid() && failed
      ensures errorOffset == if old(failed) then old(errorOffset) else cursor
    {
      if failed { return; }
      failed, errorOffset := true, cursor;
    }

    method SkipSpace()
      requires Valid()
      modifies `cursor
      ensures Valid() && cursor == Skip(source, old(cursor))
    {
      while IsSpace(Peek(source, cursor))
        invariant Valid() && old(cursor) <= cursor && Skip(source, cursor) == Skip(source, old(cursor))
        decreases |source| - cursor
      {
        cursor := cursor + 1;
      }
    }

    method Append(node: Node) returns (result: int)
      requires Valid()
      modifies `nodes, `failed, `errorOffset
      ensures Valid()
      ensures old(failed) ==> failed && errorOffset == old(errorOffset)
      ensures !old(failed) ==>
        match AddNode(old(Current()), node)
        case None => failed && errorOffset == cursor
        case Some(b) => !failed && Current() == b && result == |b.nodes| - 1
    {
      if |nodes| == MAX_NODES {
        Refuse();
        return -1;
      }
      nodes := nodes + [node];
      return |nodes| - 1;
    }

    method Name(name: string) returns (result: int)
      requires Valid()
      modifies `names, `failed, `errorOffset
      ensures Valid() && -1 <= result
      ensures old(failed) ==> failed && errorOffset == old(errorOffset)
      ensures !old(failed) ==>
        match Intern(old(Current()), name)
        case None => failed && errorOffset == cursor
        case Some(r) => !failed && Current() == r.0 && result == r.1
    {
      var index := 0;
      while index < |names|
        invariant 0 <= index <= |names|
        invariant forall k :: 0 <= k < index ==> names[k] != name
      {
        if names[index] == name {
          FirstIndex(names, name, index);
          return index;
        }
        index := index + 1;
      }
      FirstIndex(names, name, index);
      if |names| == MAX_NAMES {
        Refuse();
        return -1;
      }
      names := names + [name];
      return |names| - 1;
    }

    method ParseConditional() returns (result: int)
      requires Valid()
      modifies `cursor, `nodes, `names, `failed, `errorOffset
      ensures Valid() && old(cursor) <= cursor
      ensures old(failed) ==> failed && errorOffset == old(errorOffset)
      ensures !old(failed) ==> Reached(Parse(source, old(cursor), CONDITIONAL, old(Current())), result)
      decreases |source| - cursor, 9
    {
      ghost var start, a := cursor, Current();
      assert Parse(source, start, CONDITIONAL, a) == ExpressionGrammar.ParseConditional(source, start, a);
      var condition := ParseLevel(COMPARE);
      SkipSpace();
      if Peek(source, cursor) != '?' { return condition; }
      cursor := cursor + 1;
      result := ParseBranches(condition, if failed then Fail(0) else Parse(source, start, COMPARE, a));
    }

    method ParseBranches(condition: int, ghost x: Parsed) returns (result: int)
      requires Valid()
      requires !failed ==> x.Got? && Current() == x.arena && condition == |nodes| - 1
      modifies `cursor, `nodes, `names, `failed, `errorOffset
      ensures Valid() && old(cursor) <= cursor
      ensures old(failed) ==> failed && errorOffset == old(errorOffset)
      ensures !old(failed) ==> Reached(ExpressionGrammar.ParseBranches(source, old(cursor), x), result)
      decreases |source| - cursor, 10
    {
      var yes := ParseConditional();
      SkipSpace();
      if Peek(source, cursor) != ':' {
        Refuse();
        return -1;
      }
      cursor := cursor + 1;
      var no := ParseConditional();
      result := Append(ConditionalNode(condition, yes, no));
    }

    /** The comparison, additive and multiplicative levels are one loop over their own operators. */
    method ParseLevel(level: nat) returns (result: int)
      requires Valid() && COMPARE <= level <= POWER
      modifies `cursor, `nodes, `names, `failed, `errorOffset
      ensures Valid() && old(cursor) <= cursor
      ensures old(failed) ==> failed && errorOffset == old(errorOffset)
      ensures !old(failed) ==> Reached(Parse(source, old(cursor), level, old(Current())), result)
      decreases |source| - cursor, 9 - level
    {
      if level == POWER {
        result := ParsePower();
        return;
      }
      ghost var left := Parse(source, cursor, level + 1, Current());
      result := ParseLevel(level + 1);
      result := ParseTail(level, result, left);
    }

    method ParseTail(level: nat, first: int, ghost l: Parsed) returns (result: int)
      requires Valid() && COMPARE <= level <= MULTIPLY
      requires !failed ==> l.Got? && Reached(l, first) && nodes != []
      modifies `cursor, `nodes, `names, `failed, `errorOffset
      ensures Valid() && old(cursor) <= cursor
      ensures old(failed) ==> failed && errorOffset == old(errorOffset)
      ensures !old(failed) ==> Reached(ExpressionGrammar.ParseTail(source, level, l), result)
      decreases |source| - cursor, 9 - level, 1
    {
      result := first;
      ghost var left, whole := l, if failed then l else ExpressionGrammar.ParseTail(source, level, l);
      while true
        invariant Valid() && old(cursor) <= cursor
        invariant old(failed) ==> failed && errorOffset == old(errorOffset)
        invariant !old(failed) && failed ==> whole == Fail(errorOffset)
        invariant !failed ==> left.Got? && Reached(left, result) && nodes != []
        invariant !failed ==> whole == ExpressionGrammar.ParseTail(source, level, left)
        decreases |source| - cursor
      {
        ghost var before := left;
        var more;
        result, more := ParseOperand(level, result, before);
        if !more { return; }
        if !failed {
          var q := Skip(source, before.pos);
          var o := OperatorAt(source, q, level).value;
          left := ExpressionGrammar.ParseOperand(source, q + o.1, level, before, o.0);
        }
      }
    }

    /** One more operator of a level and its right operand, if there is one. */
    method ParseOperand(level: nat, left: int, ghost l: Parsed) returns (result: int, more: bool)
      requires Valid() && COMPARE <= level <= MULTIPLY
      requires !failed ==> l.Got? && Reached(l, left)
      modifies `cursor, `nodes, `names, `failed, `errorOffset
      ensures Valid() && old(cursor) <= cursor && (more ==> old(cursor) < cursor)
      ensures old(failed) ==> failed && errorOffset == old(errorOffset)
      ensures !old(failed) ==>
        var q := Skip(source, l.pos);
        match OperatorAt(source, q, level)
        case None => !more && Reached(l.(pos := q), result)
        case Some(o) => more && Reached(ExpressionGrammar.ParseOperand(source, q + o.1, level, l, o.0), result)
      decreases |source| - cursor, 9 - level, 0
    {
      SkipSpace();
      var operator := OperatorAt(source, cursor, level);
      if operator.None? { return left, false; }
      cursor := cursor + operator.value.1;
      var right := ParseLevel(level + 1);
      result := Append(BinaryNode(operator.value.0, left, right));
      more := true;
    }

    method ParsePower() returns (result: int)
      requires Valid()
      modifies `cursor, `nodes, `names, `failed, `errorOffset
      ensures Valid() && old(cursor) <= cursor
      ensures old(failed) ==> failed && errorOffset == old(errorOffset)
      ensures !old(failed) ==> Reached(Parse(source, old(cursor), POWER, old(Current())), result)
      decreases |source| - cursor, 4
    {
      assert Parse(source, cursor, POWER, Current()) == ExpressionGrammar.ParsePower(source, cursor, Current());
      var left := ParseUnary();
      SkipSpace();
      if Peek(source, cursor) != '^' { return left; }
      cursor := cursor + 1;
      var right := ParsePower();
      result := Append(BinaryNode(BinaryOp.Power, left, right));
    }

    method ParseUnary() returns (result: int)
      requires Valid()
      modifies `cursor, `nodes, `names, `failed, `errorOffset
      ensures Valid() && old(cursor) <= cursor
      ensures old(failed) ==> failed && errorOffset == old(errorOffset)
      ensures !old(failed) ==> Reached(Parse(source, old(cursor), UNARY, old(Current())), result)
      decreases |source| - cursor, 3
    {
      SkipSpace();
      if Peek(source, cursor) == '+' {
        cursor := cursor + 1;
        result := ParseUnary();
        return;
      }
      if Peek(source, cursor) == '-' {
        cursor := cursor + 1;
        var child := ParseUnary();
        result := Append(NegateNode(child));
        return;
      }
      result := ParsePrimary();
    }

    method ReadName() returns (name: string)
      requires Valid()
      modifies `cursor
      ensures Valid() && cursor == NameEnd(source, old(cursor)) && name == Text(source, old(cursor), cursor)
    {
      name := "";
      while IsNameChar(Peek(source, cursor))
        invariant Valid() && old(cursor) <= cursor <= NameEnd(source, old(cursor))
        invariant NameEnd(source, cursor) == NameEnd(source, old(cursor))
        invariant name == Text(source, old(cursor), cursor)
        decreases |source| - cursor
      {
        name := name + [source[cursor].c];
        cursor := cursor + 1;
      }
    }

    method ParsePrimary() returns (result: int)
      requires Valid()
      modifies `cursor, `nodes, `names, `failed, `errorOffset
      ensures Valid() && old(cursor) <= cursor
      ensures old(failed) ==> failed && errorOffset == old(errorOffset)
      ensures !old(failed) ==> Reached(Parse(source, old(cursor), PRIMARY, old(Current())), result)
      decreases |source| - cursor, 2
    {
      ghost var spec := Parse(source, cursor, PRIMARY, Current());
      assert spec == ExpressionGrammar.ParsePrimary(source, Skip(source, cursor), Current());
      SkipSpace();
      var c := Peek(source, cursor);
      if c == '(' {
        cursor := cursor + 1;
        result := ParseConditional();
        SkipSpace();
        if Peek(source, cursor) != ')' {
          Refuse();
        } else {
          cursor := cursor + 1;
        }
        return;
      }
      if cursor < |source| && source[cursor].Num? {
        var value := source[cursor].value;
        cursor := cursor + 1;
        result := Append(ConstantNode(value));
        return;
      }
      if IsNameStart(c) {
        var name := ReadName();
        SkipSpace();
        if Peek(source, cursor) == '(' {
          result := ParseFunction(name);
        } else {
          result := ParseNamed(name);
        }
        return;
      }
      Refuse();
      return -1;
    }

    method ParseFunction(name: string) returns (result: int)
      requires Valid() && Peek(source, cursor) == '('
      modifies `cursor, `nodes, `names, `failed, `errorOffset
      ensures Valid() && old(cursor) <= cursor
      ensures old(failed) ==> failed && errorOffset == old(errorOffset)
      ensures !old(failed) ==> Reached(ParseCall(source, name, old(cursor), old(Current())), result)
      decreases |source| - cursor, 1
    {
      var function' := FunctionNamed(name);
      if function'.None? {
        Refuse();
        return -1;
      }
      cursor := cursor + 1;
      SkipSpace();
      var children: seq<int> := [];
      if Peek(source, cursor) != ')' {
        var tooMany;
        children, tooMany := ParseList();
        if tooMany { return -1; }
      }
      if Peek(source, cursor) != ')' {
        Refuse();
      } else {
        cursor := cursor + 1;
      }
      if |children| != Arity(function'.value) {
        Refuse();
      }
      if failed { return -1; }
      result := Append(CallNode(function'.value, children));
    }

    method ParseList() returns (children: seq<int>, tooMany: bool)
      requires Valid()
      modifies `cursor, `nodes, `names, `failed, `errorOffset
      ensures Valid() && old(cursor) <= cursor && (tooMany ==> failed)
      ensures old(failed) ==> failed && errorOffset == old(errorOffset)
      ensures !old(failed) ==>
        ReachedArguments(ParseArguments(source, old(cursor), [], old(Current()), []), children)
      decreases |source| - cursor, 10
    {
      ghost var whole := ParseArguments(source, cursor, [], Current(), []);
      ghost var exprs: seq<Expr> := [];
      children, tooMany := [], false;
      while true
        invariant Valid() && old(cursor) <= cursor && |exprs| == |children| <= 4
        invariant old(failed) ==> failed && errorOffset == old(errorOffset)
        invariant !old(failed) && failed ==> whole == BadArguments(errorOffset)
        invariant !failed ==> whole == ParseArguments(source, cursor, exprs, Current(), children)
        decreases |source| - cursor
      {
        if |children| >= 4 {
          Refuse();
          tooMany := true;
          return;
        }
        ghost var parsed := Parse(source, cursor, CONDITIONAL, Current());
        var child := ParseConditional();
        SkipSpace();
        exprs := exprs + [if failed then Constant(0.0) else parsed.expr];
        children := children + [child];
        if Peek(source, cursor) != ',' { return; }
        cursor := cursor + 1;
      }
    }

    method ParseNamed(name: string) returns (result: int)
      requires Valid() && 0 < cursor && !IsSpace(Peek(source, cursor))
      modifies `cursor, `nodes, `names, `failed, `errorOffset
      ensures Valid() && old(cursor) <= cursor
      ensures old(failed) ==> failed && errorOffset == old(errorOffset)
      ensures !old(failed) ==> Reached(ParseVariable(source, name, old(cursor), old(Current())), result)
    {
      if name == "pi" || name == "e" {
        result := Append(ConstantNode(if name == "pi" then PI else EULER));
        return;
      }
      var variable := Name(name);
      if failed {
        result := -1;
      } else {
        result := Append(VariableNode(variable));
      }
      SkipSpace();
      if Peek(source, cursor) == '.' || Peek(source, cursor) == '[' {
        result := ParseSuffix(result, name);
      }
    }

    method ParseSuffix(variable: int, ghost name: string) returns (result: int)
      requires Valid() && cursor < |source| && (Peek(source, cursor) == '.' || Peek(source, cursor) == '[')
      requires !failed ==> variable == |nodes| - 1
      modifies `cursor, `nodes, `names, `failed, `errorOffset
      ensures Valid() && old(cursor) <= cursor
      ensures old(failed) ==> failed && errorOffset == old(errorOffset)
      ensures !old(failed) ==> Reached(ParseComponent(source, name, old(cursor), old(Current())), result)
    {
      var component;
      if Peek(source, cursor) == '.' {
        cursor := cursor + 1;
        var letter := ComponentLetter(Peek(source, cursor));
        if letter.None? {
          Refuse();
          return -1;
        }
        component := letter.value;
        cursor := cursor + 1;
      } else {
        cursor := cursor + 1;
        SkipSpace();
        if !(cursor < |source| && source[cursor].Index? && source[cursor].n < MAX_COMPONENTS) {
          Refuse();
          return -1;
        }
        component := source[cursor].n;
        cursor := cursor + 1;
        SkipSpace();
        if Peek(source, cursor) != ']' {
          Refuse();
          return -1;
        }
        cursor := cursor + 1;
      }
      result := Append(ComponentNode(variable, component));
    }
  }

  lemma {:induction false} FirstIndex(names: seq<string>, name: string, i: nat)
    requires i <= |names| && (forall k :: 0 <= k < i ==> names[k] != name)
    requires i < |names| ==> names[i] == name
    ensures IndexOf(names, name) == i
  {
    var j := IndexOf(names, name);
    assert j < |names| ==> names[j] == name;
  }

  /** Compiling reports the first offset at which the source stops being an expression. */
  function CompiledSource(src: Source, length: nat): (r: Compiled) {
    if src == [] || length > MAX_LENGTH then InvalidArgument(0)
    else
      var r := Parse(src, 0, CONDITIONAL, Arena([], []));
      if r.Fail? then InvalidArgument(r.at)
      else
        var q := Skip(src, r.pos);
        if q < |src| then InvalidArgument(q) else Ok(r.arena, |r.arena.nodes| - 1)
  }

  method Compile(source: Source, length: nat) returns (r: Compiled)
    ensures r == CompiledSource(source, length)
  {
    if source == [] || length > MAX_LENGTH { return InvalidArgument(0); }
    var parser := new Parser(source);
    var root := parser.ParseConditional();
    parser.SkipSpace();
    if !parser.failed && parser.cursor < |source| {
      parser.Refuse();
    }
    if parser.failed || root < 0 { return InvalidArgument(parser.errorOffset); }
    r := Ok(parser.Current(), root);
  }
}
