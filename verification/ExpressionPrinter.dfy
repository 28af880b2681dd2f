/** Printing with no more parentheses than parsing needs, and why parsing undoes it. */
module ExpressionPrinter {
  import opened ExpressionSyntax
  import opened ExpressionGrammar
  import ExpressionParser
  import Geometry

  function OperatorLevel(op: BinaryOp): (k: nat)
    ensures COMPARE <= k <= POWER
  {
    match op
    case Equal | NotEqual | Less | LessEqual | Greater | GreaterEqual => COMPARE
    case Add | Subtract => ADD
    case Multiply | Divide => MULTIPLY
    case Power => POWER
  }

  function Chars(s: string): (r: Source)
    ensures |r| == |s| && forall i :: 0 <= i < |s| ==> r[i] == Ch(s[i])
  {
    seq(|s|, (i: nat) requires i < |s| => Ch(s[i]))
  }

  function OperatorText(op: BinaryOp): (r: string) {
    match op
    case Equal => "==" case NotEqual => "!=" case Less => "<" case LessEqual => "<=" case Greater => ">"
    case GreaterEqual => ">=" case Add => "+" case Subtract => "-" case Multiply => "*" case Divide => "/"
    case Power => "^"
  }

  /** The loosest level at which a tree reads back without parentheses. */
  function LevelOf(e: Expr): (k: nat)
    ensures k <= PRIMARY
  {
    match e
    case Conditional(_, _, _) => CONDITIONAL
    case Binary(op, _, _) => OperatorLevel(op)
    case Negate(_) => UNARY
    case _ => PRIMARY
  }

  /** What follows the name of a component. */
  function Suffix(k: nat): (r: Source) {
    if k < 4 then Chars(['.', "xyzw"[k]]) else [Ch('['), Index(k), Ch(']')]
  }

  function Print(e: Expr, level: nat): (r: Source)
    decreases e, 1
  {
    if LevelOf(e) < level then Chars("(") + Bare(e) + Chars(")") else Bare(e)
  }

  function Bare(e: Expr): (r: Source)
    decreases e, 0
  {
    match e
    case Constant(v) => [Num(v)]
    case Variable(name) => Chars(name)
    case Component(name, k) => Chars(name) + Suffix(k)
    case Negate(x) => Chars("-") + Print(x, UNARY)
    case Binary(op, l, r) =>
      if op == BinaryOp.Power then Print(l, UNARY) + (Chars("^") + Print(r, POWER))
      else Print(l, OperatorLevel(op)) + (Chars(OperatorText(op)) + Print(r, OperatorLevel(op) + 1))
    case Conditional(x, y, z) =>
      Print(x, COMPARE) + (Chars("?") + (Print(y, CONDITIONAL) + (Chars(":") + Print(z, CONDITIONAL))))
    case Call(f, xs) => Chars(NameOf(f)) + (Chars("(") + (PrintList(xs) + Chars(")")))
  }

  function PrintList(xs: seq<Expr>): (r: Source)
    decreases xs
  {
    if xs == [] then []
    else if |xs| == 1 then Print(xs[0], CONDITIONAL)
    else Print(xs[0], CONDITIONAL) + (Chars(",") + PrintList(xs[1..]))
  }

  // ----- Windows of a source ------------------------------------------------------------------

  ghost predicate At(src: Source, pos: nat, s: Source) {
    pos + |s| <= |src| && forall i :: 0 <= i < |s| ==> src[pos + i] == s[i]
  }

  lemma AtParts(src: Source, pos: nat, s: Source, t: Source)
    requires At(src, pos, s + t)
    ensures At(src, pos, s) && At(src, pos + |s|, t)
  {
    forall i | 0 <= i < |t| ensures src[pos + |s| + i] == t[i] { assert (s + t)[|s| + i] == t[i]; }
    forall i | 0 <= i < |s| ensures src[pos + i] == s[i] { assert (s + t)[i] == s[i]; }
  }

  lemma AtSymbol(src: Source, pos: nat, s: Source, i: nat)
    requires At(src, pos, s) && i < |s|
    ensures src[pos + i] == s[i]
  {
  }

  lemma AtChars(src: Source, pos: nat, s: string)
    requires At(src, pos, Chars(s))
    ensures forall i :: 0 <= i < |s| ==> Peek(src, pos + i) == s[i]
  {
    forall i | 0 <= i < |s| ensures Peek(src, pos + i) == s[i] { AtSymbol(src, pos, Chars(s), i); }
  }

  /** How tightly the symbol at a position binds to what stands before it. */
  function Pull(src: Source, pos: nat): (r: nat) {
    match Peek(src, pos)
    case '\0' | ')' | ',' | ':' => 0
    case '?' => 1
    case '=' | '!' | '<' | '>' => 2
    case '+' | '-' => 3
    case '*' | '/' => 4
    case '^' => 5
    case _ => 7
  }

  lemma Quiet(src: Source, pos: nat)
    requires pos <= |src| && Pull(src, pos) <= PRIMARY
    ensures Skip(src, pos) == pos && !IsNameChar(Peek(src, pos))
    ensures Peek(src, pos) != '(' && Peek(src, pos) != '.' && Peek(src, pos) != '['
  {
  }

  predicate StartsOperand(s: Source) {
    s != [] && (s[0].Num? || (s[0].Ch? && (s[0].c == '(' || s[0].c == '-' || IsNameStart(s[0].c))))
  }

  lemma {:induction false} PrintStarts(e: Expr, level: nat)
    requires WellFormed(e)
    ensures StartsOperand(Print(e, level)) && StartsOperand(Bare(e))
    ensures LevelOf(e) == PRIMARY ==> Bare(e)[0] != Ch('-')
    ensures UNARY < level ==> Print(e, level)[0] != Ch('-')
  {
    match e
    case Constant(_) =>
    case Variable(_) =>
    case Component(_, _) =>
    case Negate(_) =>
    case Binary(op, l, _) => PrintStarts(l, if op == BinaryOp.Power then UNARY else OperatorLevel(op));
    case Conditional(x, _, _) => PrintStarts(x, COMPARE);
    case Call(f, _) => NameIsName(f);
  }

  lemma NameIsName(f: Function)
    ensures IsName(NameOf(f))
  {
  }

  /** Functions of one operand, and of several. */
  lemma UnaryIsKnown(f: Function)
    requires Arity(f) == 1
    ensures FunctionNamed(NameOf(f)) == Geometry.Some(f)
  {
  }

  lemma NameIsKnown(f: Function)
    ensures FunctionNamed(NameOf(f)) == Geometry.Some(f)
  {
    if Arity(f) == 1 { UnaryIsKnown(f); }
  }

  // ----- Levels -------------------------------------------------------------------------------

  /** A level with nothing of its own to add passes on what the next one read. */
  lemma OneLevel(src: Source, pos: nat, level: nat, a: Arena)
    requires pos <= |src| && level < PRIMARY && Fits(a)
    requires Parse(src, pos, level + 1, a).Got? && Pull(src, Parse(src, pos, level + 1, a).pos) <= level
    requires level == UNARY ==> !IsSpace(Peek(src, pos)) && Peek(src, pos) != '+' && Peek(src, pos) != '-'
    ensures Parse(src, pos, level, a) == Parse(src, pos, level + 1, a)
  {
    var r := Parse(src, pos, level + 1, a);
    Quiet(src, r.pos);
    if level == CONDITIONAL {
      assert Parse(src, pos, level, a) == ParseConditional(src, pos, a);
    } else if level <= MULTIPLY {
      assert OperatorAt(src, r.pos, level).None?;
      assert Parse(src, pos, level, a) == ParseTail(src, level, r);
    } else if level == POWER {
      assert Parse(src, pos, level, a) == ParsePower(src, pos, a);
    }
  }

  lemma {:induction false} FromPrimary(src: Source, pos: nat, level: nat, a: Arena)
    requires pos <= |src| && level <= PRIMARY && Fits(a)
    requires Parse(src, pos, PRIMARY, a).Got? && Pull(src, Parse(src, pos, PRIMARY, a).pos) <= level
    requires !IsSpace(Peek(src, pos)) && Peek(src, pos) != '+' && Peek(src, pos) != '-'
    ensures Parse(src, pos, level, a) == Parse(src, pos, PRIMARY, a)
    decreases PRIMARY - level
  {
    if level < PRIMARY {
      FromPrimary(src, pos, level + 1, a);
      OneLevel(src, pos, level, a);
    }
  }

  lemma NameIsRead(src: Source, pos: nat, name: string)
    requires IsName(name) && At(src, pos, Chars(name)) && !IsNameChar(Peek(src, pos + |name|))
    ensures pos + |name| <= |src| && NameEnd(src, pos) == pos + |name|
    ensures Text(src, pos, pos + |name|) == name
  {
    AtChars(src, pos, name);
    var n := NameEnd(src, pos);
    assert forall i :: 0 <= i < |name| ==> src[pos + i] == Ch(name[i]);
    forall k | pos <= k < pos + |name| ensures IsNameChar(Peek(src, k)) {
      assert Peek(src, pos + (k - pos)) == name[k - pos];
    }
  }

  lemma OperatorIsRead(src: Source, pos: nat, op: BinaryOp)
    requires op != BinaryOp.Power && At(src, pos, Chars(OperatorText(op)))
    requires Peek(src, pos + |OperatorText(op)|) != '='
    ensures OperatorAt(src, pos, OperatorLevel(op)) == Geometry.Some((op, |OperatorText(op)|))
    ensures Skip(src, pos) == pos && Pull(src, pos) == OperatorLevel(op) + 1
  {
    AtChars(src, pos, OperatorText(op));
    assert Peek(src, pos + 0) == OperatorText(op)[0];
    if |OperatorText(op)| == 2 { assert Peek(src, pos + 1) == OperatorText(op)[1]; }
  }

  // ----- One production at a time: from parsed parts to the parsed whole ------------------------

  lemma Parenthesised(src: Source, pos: nat, a: Arena, r: Parsed)
    requires pos < |src| && Fits(a) && Peek(src, pos) == '(' && r.Got?
    requires Parse(src, pos + 1, CONDITIONAL, a) == r && Peek(src, r.pos) == ')'
    ensures Parse(src, pos, PRIMARY, a) == r.(pos := r.pos + 1)
  {
    assert Skip(src, pos) == pos && Skip(src, r.pos) == r.pos;
    assert Parse(src, pos, PRIMARY, a) == ParsePrimary(src, pos, a);
  }

  lemma Chosen(e: Expr, src: Source, pos: nat, a: Arena, q: nat, k: nat, end: nat)
    requires e.Conditional? && Fits(Emit(e, a)) && pos <= |src| && q < |src| && k < |src|
    requires Parse(src, pos, COMPARE, a) == Got(e.condition, q, Emit(e.condition, a)) && Peek(src, q) == '?'
    requires var b := Emit(e.condition, a);
             Parse(src, q + 1, CONDITIONAL, b) == Got(e.yes, k, Emit(e.yes, b)) && Peek(src, k) == ':'
    requires var c := Emit(e.yes, Emit(e.condition, a));
             Parse(src, k + 1, CONDITIONAL, c) == Got(e.no, end, Emit(e.no, c))
    ensures Parse(src, pos, CONDITIONAL, a) == Got(e, end, Emit(e, a))
  {
    assert Skip(src, q) == q && Skip(src, k) == k;
    var x := Parse(src, pos, COMPARE, a);
    assert ParseConditional(src, pos, a) == ParseBranches(src, q + 1, x);
    assert Parse(src, pos, CONDITIONAL, a) == ParseConditional(src, pos, a);
  }

  lemma Raised(e: Expr, src: Source, pos: nat, a: Arena, q: nat, end: nat)
    requires e.Binary? && e.op == BinaryOp.Power && Fits(Emit(e, a)) && pos <= |src| && q < |src|
    requires Parse(src, pos, UNARY, a) == Got(e.left, q, Emit(e.left, a)) && Peek(src, q) == '^'
    requires var b := Emit(e.left, a); Parse(src, q + 1, POWER, b) == Got(e.right, end, Emit(e.right, b))
    ensures Parse(src, pos, POWER, a) == Got(e, end, Emit(e, a))
  {
    assert Skip(src, q) == q;
    assert Parse(src, pos, POWER, a) == ParsePower(src, pos, a);
  }

  lemma Negated(e: Expr, src: Source, pos: nat, a: Arena, end: nat)
    requires e.Negate? && Fits(Emit(e, a)) && pos < |src| && Peek(src, pos) == '-'
    requires Parse(src, pos + 1, UNARY, a) == Got(e.operand, end, Emit(e.operand, a))
    ensures Parse(src, pos, UNARY, a) == Got(e, end, Emit(e, a))
  {
    assert Skip(src, pos) == pos;
  }

  lemma Extended(e: Expr, src: Source, level: nat, a: Arena, q: nat, end: nat)
    requires e.Binary? && COMPARE <= level <= MULTIPLY && Fits(Emit(e, a)) && 0 < q <= |src|
    requires OperatorAt(src, q, level) == Geometry.Some((e.op, |OperatorText(e.op)|)) && Skip(src, q) == q
    requires q + |OperatorText(e.op)| <= |src|
    requires var b := Emit(e.left, a);
             Parse(src, q + |OperatorText(e.op)|, level + 1, b) == Got(e.right, end, Emit(e.right, b))
    ensures end <= |src|
    ensures ParseTail(src, level, Got(e.left, q, Emit(e.left, a))) == ParseTail(src, level, Got(e, end, Emit(e, a)))
  {
    Operated(e, src, level, a, q + |OperatorText(e.op)|, end);
  }

  lemma Operated(e: Expr, src: Source, level: nat, a: Arena, q: nat, end: nat)
    requires e.Binary? && COMPARE <= level <= MULTIPLY && Fits(Emit(e, a)) && Fits(Emit(e.left, a)) && q <= |src|
    requires var b := Emit(e.left, a); Parse(src, q, level + 1, b) == Got(e.right, end, Emit(e.right, b))
    ensures end <= |src|
    ensures forall p :: ParseOperand(src, q, level, Got(e.left, p, Emit(e.left, a)), e.op) == Got(e, end, Emit(e, a))
  {
  }

  lemma Named(src: Source, pos: nat, a: Arena, name: string)
    requires pos <= |src| && Fits(a) && IsName(name) && At(src, pos, Chars(name))
    requires !IsNameChar(Peek(src, pos + |name|)) && !IsSpace(Peek(src, pos + |name|))
    requires Peek(src, pos + |name|) != '('
    ensures pos + |name| <= |src| && ParsePrimary(src, pos, a) == ParseVariable(src, name, pos + |name|, a)
  {
    NameIsRead(src, pos, name);
    AtSymbol(src, pos, Chars(name), 0);
    assert Skip(src, pos + |name|) == pos + |name|;
    assert Text(src, pos, NameEnd(src, pos)) == name;
  }

  lemma Called(e: Expr, src: Source, pos: nat, q: nat, end: nat, a: Arena)
    requires e.Call? && Fits(Emit(e, a)) && WellFormed(e) && Fits(a) && 0 < end
    requires At(src, pos, Chars(NameOf(e.function'))) && q == pos + |NameOf(e.function')| && q < |src|
    requires Peek(src, q) == '(' && !IsSpace(Peek(src, q + 1)) && Peek(src, q + 1) != ')'
    requires var (b, children) := EmitAll(e.arguments, a);
             ParseArguments(src, q + 1, [], a, []) == Arguments(e.arguments, end - 1, b, children)
    requires Peek(src, end - 1) == ')'
    ensures ParsePrimary(src, pos, a) == Got(e, end, Emit(e, a))
  {
    NameIsName(e.function');
    NameIsKnown(e.function');
    CallIsRead(src, pos, q, a, NameOf(e.function'));
    CallIsMade(e, src, q, end, a);
  }

  lemma NameLeadsToCall(src: Source, pos: nat, q: nat, a: Arena, name: string)
    requires pos < |src| && Fits(a) && IsNameStart(Peek(src, pos)) && Peek(src, pos) != '(' && !src[pos].Num?
    requires NameEnd(src, pos) == q < |src| && Text(src, pos, q) == name && Skip(src, q) == q && Peek(src, q) == '('
    ensures ParsePrimary(src, pos, a) == ParseCall(src, name, q, a)
  {
  }

  lemma CallIsRead(src: Source, pos: nat, q: nat, a: Arena, name: string)
    requires IsName(name) && At(src, pos, Chars(name)) && q == pos + |name| && q < |src| && Fits(a)
    requires Peek(src, q) == '('
    ensures pos <= |src| && ParsePrimary(src, pos, a) == ParseCall(src, name, q, a)
  {
    NameIsRead(src, pos, name);
    AtSymbol(src, pos, Chars(name), 0);
    NameLeadsToCall(src, pos, q, a, name);
  }

  lemma CallIsMade(e: Expr, src: Source, q: nat, end: nat, a: Arena)
    requires e.Call? && Fits(Emit(e, a)) && WellFormed(e) && Fits(a) && 0 < end && q < |src|
    requires FunctionNamed(NameOf(e.function')) == Geometry.Some(e.function')
    requires Peek(src, q) == '(' && !IsSpace(Peek(src, q + 1)) && Peek(src, q + 1) != ')'
    requires var (b, children) := EmitAll(e.arguments, a);
             ParseArguments(src, q + 1, [], a, []) == Arguments(e.arguments, end - 1, b, children)
    requires Peek(src, end - 1) == ')'
    ensures ParseCall(src, NameOf(e.function'), q, a) == Got(e, end, Emit(e, a))
  {
    assert Skip(src, q + 1) == q + 1;
  }

  lemma Entered(name: string, a: Arena)
    requires Fits(EmitVariable(name, a))
    ensures Intern(a, name).Some?
    ensures AddNode(Intern(a, name).value.0, VariableNode(Intern(a, name).value.1))
         == Geometry.Some(EmitVariable(name, a))
  {
  }

  // ----- Where the parts of a printed tree stand ------------------------------------------------

  /** A tree printed for a level stands between two positions, and what follows leaves it alone at a tightness. */
  ghost predicate Shown(e: Expr, level: nat, src: Source, pos: nat, end: nat, pull: nat) {
    At(src, pos, Print(e, level)) && end == pos + |Print(e, level)| && Pull(src, end) <= pull
  }

  lemma ConditionalWindows(e: Expr, src: Source, pos: nat, end: nat) returns (q: nat, k: nat)
    requires e.Conditional? && Shown(e, CONDITIONAL, src, pos, end, CONDITIONAL)
    ensures Shown(e.condition, COMPARE, src, pos, q, COMPARE) && q < |src| && Peek(src, q) == '?'
    ensures Shown(e.yes, CONDITIONAL, src, q + 1, k, CONDITIONAL) && k < |src| && Peek(src, k) == ':'
    ensures Shown(e.no, CONDITIONAL, src, k + 1, end, CONDITIONAL)
  {
    var x, y, z := Print(e.condition, COMPARE), Print(e.yes, CONDITIONAL), Print(e.no, CONDITIONAL);
    q := pos + |x|;
    k := q + 1 + |y|;
    assert Print(e, CONDITIONAL) == Bare(e);
    AtParts(src, pos, x, Chars("?") + (y + (Chars(":") + z)));
    AtParts(src, q, Chars("?"), y + (Chars(":") + z));
    AtParts(src, q + 1, y, Chars(":") + z);
    AtParts(src, k, Chars(":"), z);
    AtSymbol(src, q, Chars("?"), 0);
    AtSymbol(src, k, Chars(":"), 0);
  }

  lemma BinaryWindows(e: Expr, src: Source, pos: nat, end: nat, left: nat, right: nat) returns (q: nat)
    requires e.Binary? && At(src, pos, Bare(e)) && end == pos + |Bare(e)|
    requires left == (if e.op == BinaryOp.Power then UNARY else OperatorLevel(e.op))
    requires right == (if e.op == BinaryOp.Power then POWER else OperatorLevel(e.op) + 1)
    ensures At(src, pos, Print(e.left, left)) && q == pos + |Print(e.left, left)|
    ensures At(src, q, Chars(OperatorText(e.op)))
    ensures At(src, q + |OperatorText(e.op)|, Print(e.right, right))
    ensures end == q + |OperatorText(e.op)| + |Print(e.right, right)|
  {
    var l, o, r := Print(e.left, left), Chars(OperatorText(e.op)), Print(e.right, right);
    assert Bare(e) == l + (o + r);
    q := pos + |l|;
    AtParts(src, pos, l, o + r);
    AtParts(src, q, o, r);
  }

  lemma PowerWindows(e: Expr, src: Source, pos: nat, end: nat) returns (q: nat)
    requires e.Binary? && e.op == BinaryOp.Power && Shown(e, POWER, src, pos, end, POWER)
    ensures Shown(e.left, UNARY, src, pos, q, UNARY) && q < |src| && Peek(src, q) == '^'
    ensures Shown(e.right, POWER, src, q + 1, end, POWER)
  {
    q := BinaryWindows(e, src, pos, end, UNARY, POWER);
    AtSymbol(src, q, Chars("^"), 0);
  }

  /** A printed operator is read as such before a printed operand. */
  lemma OperatorWindow(op: BinaryOp, r: Expr, level: nat, src: Source, q: nat)
    requires op != BinaryOp.Power && WellFormed(r) && At(src, q, Chars(OperatorText(op)))
    requires At(src, q + |OperatorText(op)|, Print(r, level))
    ensures OperatorAt(src, q, OperatorLevel(op)) == Geometry.Some((op, |OperatorText(op)|))
    ensures Skip(src, q) == q && Pull(src, q) == OperatorLevel(op) + 1
  {
    PrintStarts(r, level);
    AtSymbol(src, q + |OperatorText(op)|, Print(r, level), 0);
    OperatorIsRead(src, q, op);
  }

  lemma SpineWindows(e: Expr, level: nat, src: Source, pos: nat, end: nat) returns (q: nat)
    requires WellFormed(e) && LevelOf(e) == level && COMPARE <= level <= MULTIPLY
    requires Shown(e, level, src, pos, end, level + 1)
    ensures e.Binary? && Shown(e.left, level, src, pos, q, level + 1) && 0 < q <= |src|
    ensures OperatorAt(src, q, level) == Geometry.Some((e.op, |OperatorText(e.op)|)) && Skip(src, q) == q
    ensures Shown(e.right, level + 1, src, q + |OperatorText(e.op)|, end, level + 1)
  {
    q := BinaryWindows(e, src, pos, end, level, level + 1);
    PrintStarts(e.left, level);
    OperatorWindow(e.op, e.right, level + 1, src, q);
  }

  lemma NegateWindows(e: Expr, src: Source, pos: nat, end: nat)
    requires e.Negate? && Shown(e, UNARY, src, pos, end, UNARY)
    ensures pos < |src| && Peek(src, pos) == '-' && Shown(e.operand, UNARY, src, pos + 1, end, UNARY)
  {
    var x := Print(e.operand, UNARY);
    assert Print(e, UNARY) == Bare(e) == Chars("-") + x;
    AtParts(src, pos, Chars("-"), x);
    AtSymbol(src, pos, Chars("-"), 0);
  }

  lemma CallWindows(e: Expr, src: Source, pos: nat, end: nat) returns (q: nat)
    requires e.Call? && WellFormed(e) && At(src, pos, Bare(e)) && end == pos + |Bare(e)|
    ensures At(src, pos, Chars(NameOf(e.function'))) && q == pos + |NameOf(e.function')| && q < |src|
    ensures Peek(src, q) == '(' && !IsSpace(Peek(src, q + 1)) && Peek(src, q + 1) != ')'
    ensures At(src, q + 1, PrintList(e.arguments)) && end - 1 == q + 1 + |PrintList(e.arguments)|
    ensures Peek(src, end - 1) == ')'
  {
    var n, xs := Chars(NameOf(e.function')), PrintList(e.arguments);
    q := pos + |n|;
    AtParts(src, pos, n, Chars("(") + (xs + Chars(")")));
    AtParts(src, q, Chars("("), xs + Chars(")"));
    AtParts(src, q + 1, xs, Chars(")"));
    AtSymbol(src, q, Chars("("), 0);
    AtSymbol(src, q + 1 + |xs|, Chars(")"), 0);
    PrintStarts(e.arguments[0], CONDITIONAL);
    AtSymbol(src, q + 1, xs, 0);
  }

  lemma ListWindows(xs: seq<Expr>, src: Source, pos: nat)
    requires |xs| >= 2 && At(src, pos, PrintList(xs))
    ensures var k := pos + |Print(xs[0], CONDITIONAL)|;
            && At(src, pos, Print(xs[0], CONDITIONAL)) && Peek(src, k) == ','
            && At(src, k + 1, PrintList(xs[1..]))
            && pos + |PrintList(xs)| == k + 1 + |PrintList(xs[1..])|
  {
    var x, rest := Print(xs[0], CONDITIONAL), PrintList(xs[1..]);
    AtParts(src, pos, x, Chars(",") + rest);
    AtParts(src, pos + |x|, Chars(","), rest);
    AtSymbol(src, pos + |x|, Chars(","), 0);
  }

  lemma ParenthesisWindows(e: Expr, level: nat, src: Source, pos: nat)
    requires LevelOf(e) < level && At(src, pos, Print(e, level))
    ensures Peek(src, pos) == '(' && At(src, pos + 1, Bare(e)) && Peek(src, pos + 1 + |Bare(e)|) == ')'
    ensures |Print(e, level)| == |Bare(e)| + 2
  {
    AtParts(src, pos, Chars("(") + Bare(e), Chars(")"));
    AtParts(src, pos, Chars("("), Bare(e));
    AtSymbol(src, pos, Chars("("), 0);
    AtSymbol(src, pos + 1 + |Bare(e)|, Chars(")"), 0);
  }

  // ----- Parsing what was printed ---------------------------------------------------------------

  /** A tree with room in the arena, shown at a level where nothing that follows binds to it. */
  ghost predicate Printed(e: Expr, level: nat, src: Source, pos: nat, end: nat, a: Arena) {
    WellFormed(e) && level <= PRIMARY && Fits(Emit(e, a)) && Shown(e, level, src, pos, end, level)
  }

  /** Parsing at a level reads exactly this tree, up to a position. */
  ghost predicate ReadBack(e: Expr, level: nat, src: Source, pos: nat, end: nat, a: Arena) {
    pos <= |src| && level <= PRIMARY && Fits(a) && Parse(src, pos, level, a) == Got(e, end, Emit(e, a))
  }

  /** Printing a tree at a level and parsing at that level gives the tree back, wherever it stands. */
  lemma {:induction false} RoundTrip(e: Expr, level: nat, src: Source, pos: nat, end: nat, a: Arena)
    requires Printed(e, level, src, pos, end, a)
    ensures ReadBack(e, level, src, pos, end, a)
    decreases e, if LevelOf(e) < level then 2 else 1, 7 - level, 1
  {
    if LevelOf(e) < level {
      RoundTripParenthesised(e, level, src, pos, end, a);
    } else if LevelOf(e) > level {
      RoundTrip(e, level + 1, src, pos, end, a);
      FromNextLevel(e, level, src, pos, end, a);
    } else {
      RoundTripBare(e, level, src, pos, end, a);
    }
  }

  /** The level that a tree is built at. */
  lemma {:induction false} RoundTripBare(e: Expr, level: nat, src: Source, pos: nat, end: nat, a: Arena)
    requires Printed(e, level, src, pos, end, a) && LevelOf(e) == level
    ensures ReadBack(e, level, src, pos, end, a)
    decreases e, 1, 7 - level, 0
  {
    match e
    case Conditional(_, _, _) =>
      RoundTripConditional(e, src, pos, end, a);
    case Binary(op, _, _) =>
      if op == BinaryOp.Power { RoundTripPower(e, src, pos, end, a); } else { RoundTripChain(e, level, src, pos, end, a); }
    case Negate(_) =>
      RoundTripNegate(e, src, pos, end, a);
    case Call(_, _) =>
      RoundTripCall(e, src, pos, end, a);
      PrimaryStarts(e, src, pos, a);
    case _ =>
      RoundTripName(e, src, pos, end, a);
      PrimaryStarts(e, src, pos, a);
  }

  lemma {:induction false} RoundTripParenthesised(e: Expr, level: nat, src: Source, pos: nat, end: nat, a: Arena)
    requires Printed(e, level, src, pos, end, a) && LevelOf(e) < level
    ensures ReadBack(e, level, src, pos, end, a)
    decreases e, 2, 7 - level, 0
  {
    InParentheses(e, level, src, pos, end, a);
    RoundTrip(e, CONDITIONAL, src, pos + 1, end - 1, a);
    Parenthesised(src, pos, a, Got(e, end - 1, Emit(e, a)));
    FromPrimary(src, pos, level, a);
  }

  /** Within its parentheses a tree is shown at the loosest level. */
  lemma ShownWithin(e: Expr, level: nat, src: Source, pos: nat, end: nat)
    requires Shown(e, level, src, pos, end, level) && LevelOf(e) < level
    ensures Shown(e, CONDITIONAL, src, pos + 1, end - 1, CONDITIONAL) && pos < |src| && 0 < end <= |src|
    ensures Peek(src, pos) == '(' && Peek(src, end - 1) == ')'
  {
    ParenthesisWindows(e, level, src, pos);
    assert Print(e, CONDITIONAL) == Bare(e);
    assert Pull(src, end - 1) == 0;
  }

  lemma InParentheses(e: Expr, level: nat, src: Source, pos: nat, end: nat, a: Arena)
    requires Printed(e, level, src, pos, end, a) && LevelOf(e) < level
    ensures Printed(e, CONDITIONAL, src, pos + 1, end - 1, a) && pos < |src| && 0 < end <= |src|
    ensures Peek(src, pos) == '(' && Peek(src, end - 1) == ')'
  {
    ShownWithin(e, level, src, pos, end);
  }

  lemma FromNextLevel(e: Expr, level: nat, src: Source, pos: nat, end: nat, a: Arena)
    requires Printed(e, level, src, pos, end, a) && level < LevelOf(e) && ReadBack(e, level + 1, src, pos, end, a)
    ensures ReadBack(e, level, src, pos, end, a)
  {
    PrintStarts(e, level);
    AtSymbol(src, pos, Bare(e), 0);
    OneLevel(src, pos, level, a);
  }

  lemma TailStops(src: Source, level: nat, left: Parsed)
    requires COMPARE <= level <= MULTIPLY && left.Got? && InRange(left, src, left.pos - 1)
    requires Pull(src, left.pos) <= level
    ensures ParseTail(src, level, left) == left
  {
    Quiet(src, left.pos);
    assert OperatorAt(src, left.pos, level).None?;
  }

  lemma ConditionalParts(e: Expr, src: Source, pos: nat, end: nat, a: Arena) returns (q: nat, k: nat)
    requires e.Conditional? && Printed(e, CONDITIONAL, src, pos, end, a)
    ensures Printed(e.condition, COMPARE, src, pos, q, a) && q < |src| && Peek(src, q) == '?'
    ensures Printed(e.yes, CONDITIONAL, src, q + 1, k, Emit(e.condition, a)) && k < |src| && Peek(src, k) == ':'
    ensures Printed(e.no, CONDITIONAL, src, k + 1, end, Emit(e.yes, Emit(e.condition, a)))
  {
    q, k := ConditionalWindows(e, src, pos, end);
    ConditionalFits(e, a);
  }

  lemma ConditionalFits(e: Expr, a: Arena)
    requires e.Conditional? && WellFormed(e) && Fits(Emit(e, a))
    ensures var b := Emit(e.condition, a);
            var c := Emit(e.yes, b);
            Fits(b) && Fits(c) && Fits(Emit(e.no, c)) && WellFormed(e.condition) && WellFormed(e.yes) && WellFormed(e.no)
  {
  }

  lemma {:induction false} RoundTripConditional(e: Expr, src: Source, pos: nat, end: nat, a: Arena)
    requires e.Conditional? && Printed(e, CONDITIONAL, src, pos, end, a)
    ensures ReadBack(e, CONDITIONAL, src, pos, end, a)
    decreases e, 0
  {
    var q, k := ConditionalParts(e, src, pos, end, a);
    RoundTrip(e.condition, COMPARE, src, pos, q, a);
    RoundTrip(e.yes, CONDITIONAL, src, q + 1, k, Emit(e.condition, a));
    RoundTrip(e.no, CONDITIONAL, src, k + 1, end, Emit(e.yes, Emit(e.condition, a)));
    Chosen(e, src, pos, a, q, k, end);
  }

  lemma PowerParts(e: Expr, src: Source, pos: nat, end: nat, a: Arena) returns (q: nat)
    requires e.Binary? && e.op == BinaryOp.Power && Printed(e, POWER, src, pos, end, a)
    ensures Printed(e.left, UNARY, src, pos, q, a) && q < |src| && Peek(src, q) == '^'
    ensures Printed(e.right, POWER, src, q + 1, end, Emit(e.left, a))
  {
    q := PowerWindows(e, src, pos, end);
  }

  lemma {:induction false} RoundTripPower(e: Expr, src: Source, pos: nat, end: nat, a: Arena)
    requires e.Binary? && e.op == BinaryOp.Power && Printed(e, POWER, src, pos, end, a)
    ensures ReadBack(e, POWER, src, pos, end, a)
    decreases e, 0
  {
    var q := PowerParts(e, src, pos, end, a);
    RoundTrip(e.left, UNARY, src, pos, q, a);
    RoundTrip(e.right, POWER, src, q + 1, end, Emit(e.left, a));
    Raised(e, src, pos, a, q, end);
  }

  lemma {:induction false} RoundTripNegate(e: Expr, src: Source, pos: nat, end: nat, a: Arena)
    requires e.Negate? && Printed(e, UNARY, src, pos, end, a)
    ensures ReadBack(e, UNARY, src, pos, end, a)
    decreases e, 0
  {
    NegateWindows(e, src, pos, end);
    RoundTrip(e.operand, UNARY, src, pos + 1, end, a);
    Negated(e, src, pos, a, end);
  }

  lemma {:induction false} RoundTripChain(e: Expr, level: nat, src: Source, pos: nat, end: nat, a: Arena)
    requires COMPARE <= level <= MULTIPLY && LevelOf(e) == level && Printed(e, level, src, pos, end, a)
    ensures ReadBack(e, level, src, pos, end, a)
    decreases e, 0, 1
  {
    SpineStep(e, level, src, pos, end, a);
    TailStops(src, level, Got(e, end, Emit(e, a)));
  }

  /** A chain printed at its level, of whatever follows only operators of that level binding to it. */
  ghost predicate ChainPrinted(e: Expr, level: nat, src: Source, pos: nat, end: nat, a: Arena) {
    WellFormed(e) && COMPARE <= level <= MULTIPLY && Fits(Emit(e, a)) && Shown(e, level, src, pos, end, level + 1)
  }

  /** Parsing the level from here is reading on from this tree as its left operand. */
  ghost predicate ChainRead(e: Expr, level: nat, src: Source, pos: nat, end: nat, a: Arena) {
    && Fits(a) && Fits(Emit(e, a)) && COMPARE <= level <= MULTIPLY && pos <= |src| && 0 < end <= |src|
    && Parse(src, pos, level, a) == ParseTail(src, level, Got(e, end, Emit(e, a)))
  }

  /** A chain of left-associative operators, read so far, is the left operand of whatever follows it. */
  lemma {:induction false} Spine(e: Expr, level: nat, src: Source, pos: nat, end: nat, a: Arena)
    requires ChainPrinted(e, level, src, pos, end, a)
    ensures ChainRead(e, level, src, pos, end, a)
    decreases e, if LevelOf(e) < level then 2 else 1, 7 - level, 0
  {
    if LevelOf(e) != level {
      RoundTrip(e, level + 1, src, pos, end, a);
    } else {
      SpineStep(e, level, src, pos, end, a);
    }
  }

  lemma SpineParts(e: Expr, level: nat, src: Source, pos: nat, end: nat, a: Arena) returns (q: nat)
    requires ChainPrinted(e, level, src, pos, end, a) && LevelOf(e) == level
    ensures e.Binary? && ChainPrinted(e.left, level, src, pos, q, a) && 0 < q <= |src|
    ensures OperatorAt(src, q, level) == Geometry.Some((e.op, |OperatorText(e.op)|)) && Skip(src, q) == q
    ensures Printed(e.right, level + 1, src, q + |OperatorText(e.op)|, end, Emit(e.left, a))
  {
    q := SpineWindows(e, level, src, pos, end);
  }

  lemma {:induction false} SpineStep(e: Expr, level: nat, src: Source, pos: nat, end: nat, a: Arena)
    requires ChainPrinted(e, level, src, pos, end, a) && LevelOf(e) == level
    ensures ChainRead(e, level, src, pos, end, a)
    decreases e, 0, 0
  {
    var q := SpineParts(e, level, src, pos, end, a);
    Spine(e.left, level, src, pos, q, a);
    RoundTrip(e.right, level + 1, src, q + |OperatorText(e.op)|, end, Emit(e.left, a));
    Extended(e, src, level, a, q, end);
  }

  /** At the innermost level nothing but the primary is read. */
  lemma PrimaryStarts(e: Expr, src: Source, pos: nat, a: Arena)
    requires WellFormed(e) && LevelOf(e) == PRIMARY && At(src, pos, Bare(e)) && Fits(a)
    ensures pos <= |src| && Parse(src, pos, PRIMARY, a) == ParsePrimary(src, pos, a)
  {
    PrintStarts(e, PRIMARY);
    AtSymbol(src, pos, Bare(e), 0);
  }

  lemma RoundTripName(e: Expr, src: Source, pos: nat, end: nat, a: Arena)
    requires (e.Constant? || e.Variable? || e.Component?) && Printed(e, PRIMARY, src, pos, end, a)
    ensures pos <= |src| && Fits(a) && ParsePrimary(src, pos, a) == Got(e, end, Emit(e, a))
  {
    match e
    case Constant(_) =>
      AtSymbol(src, pos, Bare(e), 0);
    case Variable(name) =>
      assert Print(e, PRIMARY) == Bare(e) == Chars(name);
      RoundTripVariable(name, src, pos, end, a);
    case Component(_, _) =>
      RoundTripComponent(e, src, pos, a);
  }

  lemma RoundTripVariable(name: string, src: Source, pos: nat, end: nat, a: Arena)
    requires IsVariable(name) && At(src, pos, Chars(name)) && end == pos + |name| && Pull(src, end) <= PRIMARY
    requires Fits(EmitVariable(name, a))
    ensures pos <= |src| && Fits(a) && ParsePrimary(src, pos, a) == Got(Variable(name), end, EmitVariable(name, a))
  {
    Quiet(src, end);
    Named(src, pos, a, name);
    Entered(name, a);
  }

  lemma {:induction false} RoundTripCall(e: Expr, src: Source, pos: nat, end: nat, a: Arena)
    requires e.Call? && Printed(e, PRIMARY, src, pos, end, a)
    ensures pos <= |src| && Fits(a) && ParsePrimary(src, pos, a) == Got(e, end, Emit(e, a))
    decreases e, 0, 1
  {
    var xs := e.arguments;
    var q := CallWindows(e, src, pos, end);
    assert xs[..0] == [] && xs[0..] == xs;
    RoundTripList(e, 0, src, q + 1, end - 1, a);
    Called(e, src, pos, q, end, a);
  }

  lemma RoundTripComponent(e: Expr, src: Source, pos: nat, a: Arena)
    requires e.Component? && WellFormed(e) && Fits(Emit(e, a)) && At(src, pos, Bare(e))
    ensures ParsePrimary(src, pos, a) == Got(e, pos + |Bare(e)|, Emit(e, a))
  {
    var q := pos + |e.name|;
    AtParts(src, pos, Chars(e.name), Suffix(e.component));
    SuffixStarts(src, q, e.component);
    Named(src, pos, a, e.name);
    Entered(e.name, a);
    ComponentIsRead(e, src, q, EmitVariable(e.name, a));
  }

  lemma SuffixStarts(src: Source, q: nat, k: nat)
    requires At(src, q, Suffix(k))
    ensures q < |src| && (Peek(src, q) == '.' || Peek(src, q) == '[')
  {
    AtSymbol(src, q, Suffix(k), 0);
  }

  lemma ComponentIsRead(e: Expr, src: Source, q: nat, b: Arena)
    requires e.Component? && e.component < MAX_COMPONENTS && |b.nodes| < MAX_NODES && Fits(b)
    requires At(src, q, Suffix(e.component)) && q < |src| && (Peek(src, q) == '.' || Peek(src, q) == '[')
    ensures ParseComponent(src, e.name, q, b)
         == Got(e, q + |Suffix(e.component)|, b.(nodes := b.nodes + [ComponentNode(|b.nodes| - 1, e.component)]))
  {
    var suffix := Suffix(e.component);
    AtSymbol(src, q, suffix, 0);
    AtSymbol(src, q, suffix, 1);
    if e.component >= 4 {
      AtSymbol(src, q, suffix, 2);
      assert Skip(src, q + 1) == q + 1 && Skip(src, q + 2) == q + 2;
    }
  }

  /** The arguments from the i-th on stand here, and the earlier ones are in the arena. */
  ghost predicate ListPrinted(e: Expr, i: nat, src: Source, pos: nat, end: nat, a: Arena) {
    && e.Call? && WellFormed(e) && Fits(Emit(e, a)) && i < |e.arguments|
    && At(src, pos, PrintList(e.arguments[i..])) && end == pos + |PrintList(e.arguments[i..])|
    && Peek(src, end) == ')'
  }

  /** From here the parser reads the remaining arguments and comes to the whole list. */
  ghost predicate ListRead(e: Expr, i: nat, src: Source, pos: nat, end: nat, a: Arena) {
    && e.Call? && |e.arguments| <= 4 && i <= |e.arguments| && pos <= |src| && Fits(EmitAll(e.arguments[..i], a).0)
    && ParseArguments(src, pos, e.arguments[..i], EmitAll(e.arguments[..i], a).0, EmitAll(e.arguments[..i], a).1)
       == Arguments(e.arguments, end, EmitAll(e.arguments, a).0, EmitAll(e.arguments, a).1)
  }

  /** The next argument: where it stands, and what reading it adds to the arena. */
  lemma ListParts(e: Expr, i: nat, src: Source, pos: nat, end: nat, a: Arena) returns (k: nat)
    requires ListPrinted(e, i, src, pos, end, a)
    ensures var b := EmitAll(e.arguments[..i], a).0;
            Printed(e.arguments[i], CONDITIONAL, src, pos, k, b) && pos <= |src| && Fits(b)
    ensures if i + 1 == |e.arguments| then k == end
            else Peek(src, k) == ',' && ListPrinted(e, i + 1, src, k + 1, end, a)
  {
    var xs := e.arguments;
    EmitNext(xs, i, a);
    EmitAllGrows(xs, i + 1, a);
    assert xs[i..][0] == xs[i] && xs[i..][1..] == xs[i + 1..];
    k := end;
    if i + 1 < |xs| {
      ListWindows(xs[i..], src, pos);
      k := pos + |Print(xs[i], CONDITIONAL)|;
    }
  }

  lemma EmitNext(xs: seq<Expr>, i: nat, a: Arena)
    requires i < |xs|
    ensures var (b, children) := EmitAll(xs[..i], a);
            var c := Emit(xs[i], b);
            EmitAll(xs[..i + 1], a) == (c, children + [|c.nodes| - 1])
  {
    assert xs[..i + 1] == xs[..i] + [xs[i]];
    AppendEmit(xs[..i], xs[i], a);
  }

  lemma ListStep(e: Expr, i: nat, src: Source, pos: nat, k: nat, end: nat, a: Arena)
    requires e.Call? && WellFormed(e) && i < |e.arguments| && Fits(EmitAll(e.arguments[..i], a).0)
    requires ReadBack(e.arguments[i], CONDITIONAL, src, pos, k, EmitAll(e.arguments[..i], a).0)
    requires if i + 1 == |e.arguments| then k == end && Peek(src, end) == ')'
             else Peek(src, k) == ',' && ListRead(e, i + 1, src, k + 1, end, a)
    ensures ListRead(e, i, src, pos, end, a)
  {
    var xs := e.arguments;
    EmitNext(xs, i, a);
    assert xs[..i] + [xs[i]] == xs[..i + 1];
    assert Skip(src, k) == k;
    if i + 1 == |xs| { assert xs[..i + 1] == xs; }
  }

  /** The arguments from the i-th on, once the earlier ones have been read. */
  lemma {:induction false} RoundTripList(e: Expr, i: nat, src: Source, pos: nat, end: nat, a: Arena)
    requires ListPrinted(e, i, src, pos, end, a)
    ensures ListRead(e, i, src, pos, end, a)
    decreases e, 0, 0, |e.arguments| - i
  {
    var k := ListParts(e, i, src, pos, end, a);
    RoundTrip(e.arguments[i], CONDITIONAL, src, pos, k, EmitAll(e.arguments[..i], a).0);
    if i + 1 < |e.arguments| { RoundTripList(e, i + 1, src, k + 1, end, a); }
    ListStep(e, i, src, pos, k, end, a);
  }

  lemma {:induction false} EmitAllGrows(es: seq<Expr>, i: nat, a: Arena)
    requires i <= |es|
    ensures EmitAll(es[..i], a).0.nodes <= EmitAll(es, a).0.nodes
    ensures EmitAll(es[..i], a).0.names <= EmitAll(es, a).0.names
    decreases |es|
  {
    if i == |es| {
      assert es[..i] == es;
    } else {
      assert es[..|es| - 1][..i] == es[..i];
      EmitAllGrows(es[..|es| - 1], i, a);
    }
  }

  // ----- Every parenthesis is needed ------------------------------------------------------------

  /** Parsing at this level fails, or stops no later than a position. */
  ghost predicate StopsBy(src: Source, pos: nat, level: nat, a: Arena, end: nat) {
    pos <= |src| && level <= PRIMARY && Fits(a) &&
      match Parse(src, pos, level, a) case Got(_, p, _) => p <= end case Fail(_) => true
  }

  /** A left operand printed at its level `own` is all that a level no looser reads from its start. */
  lemma {:induction false} LeftStops(e: Expr, own: nat, level: nat, src: Source, pos: nat, end: nat, a: Arena)
    requires WellFormed(e) && own <= level <= PRIMARY && Fits(Emit(e, a)) && Shown(e, own, src, pos, end, level)
    ensures StopsBy(src, pos, level, a, end)
    decreases e, 1
  {
    if own <= LevelOf(e) < level {
      NeedsParentheses(e, level, src, pos, end, a);
    } else {
      RoundTrip(e, level, src, pos, end, a);
    }
  }

  /**
   * A tree whose printed form has been stripped of its parentheses is not read back: where the parenthesised form is
   * printed, parsing the bare one at that level fails or stops short of its end.
   */
  lemma {:induction false} NeedsParentheses(e: Expr, level: nat, src: Source, pos: nat, end: nat, a: Arena)
    requires WellFormed(e) && LevelOf(e) < level <= PRIMARY && Fits(Emit(e, a))
    requires At(src, pos, Bare(e)) && end == pos + |Bare(e)|
    ensures end > 0 && StopsBy(src, pos, level, a, end - 1)
    decreases e, 0
  {
    match e
    case Conditional(x, _, _) =>
      var q := BareCondition(e, src, pos, end, a);
      LeftStops(x, COMPARE, level, src, pos, q, a);
    case Binary(op, l, _) =>
      var q := BareLeft(e, src, pos, end, a);
      LeftStops(l, if op == BinaryOp.Power then UNARY else OperatorLevel(op), level, src, pos, q, a);
    case Negate(_) =>
      PrintStarts(e, UNARY);
      AtSymbol(src, pos, Bare(e), 0);
      assert Bare(e)[0] == Ch('-') && Skip(src, pos) == pos;
      assert Parse(src, pos, PRIMARY, a) == ParsePrimary(src, pos, a);
  }

  lemma BareCondition(e: Expr, src: Source, pos: nat, end: nat, a: Arena) returns (q: nat)
    requires e.Conditional? && WellFormed(e) && Fits(Emit(e, a)) && At(src, pos, Bare(e)) && end == pos + |Bare(e)|
    ensures WellFormed(e.condition) && Fits(Emit(e.condition, a)) && q < end
    ensures Shown(e.condition, COMPARE, src, pos, q, COMPARE)
  {
    var x := Print(e.condition, COMPARE);
    var rest := Print(e.yes, CONDITIONAL) + (Chars(":") + Print(e.no, CONDITIONAL));
    q := pos + |x|;
    ConditionalFits(e, a);
    AtParts(src, pos, x, Chars("?") + rest);
    AtParts(src, q, Chars("?"), rest);
    AtSymbol(src, q, Chars("?"), 0);
  }

  lemma BareLeft(e: Expr, src: Source, pos: nat, end: nat, a: Arena) returns (q: nat)
    requires e.Binary? && WellFormed(e) && Fits(Emit(e, a)) && At(src, pos, Bare(e)) && end == pos + |Bare(e)|
    ensures WellFormed(e.left) && Fits(Emit(e.left, a)) && q < end
    ensures var own := if e.op == BinaryOp.Power then UNARY else OperatorLevel(e.op);
            Shown(e.left, own, src, pos, q, LevelOf(e) + 1)
  {
    if e.op == BinaryOp.Power {
      q := BinaryWindows(e, src, pos, end, UNARY, POWER);
      AtSymbol(src, q, Chars("^"), 0);
    } else {
      var own := OperatorLevel(e.op);
      q := BinaryWindows(e, src, pos, end, own, own + 1);
      PrintStarts(e.right, own + 1);
      AtSymbol(src, q + |OperatorText(e.op)|, Print(e.right, own + 1), 0);
      OperatorIsRead(src, q, e.op);
    }
  }

  // ----- Whole sources --------------------------------------------------------------------------

  const EMPTY := Arena([], [])

  /** Compiling what a tree prints as gives exactly that tree's nodes, the root last. */
  lemma CompilePrinted(e: Expr, length: nat)
    requires WellFormed(e) && Fits(Emit(e, EMPTY)) && length <= ExpressionParser.MAX_LENGTH
    ensures ExpressionParser.CompiledSource(Print(e, CONDITIONAL), length)
         == ExpressionParser.Ok(Emit(e, EMPTY), |Emit(e, EMPTY).nodes| - 1)
  {
    var src := Print(e, CONDITIONAL);
    PrintStarts(e, CONDITIONAL);
    assert Printed(e, CONDITIONAL, src, 0, |src|, EMPTY);
    RoundTrip(e, CONDITIONAL, src, 0, |src|, EMPTY);
  }

  /** Every source that compiles means one well-formed tree; printing that tree compiles to the same nodes. */
  lemma CompiledIsPrintable(src: Source, length: nat) returns (e: Expr)
    requires ExpressionParser.CompiledSource(src, length).Ok?
    ensures WellFormed(e) && ExpressionParser.CompiledSource(src, length).arena == Emit(e, EMPTY)
    ensures ExpressionParser.CompiledSource(Print(e, CONDITIONAL), length)
         == ExpressionParser.CompiledSource(src, length)
  {
    ParseIsSound(src, 0, CONDITIONAL, EMPTY);
    e := Parse(src, 0, CONDITIONAL, EMPTY).expr;
    CompilePrinted(e, length);
  }

  /** Different trees print differently. */
  lemma PrintIsInjective(d: Expr, e: Expr)
    requires WellFormed(d) && Fits(Emit(d, EMPTY)) && WellFormed(e) && Fits(Emit(e, EMPTY))
    requires Print(d, CONDITIONAL) == Print(e, CONDITIONAL)
    ensures d == e
  {
    var src := Print(e, CONDITIONAL);
    assert Printed(d, CONDITIONAL, src, 0, |src|, EMPTY) && Printed(e, CONDITIONAL, src, 0, |src|, EMPTY);
    RoundTrip(d, CONDITIONAL, src, 0, |src|, EMPTY);
    RoundTrip(e, CONDITIONAL, src, 0, |src|, EMPTY);
  }
}
