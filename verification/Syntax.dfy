/**
 Tokens and expression trees, and the unparser's token sequence for a tree
 (src/classad/sink.cpp). Parentheses are nodes of the tree.
 */
module Syntax {
  import opened Options

  datatype Factor = NoFactor | BFactor | KFactor | MFactor | GFactor | TFactor

  datatype Constant =
    | UndefinedConstant
    | ErrorConstant
    | BooleanConstant(b: bool)
    | IntegerConstant(i: int, ifactor: Factor)
    | RealConstant(r: real, rfactor: Factor)
    | StringConstant(s: string)
    | TimeConstant(time: Time)

  datatype Time = AbsoluteTime(secs: int, offset: int) | RelativeTime(rsecs: real)

  /** How time values and text are converted, each in one direction: `text` is
      absTimeToString and relTimeToString, `absolute` and `relative` are the string forms of
      MakeAbsTime and MakeRelTime, with None for a string that they reject. */
  datatype TimeFormat = TimeFormat(text: Time -> string,
                                   absolute: string -> Option<(int, int)>,
                                   relative: string -> Option<real>)

  datatype UnaryOperator = Minus | Plus | BitwiseComplement | Not

  datatype BinaryOperator =
    | Or | And | InclusiveOr | ExclusiveOr | BitAnd
    | Eq | NotEq | Is | Isnt
    | Less | Greater | LessEq | GreaterEq
    | LeftShift | RightShift | UnsignedRightShift
    | Add | Subtract
    | Multiply | Divide | Modulo

  datatype Tree =
    | Literal(constant: Constant)
    | Attribute(name: string, absolute: bool)
    | Selection(scope: Tree, name: string)
    | Parenthesized(inner: Tree)
    | FunctionCall(name: string, args: seq<Tree>)
    | ExprList(elements: seq<Tree>)
    | Subscript(base: Tree, index: Tree)
    | Unary(uop: UnaryOperator, operand: Tree)
    | Binary(op: BinaryOperator, left: Tree, right: Tree)
    | Conditional(selector: Tree, ifTrue: Tree, ifFalse: Tree)

  /** PLUS and MINUS serve as unary and as binary operators. */
  datatype Token =
    | IdentifierToken(name: string)
    | ConstantToken(constant: Constant)
    | BinaryToken(op: BinaryOperator)
    | ComplementToken
    | NotToken
    | QMark | Colon | OpenParen | CloseParen | OpenBox | CloseBox | OpenBrace | CloseBrace | Comma | Dot

  function UnaryToken(op: UnaryOperator): Token
  {
    match op
    case Minus => BinaryToken(Subtract)
    case Plus => BinaryToken(Add)
    case BitwiseComplement => ComplementToken
    case Not => NotToken
  }

  /** Operation::PrecedenceLevel for the binary operators. */
  function Precedence(op: BinaryOperator): (level: nat)
    ensures 1 <= level <= 10
  {
    match op
    case Or => 1
    case And => 2
    case InclusiveOr => 3
    case ExclusiveOr => 4
    case BitAnd => 5
    case Eq | NotEq | Is | Isnt => 6
    case Less | Greater | LessEq | GreaterEq => 7
    case LeftShift | RightShift | UnsignedRightShift => 8
    case Add | Subtract => 9
    case Multiply | Divide | Modulo => 10
  }

  const UNARY: nat := 11
  const POSTFIX: nat := 12
  const PRIMARY: nat := 13

  /** The grammar level of a tree: 0 for the conditional, then the binary levels, then unary,
      postfix and primary expressions. */
  function Level(t: Tree): (level: nat)
    ensures level <= PRIMARY
  {
    match t
    case Conditional(_, _, _) => 0
    case Binary(op, _, _) => Precedence(op)
    case Unary(_, _) => UNARY
    case Subscript(_, _) | Selection(_, _) => POSTFIX
    case _ => PRIMARY
  }

  /** The trees that the grammar can build: operands at the level their position asks for. */
  predicate Grammatical(t: Tree)
  {
    match t
    case Literal(_) | Attribute(_, _) => true
    case Selection(scope, _) => Grammatical(scope) && Level(scope) >= POSTFIX
    case Parenthesized(inner) => Grammatical(inner)
    case FunctionCall(_, args) => forall i :: 0 <= i < |args| ==> Grammatical(args[i])
    case ExprList(elements) => forall i :: 0 <= i < |elements| ==> Grammatical(elements[i])
    case Subscript(base, index) => Grammatical(base) && Level(base) >= POSTFIX && Grammatical(index)
    case Unary(_, operand) => Grammatical(operand) && Level(operand) >= UNARY
    case Binary(op, left, right) =>
      && Grammatical(left) && Level(left) >= Precedence(op)
      && Grammatical(right) && Level(right) > Precedence(op)
    case Conditional(selector, ifTrue, ifFalse) =>
      Grammatical(selector) && Level(selector) >= 1 && Grammatical(ifTrue) && Grammatical(ifFalse)
  }

  /** The tokens that the unparser writes for a tree. */
  function Tokens(t: Tree): (tokens: seq<Token>)
    ensures tokens != []
    decreases t, 0
  {
    match t
    case Literal(c) => [ConstantToken(c)]
    case Attribute(name, absolute) => (if absolute then [Dot] else []) + [IdentifierToken(name)]
    case Selection(scope, name) => Tokens(scope) + [Dot, IdentifierToken(name)]
    case Parenthesized(inner) => [OpenParen] + Tokens(inner) + [CloseParen]
    case FunctionCall(name, args) => [IdentifierToken(name), OpenParen] + ListTokens(args, CloseParen)
    case ExprList(elements) => [OpenBrace] + ListTokens(elements, CloseBrace)
    case Subscript(base, index) => Tokens(base) + [OpenBox] + Tokens(index) + [CloseBox]
    case Unary(op, operand) => [UnaryToken(op)] + Tokens(operand)
    case Binary(op, left, right) => Tokens(left) + [BinaryToken(op)] + Tokens(right)
    case Conditional(selector, ifTrue, ifFalse) =>
      Tokens(selector) + [QMark] + Tokens(ifTrue) + [Colon] + Tokens(ifFalse)
  }

  /** A comma-separated list and its closing token. */
  function ListTokens(ts: seq<Tree>, close: Token): (tokens: seq<Token>)
    ensures tokens != []
    decreases ts, 1
  {
    if ts == [] then [close]
    else if |ts| == 1 then Tokens(ts[0]) + [close]
    else Tokens(ts[0]) + [Comma] + ListTokens(ts[1..], close)
  }

  // ---------- time values and the calls that stand for them ----------

  function LowerCase(c: char): char
  {
    if 'A' <= c <= 'Z' then c + 32 as char else c
  }

  /** Equality of names without regard to the case of letters. */
  predicate SameName(a: string, b: string)
  {
    |a| == |b| && forall i :: 0 <= i < |a| ==> LowerCase(a[i]) == LowerCase(b[i])
  }

  const SMALL: string := "abcdefghijklmnopqrstuvwxyz"
  const CAPITAL: string := "ABCDEFGHIJKLMNOPQRSTUVWXYZ"

  /** The i-th letter in either case. */
  predicate IsLetter(c: char, i: nat)
  {
    i < 26 && (c == SMALL[i] || c == CAPITAL[i])
  }

  /** One character of a name matches another: the same one, or the same letter in the other case. */
  ghost predicate SameLetter(a: char, b: char)
  {
    a == b || exists i :: IsLetter(a, i) && IsLetter(b, i)
  }

  lemma LowerCaseOf(c: char, i: nat)
    requires i < 26
    ensures IsLetter(c, i) <==> LowerCase(c) == SMALL[i]
    ensures SMALL[i] as int == 'a' as int + i
  {
  }

  lemma LowerCaseIff(a: char, b: char)
    ensures LowerCase(a) == LowerCase(b) <==> SameLetter(a, b)
  {
    if SameLetter(a, b) && a != b {
      var i :| IsLetter(a, i) && IsLetter(b, i);
      LowerCaseOf(a, i);
      LowerCaseOf(b, i);
    }
    if LowerCase(a) == LowerCase(b) && a != b {
      var i := LowerCase(a) as int - 'a' as int;
      LowerCaseOf(a, i);
      LowerCaseOf(b, i);
    }
  }

  /** Names are the same if they match character by character. */
  lemma SameNameIff(a: string, b: string)
    ensures SameName(a, b) <==> |a| == |b| && forall i :: 0 <= i < |a| ==> SameLetter(a[i], b[i])
  {
    forall i | 0 <= i < |a| && |a| == |b| ensures LowerCase(a[i]) == LowerCase(b[i]) <==> SameLetter(a[i], b[i]) {
      LowerCaseIff(a[i], b[i]);
    }
  }

  const ABS_TIME: string := "absTime"
  const REL_TIME: string := "relTime"

  /** The calls that the parser turns into a literal: absTime and relTime of one string
      literal. */
  predicate IsTimeCall(name: string, args: seq<Tree>)
  {
    && (SameName(name, ABS_TIME) || SameName(name, REL_TIME))
    && |args| == 1 && args[0].Literal? && args[0].constant.StringConstant?
  }

  /** The value of such a call, which is error if the string is rejected. */
  function TimeFromString(f: TimeFormat, name: string, s: string): Constant
  {
    if SameName(name, ABS_TIME) then
      match f.absolute(s)
      case None => ErrorConstant
      case Some(p) => TimeConstant(AbsoluteTime(p.0, p.1))
    else
      match f.relative(s)
      case None => ErrorConstant
      case Some(secs) => TimeConstant(RelativeTime(secs))
  }

  function CallOrTime(f: TimeFormat, name: string, args: seq<Tree>): Tree
  {
    if IsTimeCall(name, args) then Literal(TimeFromString(f, name, args[0].constant.s))
    else FunctionCall(name, args)
  }

  /** The call that the unparser writes for a time value. */
  function TimeCall(f: TimeFormat, t: Time): Tree
  {
    FunctionCall(if t.AbsoluteTime? then ABS_TIME else REL_TIME, [Literal(StringConstant(f.text(t)))])
  }

  /** The tree whose tokens the unparser writes: time values are spelled as calls. */
  function Spelled(f: TimeFormat, t: Tree): (r: Tree)
    ensures Level(r) == Level(t)
  {
    match t
    case Literal(TimeConstant(time)) => TimeCall(f, time)
    case Literal(_) | Attribute(_, _) => t
    case Selection(scope, name) => Selection(Spelled(f, scope), name)
    case Parenthesized(inner) => Parenthesized(Spelled(f, inner))
    case FunctionCall(name, args) => FunctionCall(name, SpelledAll(f, args))
    case ExprList(elements) => ExprList(SpelledAll(f, elements))
    case Subscript(base, index) => Subscript(Spelled(f, base), Spelled(f, index))
    case Unary(op, operand) => Unary(op, Spelled(f, operand))
    case Binary(op, left, right) => Binary(op, Spelled(f, left), Spelled(f, right))
    case Conditional(selector, ifTrue, ifFalse) =>
      Conditional(Spelled(f, selector), Spelled(f, ifTrue), Spelled(f, ifFalse))
  }

  function SpelledAll(f: TimeFormat, ts: seq<Tree>): (r: seq<Tree>)
    ensures |r| == |ts| && forall i :: 0 <= i < |ts| ==> r[i] == Spelled(f, ts[i])
  {
    if ts == [] then [] else [Spelled(f, ts[0])] + SpelledAll(f, ts[1..])
  }

  /** The tree that the parser builds from what is written as `t`: it turns time calls into
      values as it meets them. */
  function Folded(f: TimeFormat, t: Tree): (r: Tree)
    ensures Level(r) == Level(t)
  {
    match t
    case Literal(_) | Attribute(_, _) => t
    case Selection(scope, name) => Selection(Folded(f, scope), name)
    case Parenthesized(inner) => Parenthesized(Folded(f, inner))
    case FunctionCall(name, args) => CallOrTime(f, name, FoldedAll(f, args))
    case ExprList(elements) => ExprList(FoldedAll(f, elements))
    case Subscript(base, index) => Subscript(Folded(f, base), Folded(f, index))
    case Unary(op, operand) => Unary(op, Folded(f, operand))
    case Binary(op, left, right) => Binary(op, Folded(f, left), Folded(f, right))
    case Conditional(selector, ifTrue, ifFalse) =>
      Conditional(Folded(f, selector), Folded(f, ifTrue), Folded(f, ifFalse))
  }

  function FoldedAll(f: TimeFormat, ts: seq<Tree>): (r: seq<Tree>)
    ensures |r| == |ts| && forall i :: 0 <= i < |ts| ==> r[i] == Folded(f, ts[i])
  {
    if ts == [] then [] else [Folded(f, ts[0])] + FoldedAll(f, ts[1..])
  }

  lemma AppendedFive(s: seq<Token>, a: seq<Token>, b: seq<Token>, c: seq<Token>, d: seq<Token>, e: seq<Token>)
    ensures s + a + b + c + d + e == s + (a + b + c + d + e)
    ensures s + a + b + c + d == s + (a + b + c + d)
    ensures s + a + b + c == s + (a + b + c)
  {
  }

  /** What the unparser writes for a tree. */
  function Printed(f: TimeFormat, t: Tree): seq<Token>
  {
    Tokens(Spelled(f, t))
  }

  /** What the unparser writes for a list of trees and its closing token. */
  ghost function PrintedList(f: TimeFormat, ts: seq<Tree>, close: Token): seq<Token>
  {
    ListTokens(SpelledAll(f, ts), close)
  }

  lemma PrintedTime(f: TimeFormat, t: Time)
    ensures Printed(f, Literal(TimeConstant(t))) ==
      [IdentifierToken(if t.AbsoluteTime? then ABS_TIME else REL_TIME), OpenParen] +
      [ConstantToken(StringConstant(f.text(t))), CloseParen]
  {
    var arg := Literal(StringConstant(f.text(t)));
    assert [arg][0] == arg;
    assert ListTokens([arg], CloseParen) == Tokens(arg) + [CloseParen];
  }

  lemma PrintedItem(f: TimeFormat, ts: seq<Tree>, i: nat, close: Token)
    requires i < |ts|
    ensures PrintedList(f, ts[i..], close) ==
      Printed(f, ts[i]) + (if i + 1 < |ts| then [Comma] else []) +
      (if i + 1 < |ts| then PrintedList(f, ts[i + 1..], close) else [close])
  {
    assert ts[i..][0] == ts[i] && ts[i..][1..] == ts[i + 1..];
  }

  /** The unparser appends to a shared buffer, here of tokens. */
  class ClassAdUnParser {
    const f: TimeFormat
    var buffer: seq<Token>

    constructor (f: TimeFormat)
      ensures buffer == [] && this.f == f
    {
      buffer := [];
      this.f := f;
    }

    method Unparse(t: Tree)
      modifies this
      ensures buffer == old(buffer) + Printed(f, t)
      decreases t, 1
    {
      match t
      case Literal(TimeConstant(time)) =>
        buffer := buffer + [IdentifierToken(if time.AbsoluteTime? then ABS_TIME else REL_TIME), OpenParen];
        buffer := buffer + [ConstantToken(StringConstant(f.text(time))), CloseParen];
        PrintedTime(f, time);
      case Literal(c) =>
        buffer := buffer + [ConstantToken(c)];
      case Attribute(name, absolute) =>
        if absolute {
          buffer := buffer + [Dot];
        }
        buffer := buffer + [IdentifierToken(name)];
      case Selection(scope, name) =>
        Unparse(scope);
        buffer := buffer + [Dot, IdentifierToken(name)];
      case FunctionCall(name, args) =>
        buffer := buffer + [IdentifierToken(name), OpenParen];
        UnparseList(args, CloseParen);
      case ExprList(elements) =>
        buffer := buffer + [OpenBrace];
        UnparseList(elements, CloseBrace);
      case _ =>
        UnparseOperation(t);
    }

    method UnparseOperation(t: Tree)
      requires t.Parenthesized? || t.Subscript? || t.Unary? || t.Binary? || t.Conditional?
      modifies this
      ensures buffer == old(buffer) + Printed(f, t)
      decreases t, 0
    {
      match t
      case Parenthesized(inner) =>
        buffer := buffer + [OpenParen];
        Unparse(inner);
        buffer := buffer + [CloseParen];
      case Unary(op, operand) =>
        buffer := buffer + [UnaryToken(op)];
        Unparse(operand);
      case Conditional(selector, ifTrue, ifFalse) =>
        Unparse(selector);
        buffer := buffer + [QMark];
        Unparse(ifTrue);
        buffer := buffer + [Colon];
        Unparse(ifFalse);
        AppendedFive(old(buffer), Printed(f, selector), [QMark], Printed(f, ifTrue), [Colon], Printed(f, ifFalse));
      case Subscript(base, index) =>
        Unparse(base);
        buffer := buffer + [OpenBox];
        Unparse(index);
        buffer := buffer + [CloseBox];
        AppendedFive(old(buffer), Printed(f, base), [OpenBox], Printed(f, index), [CloseBox], []);
      case Binary(op, left, right) =>
        Unparse(left);
        buffer := buffer + [BinaryToken(op)];
        Unparse(right);
        AppendedFive(old(buffer), Printed(f, left), [BinaryToken(op)], Printed(f, right), [], []);
    }

    method UnparseList(ts: seq<Tree>, close: Token)
      modifies this
      ensures buffer == old(buffer) + PrintedList(f, ts, close)
      decreases ts, 2
    {
      ghost var due, left := PrintedList(f, ts, close), PrintedList(f, ts, close);
      for i := 0 to |ts|
        invariant buffer + left == old(buffer) + due
        invariant left == if i < |ts| || i == 0 then PrintedList(f, ts[i..], close) else [close]
      {
        PrintedItem(f, ts, i, close);
        ghost var before, comma := buffer, if i + 1 < |ts| then [Comma] else [];
        Unparse(ts[i]);
        if i + 1 != |ts| {
          buffer := buffer + [Comma];
        }
        left := if i + 1 < |ts| then PrintedList(f, ts[i + 1..], close) else [close];
        AppendedFive(before, Printed(f, ts[i]), comma, left, [], []);
      }
      buffer := buffer + [close];
    }
  }
}
