/**
 The recursive-descent expression parser (src/classad/source.cpp): one function per
 precedence level, each growing a left-associated tree in a loop. `Parse...` functions say
 which tree a token sequence writes and what is left; `Parsed` turns the time calls in it into
 values. Class `ClassAdParser` holds the token input that the parser's methods consume, and
 builds that tree in one pass.
 */
module Parser {
  import opened Options
  import opened Syntax

  datatype Result = Failure | Success(tree: Tree, rest: seq<Token>)

  datatype ListResult = ListFailure | ListSuccess(trees: seq<Tree>, rest: seq<Token>)

  predicate OperatorAt(level: nat, tokens: seq<Token>)
  {
    tokens != [] && tokens[0].BinaryToken? && Precedence(tokens[0].op) == level
  }

  function UnaryOperatorOf(t: Token): Option<UnaryOperator>
  {
    match t
    case BinaryToken(Subtract) => Some(Minus)
    case BinaryToken(Add) => Some(Plus)
    case ComplementToken => Some(BitwiseComplement)
    case NotToken => Some(Not)
    case _ => None
  }

  predicate NextIs(tokens: seq<Token>, t: Token)
  {
    tokens != [] && tokens[0] == t
  }

  function ParseExpression(tokens: seq<Token>): (r: Result)
    ensures r.Success? ==> |r.rest| < |tokens|
    decreases |tokens|, 14, 1
  {
    var s := ParseBinary(1, tokens);
    if s.Failure? || !NextIs(s.rest, QMark) then s
    else
      var m := ParseExpression(s.rest[1..]);
      if m.Failure? || !NextIs(m.rest, Colon) then Failure
      else
        var e := ParseExpression(m.rest[1..]);
        if e.Failure? then Failure else Success(Conditional(s.tree, m.tree, e.tree), e.rest)
  }

  /** The binary levels 1 to 10; level 11 is the unary expression. */
  function ParseBinary(level: nat, tokens: seq<Token>): (r: Result)
    requires 1 <= level <= UNARY
    ensures r.Success? ==> |r.rest| < |tokens|
    decreases |tokens|, UNARY + 1 - level, 1
  {
    if level == UNARY then ParseUnary(tokens)
    else
      var first := ParseBinary(level + 1, tokens);
      if first.Failure? then Failure else ContinueBinary(level, first.tree, first.rest)
  }

  /** The loop of a binary level, entered with the tree so far. */
  function ContinueBinary(level: nat, tree: Tree, tokens: seq<Token>): (r: Result)
    requires 1 <= level < UNARY
    ensures r.Success? ==> |r.rest| <= |tokens|
    decreases |tokens|, UNARY + 1 - level, 0
  {
    if !OperatorAt(level, tokens) then Success(tree, tokens)
    else
      var right := ParseBinary(level + 1, tokens[1..]);
      if right.Failure? then Failure
      else ContinueBinary(level, Binary(tokens[0].op, tree, right.tree), right.rest)
  }

  function ParseUnary(tokens: seq<Token>): (r: Result)
    ensures r.Success? ==> |r.rest| < |tokens|
    decreases |tokens|, 0, 3
  {
    if tokens == [] then Failure
    else
      var op := UnaryOperatorOf(tokens[0]);
      if op.None? then ParsePostfix(tokens)
      else
        var operand := ParseUnary(tokens[1..]);
        if operand.Failure? then Failure else Success(Unary(op.value, operand.tree), operand.rest)
  }

  function ParsePostfix(tokens: seq<Token>): (r: Result)
    ensures r.Success? ==> |r.rest| < |tokens|
    decreases |tokens|, 0, 2
  {
    var first := ParsePrimary(tokens);
    if first.Failure? then Failure else ContinuePostfix(first.tree, first.rest)
  }

  function ContinuePostfix(tree: Tree, tokens: seq<Token>): (r: Result)
    ensures r.Success? ==> |r.rest| <= |tokens|
    decreases |tokens|, 0, 0
  {
    if NextIs(tokens, OpenBox) then
      var index := ParseExpression(tokens[1..]);
      if index.Failure? || !NextIs(index.rest, CloseBox) then Failure
      else ContinuePostfix(Subscript(tree, index.tree), index.rest[1..])
    else if NextIs(tokens, Dot) then
      if |tokens| < 2 || !tokens[1].IdentifierToken? then Failure
      else ContinuePostfix(Selection(tree, tokens[1].name), tokens[2..])
    else Success(tree, tokens)
  }

  function ParsePrimary(tokens: seq<Token>): (r: Result)
    ensures r.Success? ==> |r.rest| < |tokens|
    decreases |tokens|, 0, 1
  {
    if tokens == [] then Failure
    else
      match tokens[0]
      case IdentifierToken(name) =>
        if NextIs(tokens[1..], OpenParen) then
          var args := ParseList(CloseParen, tokens[2..]);
          if args.ListFailure? then Failure else Success(FunctionCall(name, args.trees), args.rest)
        else Success(Attribute(name, false), tokens[1..])
      case Dot =>
        if |tokens| < 2 || !tokens[1].IdentifierToken? then Failure
        else Success(Attribute(tokens[1].name, true), tokens[2..])
      case OpenParen =>
        var inner := ParseExpression(tokens[1..]);
        if inner.Failure? || !NextIs(inner.rest, CloseParen) then Failure
        else Success(Parenthesized(inner.tree), inner.rest[1..])
      case OpenBrace =>
        var elements := ParseList(CloseBrace, tokens[1..]);
        if elements.ListFailure? then Failure else Success(ExprList(elements.trees), elements.rest)
      case ConstantToken(c) => Success(Literal(c), tokens[1..])
      case _ => Failure
  }

  /** Argument lists and expression lists after their opening token; a comma must be followed
      by another expression. */
  function ParseList(close: Token, tokens: seq<Token>): (r: ListResult)
    ensures r.ListSuccess? ==> |r.rest| < |tokens|
    decreases |tokens|, 14, 3
  {
    if NextIs(tokens, close) then ListSuccess([], tokens[1..]) else ParseItems(close, [], tokens)
  }

  /** The loop over the items, entered with the items so far and an item due. */
  function ParseItems(close: Token, items: seq<Tree>, tokens: seq<Token>): (r: ListResult)
    ensures r.ListSuccess? ==> |r.rest| < |tokens|
    decreases |tokens|, 14, 2
  {
    var item := ParseExpression(tokens);
    if item.Failure? then ListFailure
    else if NextIs(item.rest, Comma) then ParseItems(close, items + [item.tree], item.rest[1..])
    else if NextIs(item.rest, close) then ListSuccess(items + [item.tree], item.rest[1..])
    else ListFailure
  }

  // ---------- parsing what was printed ----------

  /** Whether a token could continue an expression that ends at the given level. */
  predicate CanExtend(level: nat, t: Token)
  {
    || (t == QMark && level == 0)
    || (t.BinaryToken? && Precedence(t.op) >= level)
    || t == OpenBox || t == Dot || t == OpenParen
  }

  predicate Ends(level: nat, rest: seq<Token>)
  {
    rest == [] || !CanExtend(level, rest[0])
  }

  /** Parsing at a level: 0 is the full expression, 12 and 13 are read by the unary level's
      helpers. */
  function ParseLevel(level: nat, tokens: seq<Token>): Result
    requires level <= PRIMARY
  {
    if level == 0 then ParseExpression(tokens)
    else if level <= UNARY then ParseBinary(level, tokens)
    else if level == POSTFIX then ParsePostfix(tokens)
    else ParsePrimary(tokens)
  }

  /** The first printed token starts an expression; only unary trees and what contains them
      at the left edge start with an operator. */
  lemma {:induction false} FirstToken(t: Tree)
    requires Grammatical(t)
    ensures Tokens(t)[0] != CloseParen && Tokens(t)[0] != CloseBrace
    ensures Level(t) >= POSTFIX ==> UnaryOperatorOf(Tokens(t)[0]).None?
  {
    match t
    case Selection(scope, _) => FirstToken(scope);
    case Subscript(base, _) => FirstToken(base);
    case Binary(_, left, _) => FirstToken(left);
    case Conditional(selector, _, _) => FirstToken(selector);
    case _ =>
  }

  /** A grammatical tree is parsed back at every level up to its own, and parsing stops in
      front of whatever cannot extend it. */
  lemma {:induction false} RoundTripAt(t: Tree, level: nat, rest: seq<Token>)
    requires Grammatical(t) && level <= Level(t) && Ends(level, rest)
    ensures ParseLevel(level, Tokens(t) + rest) == Success(t, rest)
    decreases t, PRIMARY + 1 - level, 1
  {
    if level == 0 {
      if t.Conditional? {
        ConditionalRoundTrip(t, rest);
      } else {
        RoundTripAt(t, 1, rest);
        NoConditionalStep(Tokens(t) + rest, t, rest);
      }
    } else if level < UNARY {
      BinaryChain(t, level, rest);
    } else if level == UNARY {
      if t.Unary? {
        RoundTripAt(t.operand, UNARY, rest);
        UnaryTokens(t, rest);
        UnaryStep(t.uop, Tokens(t.operand) + rest, t.operand, rest);
      } else {
        FirstToken(t);
        RoundTripAt(t, POSTFIX, rest);
        NoUnaryStep(Tokens(t), rest);
      }
    } else if level == POSTFIX {
      PostfixChain(t, rest);
    } else {
      PrimaryRoundTrip(t, rest);
    }
  }

  lemma NoConditionalStep(tokens: seq<Token>, t: Tree, rest: seq<Token>)
    requires ParseBinary(1, tokens) == Success(t, rest) && !NextIs(rest, QMark)
    ensures ParseExpression(tokens) == Success(t, rest)
  {
  }

  lemma UnaryTokens(t: Tree, rest: seq<Token>)
    requires t.Unary?
    ensures Tokens(t) + rest == [UnaryToken(t.uop)] + (Tokens(t.operand) + rest)
  {
  }

  lemma UnaryStep(op: UnaryOperator, tokens: seq<Token>, operand: Tree, rest: seq<Token>)
    requires ParseUnary(tokens) == Success(operand, rest)
    ensures ParseUnary([UnaryToken(op)] + tokens) == Success(Unary(op, operand), rest)
  {
    assert ([UnaryToken(op)] + tokens)[1..] == tokens;
  }

  lemma NoUnaryStep(tokens: seq<Token>, rest: seq<Token>)
    requires tokens != [] && UnaryOperatorOf(tokens[0]).None?
    ensures ParseUnary(tokens + rest) == ParsePostfix(tokens + rest)
  {
    assert (tokens + rest)[0] == tokens[0];
  }

  lemma ConditionalRoundTrip(t: Tree, rest: seq<Token>)
    requires Grammatical(t) && t.Conditional? && Ends(0, rest)
    ensures ParseExpression(Tokens(t) + rest) == Success(t, rest)
    decreases t, PRIMARY + 1, 0
  {
    var last := Tokens(t.ifFalse) + rest;
    var middle := Tokens(t.ifTrue) + ([Colon] + last);
    ConditionalTokens(t, rest);
    RoundTripAt(t.selector, 1, [QMark] + middle);
    RoundTripAt(t.ifTrue, 0, [Colon] + last);
    RoundTripAt(t.ifFalse, 0, rest);
    ConditionalStep(Tokens(t.selector) + ([QMark] + middle), t.selector, middle, t.ifTrue, last, t.ifFalse, rest);
  }

  lemma ConditionalTokens(t: Tree, rest: seq<Token>)
    requires t.Conditional?
    ensures Tokens(t) + rest == Tokens(t.selector) + ([QMark] + (Tokens(t.ifTrue) + ([Colon] + (Tokens(t.ifFalse) + rest))))
  {
  }

  lemma ConditionalStep(tokens: seq<Token>, selector: Tree, middle: seq<Token>, ifTrue: Tree, last: seq<Token>,
                        ifFalse: Tree, rest: seq<Token>)
    requires ParseBinary(1, tokens) == Success(selector, [QMark] + middle)
    requires ParseExpression(middle) == Success(ifTrue, [Colon] + last)
    requires ParseExpression(last) == Success(ifFalse, rest)
    ensures ParseExpression(tokens) == Success(Conditional(selector, ifTrue, ifFalse), rest)
  {
    assert ([QMark] + middle)[1..] == middle && ([Colon] + last)[1..] == last;
  }

  /** Parsing at a binary level reads a printed tree of that level and is then where its loop
      would be with that tree: left-nested chains are rebuilt one operator at a time. */
  lemma {:induction false} BinaryChain(t: Tree, level: nat, rest: seq<Token>)
    requires 1 <= level < UNARY && Grammatical(t) && level <= Level(t) && Ends(level + 1, rest)
    ensures ParseBinary(level, Tokens(t) + rest) == ContinueBinary(level, t, rest)
    decreases t, PRIMARY + 1 - level, 0
  {
    if Level(t) == level {
      var right := Tokens(t.right) + rest;
      BinaryTokens(t, rest);
      BinaryChain(t.left, level, [BinaryToken(t.op)] + right);
      RoundTripAt(t.right, level + 1, rest);
      OperatorStep(level, t.left, t.op, right, t.right, rest);
    } else {
      RoundTripAt(t, level + 1, rest);
    }
  }

  lemma BinaryTokens(t: Tree, rest: seq<Token>)
    requires t.Binary?
    ensures Tokens(t) + rest == Tokens(t.left) + ([BinaryToken(t.op)] + (Tokens(t.right) + rest))
  {
  }

  lemma OperatorStep(level: nat, left: Tree, op: BinaryOperator, tokens: seq<Token>, right: Tree, rest: seq<Token>)
    requires level == Precedence(op) && ParseBinary(level + 1, tokens) == Success(right, rest)
    ensures ContinueBinary(level, left, [BinaryToken(op)] + tokens) == ContinueBinary(level, Binary(op, left, right), rest)
  {
    assert ([BinaryToken(op)] + tokens)[1..] == tokens;
  }

  lemma {:induction false} PostfixChain(t: Tree, rest: seq<Token>)
    requires Grammatical(t) && Level(t) >= POSTFIX && !NextIs(rest, OpenParen)
    ensures ParsePostfix(Tokens(t) + rest) == ContinuePostfix(t, rest)
    decreases t, 2, 0
  {
    if t.Selection? {
      var after := [Dot, IdentifierToken(t.name)] + rest;
      assert Tokens(t) + rest == Tokens(t.scope) + after;
      PostfixChain(t.scope, after);
      assert after[2..] == rest;
    } else if t.Subscript? {
      var afterIndex := [CloseBox] + rest;
      var after := [OpenBox] + (Tokens(t.index) + afterIndex);
      assert Tokens(t) + rest == Tokens(t.base) + after;
      PostfixChain(t.base, after);
      RoundTripAt(t.index, 0, afterIndex);
      SubscriptStep(t.base, Tokens(t.index) + afterIndex, t.index, rest);
    } else {
      PrimaryRoundTrip(t, rest);
    }
  }

  lemma SubscriptStep(base: Tree, tokens: seq<Token>, index: Tree, rest: seq<Token>)
    requires ParseExpression(tokens) == Success(index, [CloseBox] + rest)
    ensures ContinuePostfix(base, [OpenBox] + tokens) == ContinuePostfix(Subscript(base, index), rest)
  {
    assert ([OpenBox] + tokens)[1..] == tokens && ([CloseBox] + rest)[1..] == rest;
  }

  lemma ParenthesesStep(tokens: seq<Token>, inner: Tree, rest: seq<Token>)
    requires ParseExpression(tokens) == Success(inner, [CloseParen] + rest)
    ensures ParsePrimary([OpenParen] + tokens) == Success(Parenthesized(inner), rest)
  {
    assert ([OpenParen] + tokens)[1..] == tokens && ([CloseParen] + rest)[1..] == rest;
  }

  lemma CallStep(name: string, tokens: seq<Token>, args: seq<Tree>, rest: seq<Token>)
    requires ParseList(CloseParen, tokens) == ListSuccess(args, rest)
    ensures ParsePrimary([IdentifierToken(name), OpenParen] + tokens) == Success(FunctionCall(name, args), rest)
  {
    var all := [IdentifierToken(name), OpenParen] + tokens;
    assert all[2..] == tokens && all[1..][0] == OpenParen;
  }

  lemma ListStep(tokens: seq<Token>, elements: seq<Tree>, rest: seq<Token>)
    requires ParseList(CloseBrace, tokens) == ListSuccess(elements, rest)
    ensures ParsePrimary([OpenBrace] + tokens) == Success(ExprList(elements), rest)
  {
    assert ([OpenBrace] + tokens)[1..] == tokens;
  }

  lemma AttributeStep(name: string, absolute: bool, rest: seq<Token>)
    requires !NextIs(rest, OpenParen)
    ensures ParsePrimary(Tokens(Attribute(name, absolute)) + rest) == Success(Attribute(name, absolute), rest)
  {
    var all := Tokens(Attribute(name, absolute)) + rest;
    if absolute {
      assert all[0] == Dot && all[1] == IdentifierToken(name) && all[2..] == rest;
    } else {
      assert all[0] == IdentifierToken(name) && all[1..] == rest;
    }
  }

  lemma PrimaryRoundTrip(t: Tree, rest: seq<Token>)
    requires Grammatical(t) && Level(t) == PRIMARY && !NextIs(rest, OpenParen)
    ensures ParsePrimary(Tokens(t) + rest) == Success(t, rest)
    decreases t, 1, 0
  {
    PrimaryTokens(t, rest);
    match t
    case Literal(c) =>
      assert ([ConstantToken(c)] + rest)[1..] == rest;
    case Attribute(name, absolute) =>
      AttributeStep(name, absolute, rest);
    case Parenthesized(inner) =>
      RoundTripAt(inner, 0, [CloseParen] + rest);
      ParenthesesStep(Tokens(inner) + ([CloseParen] + rest), inner, rest);
    case FunctionCall(name, args) =>
      ListRoundTrip(args, CloseParen, rest);
      CallStep(name, ListTokens(args, CloseParen) + rest, args, rest);
    case ExprList(elements) =>
      ListRoundTrip(elements, CloseBrace, rest);
      ListStep(ListTokens(elements, CloseBrace) + rest, elements, rest);
  }

  lemma PrimaryTokens(t: Tree, rest: seq<Token>)
    ensures t.Parenthesized? ==> Tokens(t) + rest == [OpenParen] + (Tokens(t.inner) + ([CloseParen] + rest))
    ensures t.FunctionCall? ==>
      Tokens(t) + rest == [IdentifierToken(t.name), OpenParen] + (ListTokens(t.args, CloseParen) + rest)
    ensures t.ExprList? ==> Tokens(t) + rest == [OpenBrace] + (ListTokens(t.elements, CloseBrace) + rest)
  {
  }

  lemma ListRoundTrip(ts: seq<Tree>, close: Token, rest: seq<Token>)
    requires close == CloseParen || close == CloseBrace
    requires forall i :: 0 <= i < |ts| ==> Grammatical(ts[i])
    ensures ParseList(close, ListTokens(ts, close) + rest) == ListSuccess(ts, rest)
    decreases ts, 1, 1
  {
    if ts == [] {
      assert (ListTokens(ts, close) + rest)[1..] == rest;
    } else {
      FirstToken(ts[0]);
      ItemsRoundTrip([], ts, close, rest);
      assert (ListTokens(ts, close) + rest)[0] == Tokens(ts[0])[0];
    }
  }

  lemma {:induction false} ItemsRoundTrip(items: seq<Tree>, ts: seq<Tree>, close: Token, rest: seq<Token>)
    requires close == CloseParen || close == CloseBrace
    requires ts != [] && forall i :: 0 <= i < |ts| ==> Grammatical(ts[i])
    ensures ParseItems(close, items, ListTokens(ts, close) + rest) == ListSuccess(items + ts, rest)
    decreases ts, 1, 0
  {
    if |ts| == 1 {
      ListTokensOfOne(ts, close, rest);
      RoundTripAt(ts[0], 0, [close] + rest);
      LastItemStep(close, items, Tokens(ts[0]) + ([close] + rest), ts[0], rest);
    } else {
      var more := ListTokens(ts[1..], close) + rest;
      ListTokensOfMany(ts, close, rest);
      RoundTripAt(ts[0], 0, [Comma] + more);
      ItemStep(close, items, Tokens(ts[0]) + ([Comma] + more), ts[0], more);
      ItemsRoundTrip(items + [ts[0]], ts[1..], close, rest);
      FirstAndOthers(items, ts);
    }
  }

  lemma FirstAndOthers(items: seq<Tree>, ts: seq<Tree>)
    requires ts != []
    ensures items + [ts[0]] + ts[1..] == items + ts
  {
  }

  lemma ListTokensOfOne(ts: seq<Tree>, close: Token, rest: seq<Token>)
    requires |ts| == 1
    ensures ListTokens(ts, close) + rest == Tokens(ts[0]) + ([close] + rest) && ts == [ts[0]]
  {
  }

  lemma ListTokensOfMany(ts: seq<Tree>, close: Token, rest: seq<Token>)
    requires |ts| > 1
    ensures ListTokens(ts, close) + rest == Tokens(ts[0]) + ([Comma] + (ListTokens(ts[1..], close) + rest))
  {
  }

  lemma LastItemStep(close: Token, items: seq<Tree>, tokens: seq<Token>, item: Tree, rest: seq<Token>)
    requires close != Comma && ParseExpression(tokens) == Success(item, [close] + rest)
    ensures ParseItems(close, items, tokens) == ListSuccess(items + [item], rest)
  {
    assert ([close] + rest)[1..] == rest;
  }

  lemma ItemStep(close: Token, items: seq<Tree>, tokens: seq<Token>, item: Tree, more: seq<Token>)
    requires ParseExpression(tokens) == Success(item, [Comma] + more)
    ensures ParseItems(close, items, tokens) == ParseItems(close, items + [item], more)
  {
    assert ([Comma] + more)[1..] == more;
  }

  // ---------- time calls ----------

  /** What the parser returns: the tree written, with its time calls turned into values. */
  function Parsed(f: TimeFormat, tokens: seq<Token>): Result
  {
    match ParseExpression(tokens)
    case Failure => Failure
    case Success(t, rest) => Success(Folded(f, t), rest)
  }

  /** Every time value in the tree is what its printed text is read as. */
  ghost predicate TimesKept(f: TimeFormat, t: Tree)
  {
    match t
    case Literal(TimeConstant(time)) =>
      var call := TimeCall(f, time);
      TimeFromString(f, call.name, f.text(time)) == TimeConstant(time)
    case Literal(_) | Attribute(_, _) => true
    case Selection(scope, _) => TimesKept(f, scope)
    case Parenthesized(inner) => TimesKept(f, inner)
    case FunctionCall(_, args) => forall i :: 0 <= i < |args| ==> TimesKept(f, args[i])
    case ExprList(elements) => forall i :: 0 <= i < |elements| ==> TimesKept(f, elements[i])
    case Subscript(base, index) => TimesKept(f, base) && TimesKept(f, index)
    case Unary(_, operand) => TimesKept(f, operand)
    case Binary(_, left, right) => TimesKept(f, left) && TimesKept(f, right)
    case Conditional(selector, ifTrue, ifFalse) =>
      TimesKept(f, selector) && TimesKept(f, ifTrue) && TimesKept(f, ifFalse)
  }

  ghost predicate HasTimeCall(t: Tree)
  {
    match t
    case Literal(_) | Attribute(_, _) => false
    case Selection(scope, _) => HasTimeCall(scope)
    case Parenthesized(inner) => HasTimeCall(inner)
    case FunctionCall(name, args) => IsTimeCall(name, args) || exists i :: 0 <= i < |args| && HasTimeCall(args[i])
    case ExprList(elements) => exists i :: 0 <= i < |elements| && HasTimeCall(elements[i])
    case Subscript(base, index) => HasTimeCall(base) || HasTimeCall(index)
    case Unary(_, operand) => HasTimeCall(operand)
    case Binary(_, left, right) => HasTimeCall(left) || HasTimeCall(right)
    case Conditional(selector, ifTrue, ifFalse) => HasTimeCall(selector) || HasTimeCall(ifTrue) || HasTimeCall(ifFalse)
  }

  /** Spelling and folding give a tree back exactly when it holds no time call and its time
      values are kept. */
  lemma {:induction false} FoldedSpelled(f: TimeFormat, t: Tree)
    ensures Folded(f, Spelled(f, t)) == t <==> TimesKept(f, t) && !HasTimeCall(t)
    decreases t, 0
  {
    match t
    case Literal(_) =>
    case Attribute(_, _) =>
    case Selection(scope, _) => FoldedSpelled(f, scope);
    case Parenthesized(inner) => FoldedSpelled(f, inner);
    case FunctionCall(name, args) => FoldedSpelledCall(f, name, args);
    case ExprList(elements) => FoldedSpelledAll(f, elements);
    case Subscript(base, index) => FoldedSpelled(f, base); FoldedSpelled(f, index);
    case Unary(_, operand) => FoldedSpelled(f, operand);
    case Binary(_, left, right) => FoldedSpelled(f, left); FoldedSpelled(f, right);
    case Conditional(selector, ifTrue, ifFalse) =>
      FoldedSpelled(f, selector); FoldedSpelled(f, ifTrue); FoldedSpelled(f, ifFalse);
  }

  lemma FoldedSpelledCall(f: TimeFormat, name: string, args: seq<Tree>)
    ensures
      var t := FunctionCall(name, args);
      Folded(f, Spelled(f, t)) == t <==> TimesKept(f, t) && !HasTimeCall(t)
    decreases args, 1
  {
    FoldedSpelledAll(f, args);
  }

  lemma FoldedSpelledAll(f: TimeFormat, ts: seq<Tree>)
    ensures FoldedAll(f, SpelledAll(f, ts)) == ts <==>
      forall i :: 0 <= i < |ts| ==> TimesKept(f, ts[i]) && !HasTimeCall(ts[i])
    ensures |ts| == 1 && ts[0].Literal? && ts[0].constant.StringConstant? ==> FoldedAll(f, SpelledAll(f, ts)) == ts
    decreases ts, 0
  {
    var back := FoldedAll(f, SpelledAll(f, ts));
    forall i | 0 <= i < |ts| ensures back[i] == ts[i] <==> TimesKept(f, ts[i]) && !HasTimeCall(ts[i]) {
      FoldedSpelled(f, ts[i]);
    }
  }

  /** The parser leaves no time call in the tree that it returns. */
  lemma {:induction false} FoldedHasNoTimeCall(f: TimeFormat, t: Tree)
    ensures !HasTimeCall(Folded(f, t))
  {
    match t
    case Literal(_) =>
    case Attribute(_, _) =>
    case Selection(scope, _) => FoldedHasNoTimeCall(f, scope);
    case Parenthesized(inner) => FoldedHasNoTimeCall(f, inner);
    case FunctionCall(name, args) =>
      forall i | 0 <= i < |args| ensures !HasTimeCall(Folded(f, args[i])) { FoldedHasNoTimeCall(f, args[i]); }
    case ExprList(elements) =>
      forall i | 0 <= i < |elements| ensures !HasTimeCall(Folded(f, elements[i])) { FoldedHasNoTimeCall(f, elements[i]); }
    case Subscript(base, index) => FoldedHasNoTimeCall(f, base); FoldedHasNoTimeCall(f, index);
    case Unary(_, operand) => FoldedHasNoTimeCall(f, operand);
    case Binary(_, left, right) => FoldedHasNoTimeCall(f, left); FoldedHasNoTimeCall(f, right);
    case Conditional(selector, ifTrue, ifFalse) =>
      FoldedHasNoTimeCall(f, selector); FoldedHasNoTimeCall(f, ifTrue); FoldedHasNoTimeCall(f, ifFalse);
  }

  lemma {:induction false} SpelledGrammatical(f: TimeFormat, t: Tree)
    requires Grammatical(t)
    ensures Grammatical(Spelled(f, t))
  {
    match t
    case Literal(_) =>
    case Attribute(_, _) =>
    case Selection(scope, _) => SpelledGrammatical(f, scope);
    case Parenthesized(inner) => SpelledGrammatical(f, inner);
    case FunctionCall(name, args) =>
      forall i | 0 <= i < |args| ensures Grammatical(Spelled(f, args[i])) { SpelledGrammatical(f, args[i]); }
    case ExprList(elements) =>
      forall i | 0 <= i < |elements| ensures Grammatical(Spelled(f, elements[i])) { SpelledGrammatical(f, elements[i]); }
    case Subscript(base, index) => SpelledGrammatical(f, base); SpelledGrammatical(f, index);
    case Unary(_, operand) => SpelledGrammatical(f, operand);
    case Binary(_, left, right) => SpelledGrammatical(f, left); SpelledGrammatical(f, right);
    case Conditional(selector, ifTrue, ifFalse) =>
      SpelledGrammatical(f, selector); SpelledGrammatical(f, ifTrue); SpelledGrammatical(f, ifFalse);
  }

  /** Parsing the printed tokens of a grammatical tree consumes exactly those tokens. It gives
      the tree back exactly when the tree holds no time call and the text of each of its time
      values is read as that value. */
  lemma ParseOfPrinted(f: TimeFormat, t: Tree, rest: seq<Token>)
    requires Grammatical(t) && Ends(0, rest)
    ensures Parsed(f, Printed(f, t) + rest) == Success(Folded(f, Spelled(f, t)), rest)
    ensures Parsed(f, Printed(f, t) + rest) == Success(t, rest) <==> TimesKept(f, t) && !HasTimeCall(t)
  {
    SpelledGrammatical(f, t);
    RoundTripAt(Spelled(f, t), 0, rest);
    FoldedSpelled(f, t);
  }

  /** A call that the grammar builds and the parser does not give back. */
  lemma TimeCallNotGivenBack(f: TimeFormat)
    ensures
      var t := FunctionCall(REL_TIME, [Literal(StringConstant("1"))]);
      Grammatical(t) && Parsed(f, Printed(f, t)).Success? && Parsed(f, Printed(f, t)).tree.Literal?
  {
    var t := FunctionCall(REL_TIME, [Literal(StringConstant("1"))]);
    assert IsTimeCall(t.name, t.args);
    ParseOfPrinted(f, t, []);
    assert Printed(f, t) + [] == Printed(f, t);
    assert Spelled(f, t).args == t.args && Folded(f, t.args[0]) == t.args[0];
    assert FoldedAll(f, t.args) == t.args;
  }

  /** A tree that came from the parser is given back exactly when its time values are kept. */
  lemma ParsedGivenBack(f: TimeFormat, tokens: seq<Token>, rest: seq<Token>)
    requires Parsed(f, tokens).Success? && Ends(0, rest)
    ensures
      var t := Parsed(f, tokens).tree;
      Parsed(f, Printed(f, t) + rest) == Success(t, rest) <==> TimesKept(f, t)
  {
    var raw := ParseExpression(tokens).tree;
    PrintOfWritten(tokens);
    FoldedGrammatical(f, raw);
    FoldedHasNoTimeCall(f, raw);
    ParseOfPrinted(f, Folded(f, raw), rest);
  }

  lemma {:induction false} FoldedGrammatical(f: TimeFormat, t: Tree)
    requires Grammatical(t)
    ensures Grammatical(Folded(f, t))
  {
    match t
    case Literal(_) =>
    case Attribute(_, _) =>
    case Selection(scope, _) => FoldedGrammatical(f, scope);
    case Parenthesized(inner) => FoldedGrammatical(f, inner);
    case FunctionCall(name, args) =>
      forall i | 0 <= i < |args| ensures Grammatical(Folded(f, args[i])) { FoldedGrammatical(f, args[i]); }
    case ExprList(elements) =>
      forall i | 0 <= i < |elements| ensures Grammatical(Folded(f, elements[i])) { FoldedGrammatical(f, elements[i]); }
    case Subscript(base, index) => FoldedGrammatical(f, base); FoldedGrammatical(f, index);
    case Unary(_, operand) => FoldedGrammatical(f, operand);
    case Binary(_, left, right) => FoldedGrammatical(f, left); FoldedGrammatical(f, right);
    case Conditional(selector, ifTrue, ifFalse) =>
      FoldedGrammatical(f, selector); FoldedGrammatical(f, ifTrue); FoldedGrammatical(f, ifFalse);
  }

  /** The time calls in the tree as written are those that the unparser would write for the
      values that they become. */
  ghost predicate TimesAsPrinted(f: TimeFormat, t: Tree)
  {
    match t
    case Literal(c) => !c.TimeConstant?
    case Attribute(_, _) => true
    case Selection(scope, _) => TimesAsPrinted(f, scope)
    case Parenthesized(inner) => TimesAsPrinted(f, inner)
    case FunctionCall(name, args) =>
      if IsTimeCall(name, args) then
        var c := TimeFromString(f, name, args[0].constant.s);
        && c.TimeConstant?
        && name == (if c.time.AbsoluteTime? then ABS_TIME else REL_TIME)
        && f.text(c.time) == args[0].constant.s
      else forall i :: 0 <= i < |args| ==> TimesAsPrinted(f, args[i])
    case ExprList(elements) => forall i :: 0 <= i < |elements| ==> TimesAsPrinted(f, elements[i])
    case Subscript(base, index) => TimesAsPrinted(f, base) && TimesAsPrinted(f, index)
    case Unary(_, operand) => TimesAsPrinted(f, operand)
    case Binary(_, left, right) => TimesAsPrinted(f, left) && TimesAsPrinted(f, right)
    case Conditional(selector, ifTrue, ifFalse) =>
      TimesAsPrinted(f, selector) && TimesAsPrinted(f, ifTrue) && TimesAsPrinted(f, ifFalse)
  }

  lemma {:induction false} SpelledFolded(f: TimeFormat, t: Tree)
    ensures Spelled(f, Folded(f, t)) == t <==> TimesAsPrinted(f, t)
    decreases t, 0
  {
    match t
    case Literal(_) =>
    case Attribute(_, _) =>
    case Selection(scope, _) => SpelledFolded(f, scope);
    case Parenthesized(inner) => SpelledFolded(f, inner);
    case FunctionCall(name, args) =>
      SpelledFoldedAll(f, args);
      if IsTimeCall(name, args) {
        assert args == [args[0]];
      }
    case ExprList(elements) => SpelledFoldedAll(f, elements);
    case Subscript(base, index) => SpelledFolded(f, base); SpelledFolded(f, index);
    case Unary(_, operand) => SpelledFolded(f, operand);
    case Binary(_, left, right) => SpelledFolded(f, left); SpelledFolded(f, right);
    case Conditional(selector, ifTrue, ifFalse) =>
      SpelledFolded(f, selector); SpelledFolded(f, ifTrue); SpelledFolded(f, ifFalse);
  }

  lemma SpelledFoldedAll(f: TimeFormat, ts: seq<Tree>)
    ensures SpelledAll(f, FoldedAll(f, ts)) == ts <==> forall i :: 0 <= i < |ts| ==> TimesAsPrinted(f, ts[i])
    decreases ts, 0
  {
    var back := SpelledAll(f, FoldedAll(f, ts));
    forall i | 0 <= i < |ts| ensures back[i] == ts[i] <==> TimesAsPrinted(f, ts[i]) {
      SpelledFolded(f, ts[i]);
    }
  }

  // ---------- printing what was parsed ----------

  /** `t` is grammatical, of at least the given level, and prints as the tokens consumed. */
  ghost predicate Reads(t: Tree, level: nat, tokens: seq<Token>, rest: seq<Token>)
  {
    Grammatical(t) && Level(t) >= level && Tokens(t) + rest == tokens
  }

  /** Printing what the parser returns writes exactly the tokens that it consumed if and only
      if the time calls among them were as the unparser writes them. */
  lemma PrintOfParsed(f: TimeFormat, tokens: seq<Token>)
    requires Parsed(f, tokens).Success?
    ensures
      var r := Parsed(f, tokens);
      Grammatical(r.tree) &&
      (Printed(f, r.tree) + r.rest == tokens <==> TimesAsPrinted(f, ParseExpression(tokens).tree))
  {
    var r := ParseExpression(tokens);
    var t := Spelled(f, Folded(f, r.tree));
    PrintOfWritten(tokens);
    FoldedGrammatical(f, r.tree);
    SpelledGrammatical(f, Folded(f, r.tree));
    SpelledFolded(f, r.tree);
    if Tokens(t) + r.rest == tokens {
      SameFront(Tokens(t), Tokens(r.tree), r.rest);
      RoundTripAt(t, 0, []);
      RoundTripAt(r.tree, 0, []);
    }
  }

  lemma SameFront(a: seq<Token>, b: seq<Token>, rest: seq<Token>)
    requires a + rest == b + rest
    ensures a == b
  {
    assert a == (a + rest)[..|a|] && b == (b + rest)[..|b|];
  }

  /** The tree that the parser reads prints as exactly the tokens that it consumed. */
  lemma {:induction false} PrintOfWritten(tokens: seq<Token>)
    ensures
      var r := ParseExpression(tokens);
      r.Success? ==> Reads(r.tree, 0, tokens, r.rest)
    decreases |tokens|, 14, 1
  {
    var r := ParseExpression(tokens);
    if r.Success? {
      PrintOfBinary(1, tokens);
      var s := ParseBinary(1, tokens);
      if NextIs(s.rest, QMark) {
        PrintOfWritten(s.rest[1..]);
        var m := ParseExpression(s.rest[1..]);
        PrintOfWritten(m.rest[1..]);
        ConditionalTokens(r.tree, r.rest);
        assert s.rest == [QMark] + s.rest[1..] && m.rest == [Colon] + m.rest[1..];
      }
    }
  }

  lemma {:induction false} PrintOfBinary(level: nat, tokens: seq<Token>)
    requires 1 <= level <= UNARY
    ensures
      var r := ParseBinary(level, tokens);
      r.Success? ==> Reads(r.tree, level, tokens, r.rest)
    decreases |tokens|, UNARY + 1 - level, 1
  {
    var r := ParseBinary(level, tokens);
    if r.Success? {
      if level == UNARY {
        PrintOfUnary(tokens);
      } else {
        PrintOfBinary(level + 1, tokens);
        var first := ParseBinary(level + 1, tokens);
        PrintOfContinued(level, first.tree, first.rest);
      }
    }
  }

  lemma {:induction false} PrintOfContinued(level: nat, tree: Tree, tokens: seq<Token>)
    requires 1 <= level < UNARY && Grammatical(tree) && Level(tree) >= level
    ensures
      var r := ContinueBinary(level, tree, tokens);
      r.Success? ==> Reads(r.tree, level, Tokens(tree) + tokens, r.rest)
    decreases |tokens|, UNARY + 1 - level, 0
  {
    var r := ContinueBinary(level, tree, tokens);
    if r.Success? && OperatorAt(level, tokens) {
      PrintOfBinary(level + 1, tokens[1..]);
      var right := ParseBinary(level + 1, tokens[1..]);
      var next := Binary(tokens[0].op, tree, right.tree);
      PrintOfContinued(level, next, right.rest);
      BinaryTokens(next, right.rest);
      assert tokens == [tokens[0]] + tokens[1..];
    }
  }

  lemma {:induction false} PrintOfUnary(tokens: seq<Token>)
    ensures
      var r := ParseUnary(tokens);
      r.Success? ==> Reads(r.tree, UNARY, tokens, r.rest)
    decreases |tokens|, 0, 3
  {
    var r := ParseUnary(tokens);
    if r.Success? {
      if UnaryOperatorOf(tokens[0]).None? {
        PrintOfPostfix(tokens);
      } else {
        PrintOfUnary(tokens[1..]);
        UnaryTokens(r.tree, r.rest);
        assert tokens == [tokens[0]] + tokens[1..];
      }
    }
  }

  lemma {:induction false} PrintOfPostfix(tokens: seq<Token>)
    ensures
      var r := ParsePostfix(tokens);
      r.Success? ==> Reads(r.tree, POSTFIX, tokens, r.rest)
    decreases |tokens|, 0, 2
  {
    var first := ParsePrimary(tokens);
    if first.Success? {
      PrintOfPrimary(tokens);
      PrintOfContinuedPostfix(first.tree, first.rest);
    }
  }

  lemma {:induction false} PrintOfContinuedPostfix(tree: Tree, tokens: seq<Token>)
    requires Grammatical(tree) && Level(tree) >= POSTFIX
    ensures
      var r := ContinuePostfix(tree, tokens);
      r.Success? ==> Reads(r.tree, POSTFIX, Tokens(tree) + tokens, r.rest)
    decreases |tokens|, 0, 0
  {
    var r := ContinuePostfix(tree, tokens);
    if r.Success? {
      if NextIs(tokens, OpenBox) {
        PrintOfWritten(tokens[1..]);
        var index := ParseExpression(tokens[1..]);
        var next := Subscript(tree, index.tree);
        PrintOfContinuedPostfix(next, index.rest[1..]);
        SubscriptTokens(next, tokens, index.rest);
      } else if NextIs(tokens, Dot) {
        var next := Selection(tree, tokens[1].name);
        PrintOfContinuedPostfix(next, tokens[2..]);
        SelectionTokens(next, tokens);
      }
    }
  }

  lemma SelectionTokens(t: Tree, tokens: seq<Token>)
    requires t.Selection? && |tokens| >= 2 && tokens[0] == Dot && tokens[1] == IdentifierToken(t.name)
    ensures Tokens(t) + tokens[2..] == Tokens(t.scope) + tokens
  {
    assert tokens == [Dot, tokens[1]] + tokens[2..];
  }

  lemma SubscriptTokens(t: Tree, tokens: seq<Token>, rest: seq<Token>)
    requires t.Subscript? && NextIs(tokens, OpenBox) && NextIs(rest, CloseBox)
    requires Tokens(t.index) + rest == tokens[1..]
    ensures Tokens(t) + rest[1..] == Tokens(t.base) + tokens
  {
    assert tokens == [OpenBox] + (Tokens(t.index) + ([CloseBox] + rest[1..]));
  }

  lemma {:induction false} PrintOfPrimary(tokens: seq<Token>)
    ensures
      var r := ParsePrimary(tokens);
      r.Success? ==> Reads(r.tree, PRIMARY, tokens, r.rest)
    decreases |tokens|, 0, 1
  {
    var r := ParsePrimary(tokens);
    if r.Success? {
      PrimaryTokens(r.tree, r.rest);
      match tokens[0]
      case IdentifierToken(_) =>
        if NextIs(tokens[1..], OpenParen) {
          PrintOfList(CloseParen, tokens[2..]);
          assert tokens == [tokens[0], OpenParen] + tokens[2..];
        } else {
          assert tokens == [tokens[0]] + tokens[1..];
        }
      case Dot =>
        assert tokens == [Dot] + [tokens[1]] + tokens[2..];
      case OpenParen =>
        PrintOfWritten(tokens[1..]);
        var inner := ParseExpression(tokens[1..]);
        assert tokens == [OpenParen] + tokens[1..] && inner.rest == [CloseParen] + r.rest;
      case OpenBrace =>
        PrintOfList(CloseBrace, tokens[1..]);
        assert tokens == [OpenBrace] + tokens[1..];
      case ConstantToken(_) =>
        assert tokens == [tokens[0]] + tokens[1..];
    }
  }

  lemma PrintOfList(close: Token, tokens: seq<Token>)
    ensures
      var r := ParseList(close, tokens);
      r.ListSuccess? ==> AllGrammatical(r.trees) && ListTokens(r.trees, close) + r.rest == tokens
    decreases |tokens|, 14, 3
  {
    if NextIs(tokens, close) {
      assert [close] + tokens[1..] == tokens;
    } else {
      PrintOfItems(close, [], tokens);
    }
  }

  ghost predicate AllGrammatical(ts: seq<Tree>)
  {
    forall i :: 0 <= i < |ts| ==> Grammatical(ts[i])
  }

  lemma {:induction false} PrintOfItems(close: Token, items: seq<Tree>, tokens: seq<Token>)
    requires AllGrammatical(items)
    ensures
      var r := ParseItems(close, items, tokens);
      r.ListSuccess? ==>
        && |items| < |r.trees| && r.trees[..|items|] == items && AllGrammatical(r.trees)
        && ListTokens(r.trees[|items|..], close) + r.rest == tokens
    decreases |tokens|, 14, 2
  {
    var r := ParseItems(close, items, tokens);
    if r.ListSuccess? {
      PrintOfWritten(tokens);
      var item := ParseExpression(tokens);
      if NextIs(item.rest, Comma) {
        PrintOfItems(close, items + [item.tree], item.rest[1..]);
        var ts := r.trees[|items|..];
        assert ts[0] == (r.trees[..|items| + 1])[|items|] == item.tree;
        assert ts[1..] == r.trees[|items| + 1..];
        assert r.trees[..|items|] == (r.trees[..|items| + 1])[..|items|] == items;
        ListTokensOfMany(ts, close, r.rest);
        assert item.rest == [Comma] + item.rest[1..];
      } else {
        assert r.trees[|items|..] == [item.tree];
        ListTokensOfOne([item.tree], close, r.rest);
        assert item.rest == [close] + r.rest;
      }
    }
  }

  // ---------- the parser object ----------

  /** The parser and the tokens that its lexer has still to deliver. */
  class ClassAdParser {
    const f: TimeFormat
    var input: seq<Token>

    constructor (f: TimeFormat, tokens: seq<Token>)
      ensures input == tokens && this.f == f
    {
      input := tokens;
      this.f := f;
    }

    method ConsumeToken() returns (t: Token)
      requires input != []
      modifies this
      ensures t == old(input)[0] && input == old(input)[1..]
    {
      t := input[0];
      input := input[1..];
    }

    /** What a parse method promises: success and failure as specified, and on success the
        specified remaining input and the tree read, its time calls turned into values. */
    ghost predicate Matches(r: Result, ok: bool, tree: Tree)
      reads this
    {
      ok == r.Success? && (ok ==> tree == Folded(f, r.tree) && input == r.rest)
    }

    method Expression() returns (ok: bool, tree: Tree)
      modifies this
      ensures Matches(ParseExpression(old(input)), ok, tree)
      decreases |input|, 14, 1
    {
      ok, tree := BinaryExpression(1);
      if ok && NextIs(input, QMark) {
        var _ := ConsumeToken();
        var middle, last;
        ok, middle := Expression();
        if !ok || !NextIs(input, Colon) {
          return false, tree;
        }
        var _ := ConsumeToken();
        ok, last := Expression();
        tree := Conditional(tree, middle, last);
      }
    }

    method BinaryExpression(level: nat) returns (ok: bool, tree: Tree)
      requires 1 <= level <= UNARY
      modifies this
      ensures Matches(ParseBinary(level, old(input)), ok, tree)
      decreases |input|, UNARY + 1 - level, 1
    {
      if level == UNARY {
        ok, tree := UnaryExpression();
        return;
      }
      ok, tree := BinaryExpression(level + 1);
      ghost var written := if ok then ParseBinary(level + 1, old(input)).tree else tree;
      while ok && OperatorAt(level, input)
        invariant ok ==> |input| < |old(input)| && tree == Folded(f, written)
        invariant ok ==> ContinueBinary(level, written, input) == ParseBinary(level, old(input))
        invariant !ok ==> ParseBinary(level, old(input)).Failure?
        decreases ok, |input|
      {
        var token := ConsumeToken();
        var right;
        ghost var r := ParseBinary(level + 1, input);
        ok, right := BinaryExpression(level + 1);
        tree := Binary(token.op, tree, right);
        written := if ok then Binary(token.op, written, r.tree) else written;
      }
    }

    method UnaryExpression() returns (ok: bool, tree: Tree)
      modifies this
      ensures Matches(ParseUnary(old(input)), ok, tree)
      decreases |input|, 0, 3
    {
      if input == [] {
        return false, Literal(UndefinedConstant);
      }
      var op := UnaryOperatorOf(input[0]);
      if op.None? {
        ok, tree := PostfixExpression();
      } else {
        var _ := ConsumeToken();
        ok, tree := UnaryExpression();
        tree := Unary(op.value, tree);
      }
    }

    method PostfixExpression() returns (ok: bool, tree: Tree)
      modifies this
      ensures Matches(ParsePostfix(old(input)), ok, tree)
      decreases |input|, 0, 2
    {
      ok, tree := PrimaryExpression();
      ghost var written := if ok then ParsePrimary(old(input)).tree else tree;
      while ok && (NextIs(input, OpenBox) || NextIs(input, Dot))
        invariant ok ==> |input| < |old(input)| && tree == Folded(f, written)
        invariant ok ==> ContinuePostfix(written, input) == ParsePostfix(old(input))
        invariant !ok ==> ParsePostfix(old(input)).Failure?
        decreases ok, |input|
      {
        ok, tree, written := PostfixStep(tree, written);
      }
    }

    /** One turn of the loop of PostfixExpression: a subscript or a selection. */
    method PostfixStep(base: Tree, ghost writtenBase: Tree) returns (ok: bool, tree: Tree, ghost written: Tree)
      requires NextIs(input, OpenBox) || NextIs(input, Dot)
      requires base == Folded(f, writtenBase)
      modifies this
      ensures ok ==> |input| < |old(input)| && tree == Folded(f, written)
      ensures ok ==> ContinuePostfix(written, input) == ContinuePostfix(writtenBase, old(input))
      ensures !ok ==> ContinuePostfix(writtenBase, old(input)).Failure?
      decreases |input|, 15, 0
    {
      tree, written := base, writtenBase;
      var token := ConsumeToken();
      if token == OpenBox {
        var index;
        ghost var r := ParseExpression(input);
        ok, index := Expression();
        ok := ok && NextIs(input, CloseBox);
        if ok {
          var _ := ConsumeToken();
          tree, written := Subscript(base, index), Subscript(writtenBase, r.tree);
        }
      } else {
        ok := input != [] && input[0].IdentifierToken?;
        if ok {
          var selected := ConsumeToken();
          tree, written := Selection(base, selected.name), Selection(writtenBase, selected.name);
        }
      }
    }

    method PrimaryExpression() returns (ok: bool, tree: Tree)
      modifies this
      ensures Matches(ParsePrimary(old(input)), ok, tree)
      decreases |input|, 0, 1
    {
      ok, tree := false, Literal(UndefinedConstant);
      if input == [] {
        return;
      }
      var token := ConsumeToken();
      match token
      case IdentifierToken(name) =>
        ok, tree := CallOrAttribute(name, old(input));
      case Dot =>
        if input != [] && input[0].IdentifierToken? {
          var selected := ConsumeToken();
          ok, tree := true, Attribute(selected.name, true);
        }
      case OpenParen =>
        ok, tree := Expression();
        ok := ok && NextIs(input, CloseParen);
        if ok {
          var _ := ConsumeToken();
          tree := Parenthesized(tree);
        }
      case OpenBrace =>
        var elements;
        ok, elements := List(CloseBrace);
        tree := ExprList(elements);
      case ConstantToken(c) =>
        ok, tree := true, Literal(c);
      case _ =>
    }

    /** The part of PrimaryExpression after an identifier. */
    method CallOrAttribute(name: string, ghost before: seq<Token>) returns (ok: bool, tree: Tree)
      requires before != [] && before[0] == IdentifierToken(name) && input == before[1..]
      modifies this
      ensures Matches(ParsePrimary(before), ok, tree)
      decreases |input|, 15, 0
    {
      if NextIs(input, OpenParen) {
        var _ := ConsumeToken();
        var args;
        ok, args := List(CloseParen);
        tree := CallOrTime(f, name, args);
      } else {
        ok, tree := true, Attribute(name, false);
      }
    }

    method List(close: Token) returns (ok: bool, items: seq<Tree>)
      modifies this
      ensures
        var r := ParseList(close, old(input));
        ok == r.ListSuccess? && (ok ==> items == FoldedAll(f, r.trees) && input == r.rest)
      decreases |input|, 14, 3
    {
      ok, items := true, [];
      ghost var written: seq<Tree> := [];
      var more := !NextIs(input, close);
      while more
        invariant items == FoldedAll(f, written)
        invariant |input| <= |old(input)| && (!more ==> NextIs(input, close))
        invariant ParseList(close, old(input)) ==
          if more then ParseItems(close, written, input) else ListSuccess(written, input[1..])
        decreases more, |input|
      {
        ghost var r := ParseExpression(input);
        var item;
        ok, item := Expression();
        if !ok {
          return;
        }
        if NextIs(input, Comma) {
          var _ := ConsumeToken();
        } else if NextIs(input, close) {
          more := false;
        } else {
          return false, items;
        }
        items, written := items + [item], written + [r.tree];
      }
      var _ := ConsumeToken();
    }
  }
}
