/**
 How a sequence of operators groups (src/classad/source.cpp, the chain of parse functions from
 parseLogicalORExpression to parseMultiplicativeExpression): which operator binds tighter is
 written out here as ten groups, without the levels that the parser counts by.
 */
module Grouping {
  import opened Syntax
  import opened Parser

  /** The groups of binary operators, the loosest first. Operators of one group are grouped from
      the left. */
  const GROUPS: seq<set<BinaryOperator>> := [
    {Or}, {And}, {InclusiveOr}, {ExclusiveOr}, {BitAnd},
    {Eq, NotEq, Is, Isnt}, {Less, LessEq, Greater, GreaterEq},
    {LeftShift, RightShift, UnsignedRightShift}, {Add, Subtract}, {Multiply, Divide, Modulo}]

  predicate InGroup(op: BinaryOperator, i: nat)
  {
    i < |GROUPS| && op in GROUPS[i]
  }

  ghost predicate Tighter(op: BinaryOperator, other: BinaryOperator)
  {
    exists i: nat, j: nat :: i < j && InGroup(other, i) && InGroup(op, j)
  }

  lemma GroupIff(op: BinaryOperator, i: nat)
    ensures InGroup(op, i) <==> i + 1 == Precedence(op)
  {
  }

  lemma TighterIff(op: BinaryOperator, other: BinaryOperator)
    ensures Tighter(op, other) <==> Precedence(op) > Precedence(other)
  {
    forall i: nat ensures InGroup(op, i) <==> i + 1 == Precedence(op) {
      GroupIff(op, i);
    }
    forall i: nat ensures InGroup(other, i) <==> i + 1 == Precedence(other) {
      GroupIff(other, i);
    }
    BothInGroups(op, other, Precedence(op) - 1, Precedence(other) - 1);
  }

  lemma BothInGroups(op: BinaryOperator, other: BinaryOperator, j: nat, i: nat)
    requires forall l: nat :: InGroup(op, l) <==> l == j
    requires forall k: nat :: InGroup(other, k) <==> k == i
    ensures Tighter(op, other) <==> j > i
  {
    assert InGroup(other, i) && InGroup(op, j);
  }

  // ---------- chains of operators ----------

  /** Anything that stands between binary operators: names, constants, calls, lists, parenthesized
      expressions, subscripts, selections, and these with unary operators in front. */
  predicate IsOperand(t: Tree)
  {
    Grammatical(t) && !t.Binary? && !t.Conditional?
  }

  /** Operands with an operator between each two of them. */
  predicate IsChain(xs: seq<Tree>, ops: seq<BinaryOperator>)
  {
    |xs| == |ops| + 1 && forall i :: 0 <= i < |xs| ==> IsOperand(xs[i])
  }

  function ChainTokens(xs: seq<Tree>, ops: seq<BinaryOperator>): seq<Token>
    requires |xs| == |ops| + 1
  {
    if ops == [] then Tokens(xs[0])
    else Tokens(xs[0]) + [BinaryToken(ops[0])] + ChainTokens(xs[1..], ops[1..])
  }

  /** The last operator of the loosest group. */
  ghost predicate LastLoosest(ops: seq<BinaryOperator>, k: nat)
  {
    && k < |ops|
    && (forall i :: 0 <= i < k ==> !Tighter(ops[k], ops[i]))
    && (forall i :: k < i < |ops| ==> Tighter(ops[i], ops[k]))
  }

  ghost predicate Bounded(ops: seq<BinaryOperator>, level: nat)
  {
    forall i :: 0 <= i < |ops| ==> Precedence(ops[i]) >= level
  }

  lemma LaterIsTighter(ops: seq<BinaryOperator>, k: nat, i: nat)
    requires LastLoosest(ops, k) && k < i < |ops|
    ensures Precedence(ops[i]) > Precedence(ops[k])
  {
    TighterIff(ops[i], ops[k]);
  }

  lemma EarlierIsNotLooser(ops: seq<BinaryOperator>, k: nat, i: nat)
    requires LastLoosest(ops, k) && i < k
    ensures Precedence(ops[i]) >= Precedence(ops[k])
  {
    TighterIff(ops[k], ops[i]);
  }

  lemma LastLoosestLevels(ops: seq<BinaryOperator>, k: nat)
    requires LastLoosest(ops, k)
    ensures Bounded(ops[..k], Precedence(ops[k])) && Bounded(ops[k + 1..], Precedence(ops[k]) + 1)
  {
    forall i | 0 <= i < k ensures Precedence(ops[i]) >= Precedence(ops[k]) {
      EarlierIsNotLooser(ops, k, i);
    }
    forall i | k < i < |ops| ensures Precedence(ops[i]) > Precedence(ops[k]) {
      LaterIsTighter(ops, k, i);
    }
  }

  lemma {:induction false} LastLoosestExists(ops: seq<BinaryOperator>) returns (k: nat)
    requires ops != []
    ensures LastLoosest(ops, k)
  {
    var n := |ops| - 1;
    if n == 0 {
      k := 0;
    } else {
      k := LastLoosestExists(ops[..n]);
      TighterIff(ops[n], ops[k]);
      if !Tighter(ops[n], ops[k]) {
        forall i | 0 <= i < n ensures !Tighter(ops[n], ops[i]) {
          TighterIff(ops[n], ops[i]);
          TighterIff(ops[k], ops[i]);
          TighterIff(ops[i], ops[k]);
          assert i < k ==> !Tighter(ops[..n][k], ops[..n][i]);
          assert i > k ==> Tighter(ops[..n][i], ops[..n][k]);
        }
        k := n;
      } else {
        assert forall i :: 0 <= i < n ==> ops[..n][i] == ops[i];
      }
    }
  }

  /** The tree of a chain, divided at its last loosest operator. */
  ghost function Grouped(xs: seq<Tree>, ops: seq<BinaryOperator>): Tree
    requires |xs| == |ops| + 1
    decreases |ops|
  {
    if ops == [] then xs[0]
    else
      LoosestIn(ops);
      var k: nat :| LastLoosest(ops, k);
      Binary(ops[k], Grouped(xs[..k + 1], ops[..k]), Grouped(xs[k + 1..], ops[k + 1..]))
  }

  lemma LoosestIn(ops: seq<BinaryOperator>)
    requires ops != []
    ensures exists k: nat :: LastLoosest(ops, k)
  {
    var k := LastLoosestExists(ops);
  }

  lemma LoosestUnique(ops: seq<BinaryOperator>, k: nat, l: nat)
    requires LastLoosest(ops, k) && LastLoosest(ops, l)
    ensures k == l
  {
    var first, last := if k < l then k else l, if k < l then l else k;
    if first < last {
      NoTwoLoosest(ops, first, last);
    }
  }

  lemma NoTwoLoosest(ops: seq<BinaryOperator>, k: nat, l: nat)
    requires k < l && LastLoosest(ops, k)
    ensures !LastLoosest(ops, l)
  {
    if LastLoosest(ops, l) {
      EarlierIsNotLooser(ops, l, k);
      LaterIsTighter(ops, k, l);
    }
  }

  lemma {:induction false} ChainSplits(xs: seq<Tree>, ops: seq<BinaryOperator>, k: nat)
    requires |xs| == |ops| + 1 && k < |ops|
    ensures ChainTokens(xs, ops) ==
      ChainTokens(xs[..k + 1], ops[..k]) + [BinaryToken(ops[k])] + ChainTokens(xs[k + 1..], ops[k + 1..])
  {
    if k > 0 {
      ChainSplits(xs[1..], ops[1..], k - 1);
      assert xs[1..][..k] == xs[..k + 1][1..] && ops[1..][..k - 1] == ops[..k][1..];
      assert xs[1..][k..] == xs[k + 1..] && ops[1..][k..] == ops[k + 1..];
    } else {
      assert ops[..0] == [] && xs[..1][0] == xs[0];
    }
  }

  lemma {:induction false} GroupedTokens(xs: seq<Tree>, ops: seq<BinaryOperator>)
    requires |xs| == |ops| + 1
    ensures Tokens(Grouped(xs, ops)) == ChainTokens(xs, ops)
    decreases |ops|
  {
    if ops != [] {
      LoosestIn(ops);
      var k: nat :| LastLoosest(ops, k) && Grouped(xs, ops) ==
        Binary(ops[k], Grouped(xs[..k + 1], ops[..k]), Grouped(xs[k + 1..], ops[k + 1..]));
      GroupedTokens(xs[..k + 1], ops[..k]);
      GroupedTokens(xs[k + 1..], ops[k + 1..]);
      ChainSplits(xs, ops, k);
    }
  }

  lemma {:induction false} GroupedGrammatical(xs: seq<Tree>, ops: seq<BinaryOperator>, level: nat)
    requires IsChain(xs, ops) && Bounded(ops, level) && level <= UNARY
    ensures Grammatical(Grouped(xs, ops)) && Level(Grouped(xs, ops)) >= level
    decreases |ops|
  {
    if ops == [] {
      assert IsOperand(xs[0]);
    } else {
      LoosestIn(ops);
      var k: nat :| LastLoosest(ops, k) && Grouped(xs, ops) ==
        Binary(ops[k], Grouped(xs[..k + 1], ops[..k]), Grouped(xs[k + 1..], ops[k + 1..]));
      LastLoosestLevels(ops, k);
      GroupedGrammatical(xs[..k + 1], ops[..k], Precedence(ops[k]));
      GroupedGrammatical(xs[k + 1..], ops[k + 1..], Precedence(ops[k]) + 1);
    }
  }

  lemma GroupedParses(xs: seq<Tree>, ops: seq<BinaryOperator>, rest: seq<Token>)
    requires IsChain(xs, ops) && Ends(0, rest)
    ensures ParseExpression(ChainTokens(xs, ops) + rest) == Success(Grouped(xs, ops), rest)
  {
    GroupedTokens(xs, ops);
    GroupedGrammatical(xs, ops, 0);
    RoundTripAt(Grouped(xs, ops), 0, rest);
  }

  /** A chain of operands and operators of any length is read as the last operator of its loosest
      group, applied to what is read from the parts before and after it. */
  lemma ChainParses(xs: seq<Tree>, ops: seq<BinaryOperator>, k: nat, rest: seq<Token>) returns (left: Tree, right: Tree)
    requires IsChain(xs, ops) && LastLoosest(ops, k) && Ends(0, rest)
    ensures ParseExpression(ChainTokens(xs[..k + 1], ops[..k])) == Success(left, [])
    ensures ParseExpression(ChainTokens(xs[k + 1..], ops[k + 1..])) == Success(right, [])
    ensures ParseExpression(ChainTokens(xs, ops) + rest) == Success(Binary(ops[k], left, right), rest)
  {
    left, right := Grouped(xs[..k + 1], ops[..k]), Grouped(xs[k + 1..], ops[k + 1..]);
    GroupedParses(xs, ops, rest);
    AllParsed(xs[..k + 1], ops[..k]);
    AllParsed(xs[k + 1..], ops[k + 1..]);
    var l: nat :| LastLoosest(ops, l) && Grouped(xs, ops) ==
      Binary(ops[l], Grouped(xs[..l + 1], ops[..l]), Grouped(xs[l + 1..], ops[l + 1..]));
    LoosestUnique(ops, k, l);
  }

  lemma AllParsed(xs: seq<Tree>, ops: seq<BinaryOperator>)
    requires IsChain(xs, ops)
    ensures ParseExpression(ChainTokens(xs, ops)) == Success(Grouped(xs, ops), [])
  {
    GroupedParses(xs, ops, []);
    assert ChainTokens(xs, ops) + [] == ChainTokens(xs, ops);
  }

  /** Two operators: the tighter one takes the operand between them, and of two in one group the
      first one does. */
  lemma ThreeOperands(a: Tree, op1: BinaryOperator, b: Tree, op2: BinaryOperator, c: Tree, rest: seq<Token>)
    requires IsOperand(a) && IsOperand(b) && IsOperand(c) && Ends(0, rest)
    ensures ParseExpression(Tokens(a) + [BinaryToken(op1)] + Tokens(b) + [BinaryToken(op2)] + Tokens(c) + rest) ==
      Success(if Tighter(op2, op1) then Binary(op1, a, Binary(op2, b, c)) else Binary(op2, Binary(op1, a, b), c), rest)
  {
    TighterIff(op2, op1);
    if Tighter(op2, op1) {
      SecondTakes(a, op1, b, op2, c);
      RoundTripAt(Binary(op1, a, Binary(op2, b, c)), 0, rest);
    } else {
      RoundTripAt(Binary(op2, Binary(op1, a, b), c), 0, rest);
    }
  }

  lemma SecondTakes(a: Tree, op1: BinaryOperator, b: Tree, op2: BinaryOperator, c: Tree)
    ensures Tokens(Binary(op1, a, Binary(op2, b, c))) ==
      Tokens(a) + [BinaryToken(op1)] + Tokens(b) + [BinaryToken(op2)] + Tokens(c)
  {
    AppendedFive(Tokens(a) + [BinaryToken(op1)], Tokens(b), [BinaryToken(op2)], Tokens(c), [], []);
  }

  // ---------- around the binary operators ----------

  /** The token of a unary operator: minus and plus are those of the binary operators. */
  predicate IsSign(op: UnaryOperator, t: Token)
  {
    match op
    case Minus => t == BinaryToken(Subtract)
    case Plus => t == BinaryToken(Add)
    case BitwiseComplement => t == ComplementToken
    case Not => t == NotToken
  }

  /** A unary operator binds tighter than any binary one. */
  lemma UnaryBinds(sign: UnaryOperator, t: Token, a: Tree, op: BinaryOperator, b: Tree, rest: seq<Token>)
    requires IsSign(sign, t) && IsOperand(a) && IsOperand(b) && Ends(0, rest)
    ensures ParseExpression([t] + Tokens(a) + [BinaryToken(op)] + Tokens(b) + rest)
      == Success(Binary(op, Unary(sign, a), b), rest)
  {
    RoundTripAt(Binary(op, Unary(sign, a), b), 0, rest);
  }

  /** Subscript and selection bind tighter than the unary operators. */
  lemma PostfixBinds(sign: UnaryOperator, t: Token, a: Tree, b: Tree, name: string, rest: seq<Token>)
    requires IsSign(sign, t) && IsOperand(a) && !a.Unary? && Grammatical(b) && Ends(0, rest)
    ensures ParseExpression([t] + (Tokens(a) + [OpenBox] + Tokens(b) + [CloseBox]) + rest)
      == Success(Unary(sign, Subscript(a, b)), rest)
    ensures ParseExpression([t] + (Tokens(a) + [Dot, IdentifierToken(name)]) + rest)
      == Success(Unary(sign, Selection(a, name)), rest)
  {
    RoundTripAt(Unary(sign, Subscript(a, b)), 0, rest);
    RoundTripAt(Unary(sign, Selection(a, name)), 0, rest);
  }

  /** The conditional is looser than every binary operator. */
  lemma ConditionalBinds(a: Tree, op1: BinaryOperator, b: Tree, c: Tree, d: Tree, op2: BinaryOperator, e: Tree,
                         rest: seq<Token>)
    requires IsOperand(a) && IsOperand(b) && IsOperand(c) && IsOperand(d) && IsOperand(e) && Ends(0, rest)
    ensures ParseExpression(Tokens(a) + [BinaryToken(op1)] + Tokens(b) + [QMark] + Tokens(c) + [Colon]
                            + (Tokens(d) + [BinaryToken(op2)] + Tokens(e)) + rest)
      == Success(Conditional(Binary(op1, a, b), c, Binary(op2, d, e)), rest)
  {
    Written(op1, a, b);
    Written(op2, d, e);
    Alternatives(Binary(op1, a, b), c, Binary(op2, d, e), rest);
  }

  lemma Written(op: BinaryOperator, a: Tree, b: Tree)
    requires IsOperand(a) && IsOperand(b)
    ensures Tokens(Binary(op, a, b)) == Tokens(a) + [BinaryToken(op)] + Tokens(b) && Grammatical(Binary(op, a, b))
  {
  }

  /** Conditionals group from the right. */
  lemma ConditionalGroups(a: Tree, b: Tree, c: Tree, d: Tree, e: Tree, rest: seq<Token>)
    requires IsOperand(a) && IsOperand(b) && IsOperand(c) && IsOperand(d) && IsOperand(e) && Ends(0, rest)
    ensures ParseExpression(Tokens(a) + [QMark] + Tokens(b) + [Colon]
                            + (Tokens(c) + [QMark] + Tokens(d) + [Colon] + Tokens(e)) + rest)
      == Success(Conditional(a, b, Conditional(c, d, e)), rest)
  {
    Alternatives(a, b, Conditional(c, d, e), rest);
  }

  lemma Alternatives(a: Tree, b: Tree, c: Tree, rest: seq<Token>)
    requires Grammatical(a) && !a.Conditional? && Grammatical(b) && Grammatical(c) && Ends(0, rest)
    ensures ParseExpression(Tokens(a) + [QMark] + Tokens(b) + [Colon] + Tokens(c) + rest)
      == Success(Conditional(a, b, c), rest)
  {
    RoundTripAt(Conditional(a, b, c), 0, rest);
  }
}
