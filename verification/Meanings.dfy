/**
 What evaluation means (src/classad/operators.cpp, src/classad/attrrefs.cpp): a relation between
 an expression and its value that is given by laws on numbers, bits and truth values, and the
 proof that `Evaluate` computes exactly this relation.
 */
module Meanings {
  import opened Options
  import opened Expressions
  import opened Words

  // ---------- numbers ----------

  /** Booleans count as 0 and 1. */
  predicate Counts(v: Value, n: int)
  {
    (v.Int? && v.i == n) || (v == Bool(true) && n == 1) || (v == Bool(false) && n == 0)
  }

  function Magnitude(x: int): nat
  {
    if x < 0 then -x else x
  }

  /** Quotient and remainder of a division toward zero. */
  predicate Divides(n: int, d: int, q: int, r: int)
  {
    n == d * q + r && Magnitude(r) < Magnitude(d) && (r < 0 ==> n < 0) && (r > 0 ==> n > 0)
  }

  /** Bit i of the two's complement form, which goes on to the left without end. */
  predicate Bit(x: int, i: nat)
    decreases i
  {
    if i == 0 then x % 2 == 1 else Bit(x / 2, i - 1)
  }

  ghost predicate NumbersMean(op: BinaryOp, a: int, b: int, r: Value)
  {
    match op
    case LessThan => r == Bool(a < b)
    case LessOrEqual => r == Bool(a < b || a == b)
    case GreaterOrEqual => r == Bool(b < a || a == b)
    case GreaterThan => r == Bool(b < a)
    case Equal | MetaEqual => r == Bool(a == b)
    case NotEqual | MetaNotEqual => r == Bool(a != b)
    case Addition => r.Int? && Congruent(r.i, a + b)
    case Subtraction => r.Int? && Congruent(r.i + b, a)
    case Multiplication => r.Int? && Congruent(r.i, a * b)
    case Division => if b == 0 then r.Error? else r.Int? && exists q, m :: Divides(a, b, q, m) && Congruent(r.i, q)
    case Modulus => if b == 0 then r.Error? else r.Int? && exists q :: Divides(a, b, q, r.i)
    case _ => true
  }

  // ---------- words ----------

  predicate IsWordOperator(op: BinaryOp)
  {
    op in {BitwiseOr, BitwiseXor, BitwiseAnd, LeftShift, RightShift, UnsignedRightShift}
  }

  /** What bit i of the result is. A shift to the right fills up with the sign bit, an unsigned
      one with zeros; a negative count leaves a word as it is. */
  predicate BitMeans(op: BinaryOp, a: int, b: int, i: nat)
  {
    match op
    case BitwiseOr => Bit(a, i) || Bit(b, i)
    case BitwiseXor => Bit(a, i) != Bit(b, i)
    case BitwiseAnd => Bit(a, i) && Bit(b, i)
    case LeftShift => 0 <= b <= i && Bit(a, i - b)
    case RightShift => if b < 0 then Bit(a, i) else if i + b < 32 then Bit(a, i + b) else a < 0
    case _ => b >= 0 && i + b < 32 && Bit(a, i + b)
  }

  /** A word with the bits that the operator means. */
  ghost predicate HasBits(op: BinaryOp, a: int32, b: int32, w: int32)
  {
    forall i: nat :: i < 32 ==> (Bit(w, i) <==> BitMeans(op, a, b, i))
  }

  /** The word can be shifted by this count: always for a negative word to the right, and if its
      bits are taken as unsigned then by one place at least. */
  predicate HasShift(op: BinaryOp, a: int, b: int)
  {
    match op
    case LeftShift => 0 <= b <= 31
    case RightShift => a < 0 || 0 <= b <= 31
    case _ => if a < 0 then 1 <= b <= 31 else 0 <= b <= 31
  }

  /** A shift that the language leaves undefined is an error here. */
  ghost predicate WordsMean(op: BinaryOp, a: int32, b: int32, r: Value)
  {
    if op in {LeftShift, RightShift, UnsignedRightShift} && !HasShift(op, a, b) then r.Error?
    else r.Int? && HasBits(op, a, b, r.i)
  }

  // ---------- truth values ----------

  predicate IsTruth(v: Value)
  {
    v.Bool? || v.Undefined?
  }

  /** False, undefined and true, in this order. */
  function Truth(v: Value): int
    requires IsTruth(v)
  {
    if v == Bool(false) then 0 else if v.Undefined? then 1 else 2
  }

  /** The first operand decides the result: the second one is not evaluated. */
  predicate Decides(op: BinaryOp, v: Value)
  {
    (op == LogicalOr && v == Bool(true)) || (op == LogicalAnd && v == Bool(false))
  }

  /** && is the lesser and || the greater of two truth values; anything else is an error. */
  predicate TruthsMean(op: BinaryOp, v1: Value, v2: Value, r: Value)
  {
    if !IsTruth(v1) || !IsTruth(v2) then r.Error?
    else
      IsTruth(r) && Truth(r) in {Truth(v1), Truth(v2)} &&
      if op == LogicalAnd then Truth(r) <= Truth(v1) && Truth(r) <= Truth(v2)
      else Truth(r) >= Truth(v1) && Truth(r) >= Truth(v2)
  }

  // ---------- operators ----------

  predicate IsExceptional(v: Value)
  {
    v.Undefined? || v.Error?
  }

  ghost predicate BinaryMeans(op: BinaryOp, v1: Value, v2: Value, r: Value)
  {
    if op in {LogicalAnd, LogicalOr} then TruthsMean(op, v1, v2, r)
    else if op in {MetaEqual, MetaNotEqual} && (IsExceptional(v1) || IsExceptional(v2)) then
      r == Bool((v1 == v2) == (op == MetaEqual))
    else if v1.Error? || v2.Error? then r.Error?
    else if v1.Undefined? || v2.Undefined? then r.Undefined?
    else if IsWordOperator(op) then if v1.Int? && v2.Int? then WordsMean(op, v1.i, v2.i, r) else r.Error?
    else forall a, b :: Counts(v1, a) && Counts(v2, b) ==> NumbersMean(op, a, b, r)
  }

  ghost predicate UnaryMeans(op: UnaryOp, v: Value, r: Value)
  {
    if op == Parentheses || IsExceptional(v) then r == v
    else if op == LogicalNot then if v.Bool? then r.Bool? && r != v else r.Error?
    else if !v.Int? then r.Error?
    else
      r.Int? &&
      match op
      case UnaryMinus => Congruent(r.i + v.i, 0)
      case BitwiseNot => forall i: nat :: i < 32 ==> (Bit(r.i, i) <==> !Bit(v.i, i))
      case _ => r == v
  }

  // ---------- expressions ----------

  /** The expression has the value r; it has none if a chain of references is too deep. */
  ghost predicate HasValue(e: Expr, scope: Scope, depth: nat, r: Value)
    decreases depth, e, 0
  {
    match e
    case Literal(v) => r == v
    case AttributeReference(name) =>
      if name in scope.known then depth > 0 && HasValue(scope.known[name], scope, depth - 1, r)
      else r == if name in scope.open then scope.open[name] else Undefined
    case Unary(op, child) => exists v :: HasValue(child, scope, depth, v) && UnaryMeans(op, v, r)
    case Binary(op, child1, child2) =>
      exists v1 :: HasValue(child1, scope, depth, v1) && SecondGives(op, v1, child2, scope, depth, r)
    case Ternary(selector, ifTrue, ifFalse) =>
      exists v ::
        && HasValue(selector, scope, depth, v)
        && if v == Bool(true) then HasValue(ifTrue, scope, depth, r)
           else if v == Bool(false) then HasValue(ifFalse, scope, depth, r)
           else
             && r == (if v.Undefined? then Undefined else Error)
             && (exists v2 :: HasValue(ifTrue, scope, depth, v2)) && (exists v3 :: HasValue(ifFalse, scope, depth, v3))
  }

  /** What is left of a binary operation whose first operand has the value v1. */
  ghost predicate SecondGives(op: BinaryOp, v1: Value, child2: Expr, scope: Scope, depth: nat, r: Value)
    decreases depth, child2, 1
  {
    if Decides(op, v1) then r == v1
    else exists v2 :: HasValue(child2, scope, depth, v2) && BinaryMeans(op, v1, v2, r)
  }

  // ---------- wrapping ----------

  /** The word that is congruent to a number is unique. */
  lemma OneWord(u: int32, v: int32, x: int)
    requires Congruent(u, x) && Congruent(v, x)
    ensures u == v
  {
    CongruentBack(v, x);
    CongruentChain(u, x, v);
    CongruentWords(u, v);
  }

  lemma Moved(x: int, y: int, b: int)
    requires Congruent(x, y)
    ensures Congruent(x + b, y + b)
  {
    var k :| IsShifted(x, y, k);
    assert IsShifted(x + b, y + b, k);
  }

  // ---------- division ----------

  lemma QuotientDivides(a: int, b: int)
    requires b != 0
    ensures Divides(a, b, Quotient(a, b), Remainder(a, b))
  {
    var n := Magnitude(a);
    EuclideanDivision(n, b);
    if a >= 0 {
      AboveZero(a, b, n / b, n % b);
    } else {
      BelowZero(a, b, n / b, n % b);
    }
  }

  lemma AboveZero(a: int, b: int, q: int, m: int)
    requires a >= 0 && a == b * q + m && 0 <= m < Magnitude(b)
    ensures Divides(a, b, q, a - b * q)
  {
    assert a - b * q == m;
  }

  lemma BelowZero(a: int, b: int, q: int, m: int)
    requires a < 0 && -a == b * q + m && 0 <= m < Magnitude(b)
    ensures Divides(a, b, -q, a - b * -q)
  {
    assert b * -q == -(b * q);
  }

  lemma EuclideanDivision(n: int, b: int)
    requires b != 0
    ensures n == b * (n / b) + n % b && 0 <= n % b < Magnitude(b)
  {
  }

  lemma DivisionUnique(a: int, b: int, q: int, m: int, q': int, m': int)
    requires Divides(a, b, q, m) && Divides(a, b, q', m')
    ensures q == q' && m == m'
  {
    var k := q - q';
    assert b * k == b * q - b * q' == m' - m;
    if k != 0 {
      MultipleIsLarge(b, k);
      assert false;
    }
  }

  lemma MultipleIsLarge(b: int, k: int)
    requires k != 0
    ensures Magnitude(b * k) >= Magnitude(b)
  {
    if b > 0 {
      MultipleOf(b, k);
    } else if b < 0 {
      MultipleOf(-b, k);
      assert -b * k == -(b * k);
    }
  }

  // ---------- bits ----------

  lemma {:induction false} BitsAt(x: int, n: nat, i: nat)
    requires i < n
    ensures Bits(x, n)[i] == Bit(x, i)
    decreases n
  {
    if i > 0 {
      BitsAt(x / 2, n - 1, i - 1);
    }
  }

  /** A word is determined by its bits. */
  lemma SameWord(u: int32, v: int32)
    requires forall i: nat :: i < 32 ==> (Bit(u, i) <==> Bit(v, i))
    ensures u == v
  {
    forall i | 0 <= i < 32 ensures Bits(u, WORD_BITS)[i] == Bits(v, WORD_BITS)[i] {
      BitsAt(u, WORD_BITS, i);
      BitsAt(v, WORD_BITS, i);
    }
    EqualBits(u, v);
  }

  lemma {:induction false} BitIgnoresHigh(x: int, k: int, n: nat, i: nat)
    requires i < n
    ensures Bit(x + k * Power2(n), i) == Bit(x, i)
    decreases n
  {
    var p := k * Power2(n - 1);
    assert k * Power2(n) == 2 * p;
    assert (x + 2 * p) / 2 == x / 2 + p && (x + 2 * p) % 2 == x % 2;
    if i > 0 {
      BitIgnoresHigh(x / 2, k, n - 1, i - 1);
    }
  }

  lemma BitOfWrapped(x: int, i: nat)
    requires i < 32
    ensures Bit(Wrap(x), i) == Bit(x, i)
  {
    var k := WrapShift(x);
    Power2Of32();
    BitIgnoresHigh(x, k, 32, i);
  }

  /** From some place on all bits are the sign bit. */
  lemma {:induction false} SignBits(x: int, n: nat, i: nat)
    requires n <= i && -(Power2(n) as int) <= x < Power2(n)
    ensures Bit(x, i) == (x < 0)
    decreases i
  {
    if i > 0 {
      var m := if n > 0 then n - 1 else 0;
      assert -(Power2(m) as int) <= x / 2 < Power2(m);
      SignBits(x / 2, m, i - 1);
    }
  }

  lemma {:induction false} BitAfterRightShift(x: int, n: nat, i: nat)
    ensures Bit(x / Power2(n), i) == Bit(x, i + n)
    decreases n
  {
    if n > 0 {
      HalvedPower(x, n - 1);
      BitAfterRightShift(x, n - 1, i + 1);
    }
  }

  lemma {:induction false} BitAfterLeftShift(x: int, n: nat, i: nat)
    ensures Bit(x * Power2(n), i) == (i >= n && Bit(x, i - n))
    decreases n
  {
    if n > 0 {
      var p := x * Power2(n - 1);
      assert x * Power2(n) == 2 * p;
      assert (2 * p) / 2 == p && (2 * p) % 2 == 0;
      if i > 0 {
        BitAfterLeftShift(x, n - 1, i - 1);
      }
    }
  }

  lemma BitwiseMeans(op: BinaryOp, a: int32, b: int32, i: nat)
    requires op in {BitwiseOr, BitwiseXor, BitwiseAnd} && i < 32
    ensures Bit(BitwiseWord(op, a, b), i) == BitMeans(op, a, b, i)
  {
    var w := BitwiseWord(op, a, b);
    BitsOfWord(op, a, b);
    BitsAt(w, WORD_BITS, i);
    BitsAt(a, WORD_BITS, i);
    BitsAt(b, WORD_BITS, i);
  }

  lemma ShiftMeans(op: BinaryOp, a: int32, b: int32, i: nat)
    requires op in {LeftShift, RightShift, UnsignedRightShift} && ShiftDefined(op, a, b) && i < 32
    ensures Bit(ShiftedWord(op, a, b), i) == BitMeans(op, a, b, i)
  {
    if op == LeftShift {
      BitOfWrapped(a * Power2(b), i);
      BitAfterLeftShift(a, b, i);
    } else {
      var w := if op == RightShift || a >= 0 then a else a + 0x1_0000_0000;
      var n := if b > 0 then b as int else 0;
      BitOfWrapped(w / Power2(n), i);
      BitAfterRightShift(w, n, i);
      ShiftedIn(op, a, w, i + n);
    }
  }

  /** The bits of the number that is divided in a shift to the right. */
  lemma ShiftedIn(op: BinaryOp, a: int32, w: int, j: nat)
    requires w == if op == RightShift || a >= 0 then a else a + 0x1_0000_0000
    ensures Bit(w, j) == if j < 32 then Bit(a, j) else op == RightShift && a < 0
  {
    Power2Of32();
    if j < 32 {
      if w != a {
        BitIgnoresHigh(a, 1, 32, j);
      }
    } else {
      SignBits(w, 32, j);
    }
  }

  lemma BitwiseComputed(op: BinaryOp, a: int32, b: int32)
    requires op in {BitwiseOr, BitwiseXor, BitwiseAnd}
    ensures WordsMean(op, a, b, Int(BitwiseWord(op, a, b)))
  {
    forall i: nat | i < 32 ensures Bit(BitwiseWord(op, a, b), i) == BitMeans(op, a, b, i) {
      BitwiseMeans(op, a, b, i);
    }
  }

  lemma ShiftComputed(op: BinaryOp, a: int32, b: int32)
    requires op in {LeftShift, RightShift, UnsignedRightShift}
    ensures WordsMean(op, a, b, DoShift(op, Int(a), Int(b)))
  {
    assert ShiftDefined(op, a, b) == HasShift(op, a, b);
    if ShiftDefined(op, a, b) {
      forall i: nat | i < 32 ensures Bit(ShiftedWord(op, a, b), i) == BitMeans(op, a, b, i) {
        ShiftMeans(op, a, b, i);
      }
    }
  }

  lemma WordsComputed(op: BinaryOp, a: int32, b: int32)
    requires IsWordOperator(op)
    ensures WordsMean(op, a, b, DoBinary(op, Int(a), Int(b)))
  {
    WordOperator(op, a, b);
    if IsShift(op) {
      ShiftComputed(op, a, b);
    } else {
      BitwiseComputed(op, a, b);
    }
  }

  lemma WordOperator(op: BinaryOp, a: int32, b: int32)
    requires IsWordOperator(op)
    ensures DoBinary(op, Int(a), Int(b)) == if IsShift(op) then DoShift(op, Int(a), Int(b)) else Int(BitwiseWord(op, a, b))
  {
  }

  // ---------- the operators compute what they mean ----------

  lemma NumbersComputed(op: BinaryOp, v1: Value, v2: Value, a: int, b: int)
    requires Counts(v1, a) && Counts(v2, b) && !IsWordOperator(op) && op !in {LogicalAnd, LogicalOr}
    ensures NumbersMean(op, a, b, DoBinary(op, v1, v2))
  {
    assert AsInteger(v1) == a && AsInteger(v2) == b;
    if IsComparison(op) {
      assert DoBinary(op, v1, v2) == Bool(CompareIntegers(op, a, b));
    } else {
      assert DoBinary(op, v1, v2) == DoArithmetic(op, v1, v2);
      ArithmeticComputed(op, v1, v2, a, b);
    }
  }

  lemma ArithmeticComputed(op: BinaryOp, v1: Value, v2: Value, a: int32, b: int32)
    requires IsNumeric(v1) && IsNumeric(v2) && AsInteger(v1) == a && AsInteger(v2) == b
    requires op in {Addition, Subtraction, Multiplication, Division, Modulus}
    ensures NumbersMean(op, a, b, DoArithmetic(op, v1, v2))
  {
    match op {
      case Addition => WrapCongruent(a + b);
      case Subtraction =>
        WrapCongruent(a - b);
        Moved(Wrap(a - b), a - b, b);
      case Multiplication => WrapCongruent(a * b);
      case _ =>
        if b != 0 {
          DivisionComputed(a, b);
        }
    }
  }

  lemma DivisionComputed(a: int32, b: int32)
    requires b != 0
    ensures NumbersMean(Division, a, b, Int(Wrap(Quotient(a, b)))) && NumbersMean(Modulus, a, b, Int(Wrap(Remainder(a, b))))
  {
    QuotientDivides(a, b);
    WrapCongruent(Quotient(a, b));
    SmallRemainder(a, b);
  }

  lemma SmallRemainder(a: int, b: int32)
    requires b != 0
    ensures Wrap(Remainder(a, b)) == Remainder(a, b)
  {
    QuotientDivides(a, b);
  }

  lemma BinaryComputed(op: BinaryOp, v1: Value, v2: Value)
    requires !Decides(op, v1)
    ensures BinaryMeans(op, v1, v2, DoBinary(op, v1, v2))
  {
    if op !in {LogicalAnd, LogicalOr} && !IsExceptional(v1) && !IsExceptional(v2) {
      if IsWordOperator(op) {
        if v1.Int? && v2.Int? {
          WordsComputed(op, v1.i, v2.i);
        }
      } else {
        forall a, b | Counts(v1, a) && Counts(v2, b) ensures NumbersMean(op, a, b, DoBinary(op, v1, v2)) {
          NumbersComputed(op, v1, v2, a, b);
        }
      }
    }
  }

  lemma UnaryComputed(op: UnaryOp, v: Value)
    ensures UnaryMeans(op, v, DoUnary(op, v))
  {
    if v.Int? {
      if op == UnaryMinus {
        WrapCongruent(0 - v.i as int);
        Moved(Wrap(0 - v.i as int), 0 - v.i as int, v.i);
      } else if op == BitwiseNot {
        forall i: nat | i < 32 ensures Bit(-1 - v.i, i) <==> !Bit(v.i, i) {
          ComplementBit(v.i, i);
        }
      }
    }
  }

  lemma {:induction false} ComplementBit(x: int, i: nat)
    ensures Bit(-1 - x, i) == !Bit(x, i)
    decreases i
  {
    assert (-1 - x) / 2 == -1 - x / 2;
    if i > 0 {
      ComplementBit(x / 2, i - 1);
    }
  }

  // ---------- the meaning determines the value ----------

  lemma NumbersUnique(op: BinaryOp, a: int, b: int, r: Value, r': Value)
    requires NumbersMean(op, a, b, r) && NumbersMean(op, a, b, r')
    requires !IsWordOperator(op) && op !in {LogicalAnd, LogicalOr}
    ensures r == r'
  {
    match op {
      case Addition =>
        OneWord(r.i, r'.i, a + b);
      case Subtraction =>
        Moved(r.i + b, a, -b);
        Moved(r'.i + b, a, -b);
        OneWord(r.i, r'.i, a - b);
      case Multiplication =>
        OneWord(r.i, r'.i, a * b);
      case Division =>
        if b != 0 {
          var q, m :| Divides(a, b, q, m) && Congruent(r.i, q);
          var q', m' :| Divides(a, b, q', m') && Congruent(r'.i, q');
          DivisionUnique(a, b, q, m, q', m');
          OneWord(r.i, r'.i, q);
        }
      case Modulus =>
        if b != 0 {
          var q :| Divides(a, b, q, r.i);
          var q' :| Divides(a, b, q', r'.i);
          DivisionUnique(a, b, q, r.i, q', r'.i);
        }
      case _ =>
    }
  }

  lemma BinaryUnique(op: BinaryOp, v1: Value, v2: Value, r: Value, r': Value)
    requires BinaryMeans(op, v1, v2, r) && BinaryMeans(op, v1, v2, r')
    ensures r == r'
  {
    if op !in {LogicalAnd, LogicalOr} && !IsExceptional(v1) && !IsExceptional(v2) {
      if IsWordOperator(op) {
        if r.Int? && r'.Int? {
          SameWord(r.i, r'.i);
        }
      } else {
        var a, b := AsInteger(v1), AsInteger(v2);
        assert Counts(v1, a) && Counts(v2, b);
        NumbersUnique(op, a, b, r, r');
      }
    }
  }

  lemma UnaryUnique(op: UnaryOp, v: Value, r: Value, r': Value)
    requires UnaryMeans(op, v, r) && UnaryMeans(op, v, r')
    ensures r == r'
  {
    if v.Int? && op == UnaryMinus {
      Moved(r.i + v.i, 0, 0 - v.i as int);
      Moved(r'.i + v.i, 0, 0 - v.i as int);
      OneWord(r.i, r'.i, 0 - v.i as int);
    } else if v.Int? && op == BitwiseNot {
      SameWord(r.i, r'.i);
    }
  }

  // ---------- evaluation ----------

  /** Evaluation computes the meaning: an expression evaluates to a value if and only if that is
      what its operators and attributes mean. */
  lemma {:induction false} EvaluatesIff(e: Expr, scope: Scope, depth: nat, r: Value)
    ensures Evaluate(e, scope, depth) == Some(r) <==> HasValue(e, scope, depth, r)
    decreases depth, e
  {
    match e
    case Literal(_) =>
    case AttributeReference(name) =>
      if name in scope.known && depth > 0 {
        EvaluatesIff(scope.known[name], scope, depth - 1, r);
      }
    case Unary(op, child) =>
      forall v ensures Evaluate(child, scope, depth) == Some(v) <==> HasValue(child, scope, depth, v) {
        EvaluatesIff(child, scope, depth, v);
      }
      UnaryEvaluates(op, child, scope, depth, r);
    case Binary(op, child1, child2) =>
      forall v ensures Evaluate(child1, scope, depth) == Some(v) <==> HasValue(child1, scope, depth, v) {
        EvaluatesIff(child1, scope, depth, v);
      }
      forall v ensures Evaluate(child2, scope, depth) == Some(v) <==> HasValue(child2, scope, depth, v) {
        EvaluatesIff(child2, scope, depth, v);
      }
      BinaryEvaluates(op, child1, child2, scope, depth, r);
    case Ternary(selector, ifTrue, ifFalse) =>
      forall v ensures Evaluate(selector, scope, depth) == Some(v) <==> HasValue(selector, scope, depth, v) {
        EvaluatesIff(selector, scope, depth, v);
      }
      forall v ensures Evaluate(ifTrue, scope, depth) == Some(v) <==> HasValue(ifTrue, scope, depth, v) {
        EvaluatesIff(ifTrue, scope, depth, v);
      }
      forall v ensures Evaluate(ifFalse, scope, depth) == Some(v) <==> HasValue(ifFalse, scope, depth, v) {
        EvaluatesIff(ifFalse, scope, depth, v);
      }
      TernaryEvaluates(selector, ifTrue, ifFalse, scope, depth, r);
  }

  /** The relation and the function agree on the expression. */
  ghost predicate Agrees(e: Expr, scope: Scope, depth: nat)
  {
    forall v :: Evaluate(e, scope, depth) == Some(v) <==> HasValue(e, scope, depth, v)
  }

  lemma UnaryEvaluates(op: UnaryOp, child: Expr, scope: Scope, depth: nat, r: Value)
    requires Agrees(child, scope, depth)
    ensures Evaluate(Unary(op, child), scope, depth) == Some(r) <==> HasValue(Unary(op, child), scope, depth, r)
  {
    if v :| HasValue(child, scope, depth, v) {
      UnaryComputed(op, v);
      if UnaryMeans(op, v, r) {
        UnaryUnique(op, v, r, DoUnary(op, v));
      }
    }
  }

  lemma BinaryEvaluates(op: BinaryOp, child1: Expr, child2: Expr, scope: Scope, depth: nat, r: Value)
    requires Agrees(child1, scope, depth) && Agrees(child2, scope, depth)
    ensures Evaluate(Binary(op, child1, child2), scope, depth) == Some(r)
       <==> HasValue(Binary(op, child1, child2), scope, depth, r)
  {
    var v1 := Evaluate(child1, scope, depth);
    if v1.Some? {
      assert HasValue(child1, scope, depth, v1.value);
      SecondEvaluates(op, v1.value, child2, scope, depth, r);
    }
  }

  lemma SecondEvaluates(op: BinaryOp, v1: Value, child2: Expr, scope: Scope, depth: nat, r: Value)
    requires Agrees(child2, scope, depth)
    ensures SecondGives(op, v1, child2, scope, depth, r) <==>
      if ShortCircuits(op, v1) then r == v1
      else Evaluate(child2, scope, depth).Some? && r == DoBinary(op, v1, Evaluate(child2, scope, depth).value)
  {
    var v2 := Evaluate(child2, scope, depth);
    if v2.Some? && !Decides(op, v1) {
      assert HasValue(child2, scope, depth, v2.value);
      MeansIff(op, v1, v2.value, r);
    }
  }

  lemma MeansIff(op: BinaryOp, v1: Value, v2: Value, r: Value)
    requires !Decides(op, v1)
    ensures BinaryMeans(op, v1, v2, r) <==> r == DoBinary(op, v1, v2)
  {
    BinaryComputed(op, v1, v2);
    if BinaryMeans(op, v1, v2, r) {
      BinaryUnique(op, v1, v2, r, DoBinary(op, v1, v2));
    }
  }

  lemma TernaryEvaluates(selector: Expr, ifTrue: Expr, ifFalse: Expr, scope: Scope, depth: nat, r: Value)
    requires Agrees(selector, scope, depth) && Agrees(ifTrue, scope, depth) && Agrees(ifFalse, scope, depth)
    ensures Evaluate(Ternary(selector, ifTrue, ifFalse), scope, depth) == Some(r)
       <==> HasValue(Ternary(selector, ifTrue, ifFalse), scope, depth, r)
  {
  }
}
