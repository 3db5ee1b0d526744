/**
 ClassAd expressions over integers and booleans, and their evaluation
 (src/classad/operators.cpp, src/classad/literals.cpp, src/classad/attrrefs.cpp), in the
 default (new) ClassAd semantics. Integers are 32 bits wide and wrap around.
 */
module Expressions {
  import opened Options

  const INT_MIN: int := -0x8000_0000
  const INT_MAX: int := 0x7FFF_FFFF
  const WORD_BITS: nat := 32

  type int32 = i: int | INT_MIN <= i <= INT_MAX

  datatype Value = Undefined | Error | Bool(b: bool) | Int(i: int32)

  datatype UnaryOp = UnaryPlus | UnaryMinus | LogicalNot | BitwiseNot | Parentheses

  datatype BinaryOp =
    | LessThan | LessOrEqual | NotEqual | Equal | GreaterOrEqual | GreaterThan | MetaEqual | MetaNotEqual
    | Addition | Subtraction | Multiplication | Division | Modulus
    | LogicalOr | LogicalAnd
    | BitwiseOr | BitwiseXor | BitwiseAnd
    | LeftShift | RightShift | UnsignedRightShift

  datatype Expr =
    | Literal(value: Value)
    | AttributeReference(name: string)
    | Unary(uop: UnaryOp, child: Expr)
    | Binary(op: BinaryOp, child1: Expr, child2: Expr)
    | Ternary(selector: Expr, ifTrue: Expr, ifFalse: Expr)

  // ---------- values ----------

  function Wrap(x: int): int32
  {
    (x - INT_MIN) % 0x1_0000_0000 + INT_MIN
  }

  /** The lowest `n` bits of the two's complement form, lowest first. */
  function Bits(x: int, n: nat): (bits: seq<bool>)
    ensures |bits| == n
    decreases n
  {
    if n == 0 then [] else [x % 2 == 1] + Bits(x / 2, n - 1)
  }

  function Number(bits: seq<bool>): nat
  {
    if bits == [] then 0 else (if bits[0] then 1 else 0) + 2 * Number(bits[1..])
  }

  function Pointwise(op: BinaryOp, a: seq<bool>, b: seq<bool>): (c: seq<bool>)
    requires |a| == |b|
    ensures |c| == |a|
  {
    seq(|a|, i requires 0 <= i < |a| =>
      if op == BitwiseOr then a[i] || b[i] else if op == BitwiseXor then a[i] != b[i] else a[i] && b[i])
  }

  function BitwiseWord(op: BinaryOp, a: int, b: int): int32
  {
    Wrap(Number(Pointwise(op, Bits(a, WORD_BITS), Bits(b, WORD_BITS))))
  }

  /** C division and remainder: toward zero, the remainder with the sign of the dividend. */
  function Quotient(a: int, b: int): int
    requires b != 0
  {
    if a >= 0 then a / b else -((-a) / b)
  }

  function Remainder(a: int, b: int): int
    requires b != 0
  {
    a - b * Quotient(a, b)
  }

  predicate IsComparison(op: BinaryOp)
  {
    op in {LessThan, LessOrEqual, NotEqual, Equal, GreaterOrEqual, GreaterThan, MetaEqual, MetaNotEqual}
  }

  predicate IsLogical(op: BinaryOp)
  {
    op == LogicalOr || op == LogicalAnd
  }

  predicate IsBitwise(op: BinaryOp)
  {
    op == BitwiseOr || op == BitwiseXor || op == BitwiseAnd
  }

  predicate IsShift(op: BinaryOp)
  {
    op == LeftShift || op == RightShift || op == UnsignedRightShift
  }

  predicate IsStrict(op: BinaryOp)
  {
    !(op == MetaEqual || op == MetaNotEqual || IsLogical(op))
  }

  /** Booleans take part in arithmetic and comparison as 0 and 1. */
  function AsInteger(v: Value): int32
    requires v.Bool? || v.Int?
  {
    if v.Bool? then (if v.b then 1 else 0) else v.i
  }

  function CompareIntegers(op: BinaryOp, a: int, b: int): bool
    requires IsComparison(op)
  {
    match op
    case LessThan => a < b
    case LessOrEqual => a <= b
    case NotEqual => a != b
    case Equal => a == b
    case GreaterOrEqual => a >= b
    case GreaterThan => a > b
    case MetaEqual => a == b
    case MetaNotEqual => a != b
  }

  function DoComparison(op: BinaryOp, v1: Value, v2: Value): Value
    requires IsComparison(op)
  {
    if (v1.Bool? || v1.Int?) && (v2.Bool? || v2.Int?) then
      Bool(CompareIntegers(op, AsInteger(v1), AsInteger(v2)))
    else if op == MetaEqual then Bool(v1 == v2)
    else if op == MetaNotEqual then Bool(v1 != v2)
    else Error
  }

  function DoArithmetic(op: BinaryOp, v1: Value, v2: Value): Value
  {
    if !(v1.Bool? || v1.Int?) || !(v2.Bool? || v2.Int?) then Error
    else
      var i1, i2 := AsInteger(v1), AsInteger(v2);
      match op
      case Addition => Int(Wrap(i1 + i2))
      case Subtraction => Int(Wrap(i1 - i2))
      case Multiplication => Int(Wrap(i1 * i2))
      case Division => if i2 != 0 then Int(Wrap(Quotient(i1, i2))) else Error
      case Modulus => if i2 != 0 then Int(Wrap(Remainder(i1, i2))) else Error
      case _ => Error
  }

  function DoBitwise(op: BinaryOp, v1: Value, v2: Value): Value
  {
    if !v1.Int? || !v2.Int? then Error
    else
      Int(BitwiseWord(op, v1.i, v2.i))
  }

  /** The language defines the shift: a count within the word, and at least one for the unsigned
      shift of a negative word. A negative word is shifted to the right by a loop, which every
      count defines. */
  predicate ShiftDefined(op: BinaryOp, word: int, count: int)
  {
    (op == RightShift && word < 0) ||
    (0 <= count < WORD_BITS && (op == UnsignedRightShift && word < 0 ==> count > 0))
  }

  /** What the shift amounts to where it is defined. */
  function ShiftedWord(op: BinaryOp, word: int, count: int): int32
  {
    var power := Power2(if count > 0 then count else 0);
    match op
    case LeftShift => Wrap(word * power)
    case RightShift => Wrap(word / power)
    case _ => Wrap((if word >= 0 then word else word + 0x1_0000_0000) / power)
  }

  /** Undefined shifts have no value of their own here; Tame excludes them. */
  function DoShift(op: BinaryOp, v1: Value, v2: Value): Value
  {
    if !v1.Int? || !v2.Int? || !ShiftDefined(op, v1.i, v2.i) then Error
    else Int(ShiftedWord(op, v1.i, v2.i))
  }

  /** The loop that shifts a negative word to the right, setting the sign bit each time. */
  method ShiftNegative(word: int32, count: int) returns (val: int32)
    requires word < 0
    ensures val == ShiftedWord(RightShift, word, count)
    ensures count <= 0 ==> val == word
    ensures count >= 31 ==> val == -1
  {
    val := word;
    var i := 0;
    Power2Of32();
    while i < count
      invariant 0 <= i && (i <= count || i == 0)
      invariant val < 0 && val == word / Power2(i)
      invariant val >= -(Power2(if i < 31 then 31 - i else 0) as int)
    {
      HalvedPower(word, i);
      val, i := val / 2, i + 1;
    }
    assert Wrap(val) == val;
  }

  lemma HalvedPower(x: int, n: nat)
    ensures x / Power2(n) / 2 == x / Power2(n + 1)
  {
    var p := Power2(n);
    var q, r := x / p, x % p;
    assert x == p * q + r;
    var h, s := q / 2, q % 2;
    assert q == 2 * h + s;
    assert x == (2 * p) * h + (p * s + r) by {
      assert p * (2 * h + s) == (2 * p) * h + p * s;
    }
    assert 0 <= p * s + r < 2 * p;
    DivisionIsUnique(x, 2 * p, h, p * s + r);
  }

  lemma DivisionIsUnique(x: int, d: int, q: int, r: int)
    requires d > 0 && x == d * q + r && 0 <= r < d
    ensures x / d == q
  {
    var k := x / d - q;
    assert d * (x / d) + x % d == x;
    assert d * k == r - x % d;
    MultipleOf(d, k);
  }

  lemma MultipleOf(d: int, k: int)
    requires d > 0
    ensures k >= 1 ==> d * k >= d
    ensures k <= -1 ==> d * k <= -d
  {
  }

  function DoLogical(op: BinaryOp, v1: Value, v2: Value): Value
    requires IsLogical(op)
  {
    // `absorbing` decides the result alone: true for ||, false for &&
    var absorbing := op == LogicalOr;
    if v1.Int? || v2.Int? then Error
    else if v1 == Bool(absorbing) then v1
    else if v1.Error? then Error
    else if v1.Bool? then v2
    else if !v2.Bool? then v2
    else if v2.b == absorbing then v2
    else Undefined
  }

  function DoBinary(op: BinaryOp, v1: Value, v2: Value): Value
  {
    if IsStrict(op) && (v1.Error? || v2.Error?) then Error
    else if IsStrict(op) && (v1.Undefined? || v2.Undefined?) then Undefined
    else if IsComparison(op) then DoComparison(op, v1, v2)
    else if IsLogical(op) then DoLogical(op, v1, v2)
    else if IsBitwise(op) then DoBitwise(op, v1, v2)
    else if IsShift(op) then DoShift(op, v1, v2)
    else DoArithmetic(op, v1, v2)
  }

  function DoUnary(op: UnaryOp, v: Value): Value
  {
    match op
    case Parentheses => v
    case UnaryPlus => if v.Bool? then Error else v
    case UnaryMinus => if v.Int? then Int(Wrap(0 - v.i as int)) else if v.Bool? then Error else v
    case LogicalNot => if v.Bool? then Bool(!v.b) else if v.Int? then Error else v
    case BitwiseNot => if v.Int? then Int(-1 - v.i) else if v.Bool? then Error else v
  }

  // ---------- evaluation ----------

  /** The ad's own attributes, which are expressions, and values for the attributes that the
      ad leaves open. An attribute bound in neither is undefined. */
  datatype Scope = Scope(known: map<string, Expr>, open: map<string, Value>)

  function ShortCircuits(op: BinaryOp, v: Value): bool
  {
    (op == LogicalOr && v == Bool(true)) || (op == LogicalAnd && v == Bool(false))
  }

  /** `None` is a failed evaluation: the chain of attribute references was too deep. */
  function Evaluate(e: Expr, scope: Scope, depth: nat): Option<Value>
    decreases depth, e
  {
    match e
    case Literal(v) => Some(v)
    case AttributeReference(name) =>
      if name in scope.known then
        if depth == 0 then None else Evaluate(scope.known[name], scope, depth - 1)
      else if name in scope.open then Some(scope.open[name])
      else Some(Undefined)
    case Unary(op, child) =>
      var v := Evaluate(child, scope, depth);
      if v.None? then None else Some(DoUnary(op, v.value))
    case Binary(op, child1, child2) =>
      var v1 := Evaluate(child1, scope, depth);
      if v1.None? then None
      else if ShortCircuits(op, v1.value) then v1
      else
        var v2 := Evaluate(child2, scope, depth);
        if v2.None? then None else Some(DoBinary(op, v1.value, v2.value))
    case Ternary(selector, ifTrue, ifFalse) =>
      var v := Evaluate(selector, scope, depth);
      if v.None? then None
      else if v.value == Bool(true) then Evaluate(ifTrue, scope, depth)
      else if v.value == Bool(false) then Evaluate(ifFalse, scope, depth)
      else if Evaluate(ifTrue, scope, depth).None? || Evaluate(ifFalse, scope, depth).None? then None
      else if v.value.Undefined? then Some(Undefined)
      else Some(Error)
  }

  /** Depth only limits: an evaluation that succeeds gives the same value with more depth. */
  lemma {:induction false} EvaluateDeeper(e: Expr, scope: Scope, depth: nat, more: nat)
    requires Evaluate(e, scope, depth).Some? && depth <= more
    ensures Evaluate(e, scope, more) == Evaluate(e, scope, depth)
    decreases depth, e
  {
    match e
    case Literal(_) =>
    case AttributeReference(name) =>
      if name in scope.known {
        EvaluateDeeper(scope.known[name], scope, depth - 1, more - 1);
      }
    case Unary(_, child) =>
      EvaluateDeeper(child, scope, depth, more);
    case Binary(op, child1, child2) =>
      EvaluateDeeper(child1, scope, depth, more);
      if Evaluate(child2, scope, depth).Some? {
        EvaluateDeeper(child2, scope, depth, more);
      }
    case Ternary(selector, ifTrue, ifFalse) =>
      EvaluateDeeper(selector, scope, depth, more);
      if Evaluate(ifTrue, scope, depth).Some? {
        EvaluateDeeper(ifTrue, scope, depth, more);
      }
      if Evaluate(ifFalse, scope, depth).Some? {
        EvaluateDeeper(ifFalse, scope, depth, more);
      }
  }

  // ---------- the algebra that reordering relies on ----------

  /** The operators that `_Flatten` reorders. */
  predicate IsReordered(op: BinaryOp)
  {
    op == Addition || op == Multiplication || IsLogical(op) || IsBitwise(op)
  }

  /** Operand values on which an operator is associative and commutative. */
  predicate InDomain(op: BinaryOp, v: Value)
  {
    && (IsLogical(op) ==> v.Bool? || v.Undefined?)
    && (IsBitwise(op) ==> !v.Bool?)
  }

  lemma WrapShift(x: int) returns (k: int)
    ensures Wrap(x) == x + k * 0x1_0000_0000
  {
    k := -((x - INT_MIN) / 0x1_0000_0000);
  }

  lemma WrapUnique(x: int, y: int, k: int)
    requires x == y + k * 0x1_0000_0000
    ensures Wrap(x) == Wrap(y)
  {
    var i := WrapShift(x);
    var j := WrapShift(y);
  }

  lemma WrapSum(a: int, b: int, c: int)
    ensures Wrap(Wrap(a + b) + c) == Wrap(a + Wrap(b + c))
  {
    var i := WrapShift(a + b);
    var j := WrapShift(b + c);
    WrapUnique(Wrap(a + b) + c, a + Wrap(b + c), i - j);
  }

  lemma WrapProduct(a: int, b: int, c: int)
    ensures Wrap(Wrap(a * b) * c) == Wrap(a * Wrap(b * c))
  {
    var i := WrapShift(a * b);
    var j := WrapShift(b * c);
    assert Wrap(a * b) * c == (a * b) * c + (i * c) * 0x1_0000_0000;
    assert a * Wrap(b * c) == (a * b) * c + (a * j) * 0x1_0000_0000 by {
      assert a * (b * c) == (a * b) * c;
    }
    WrapUnique(Wrap(a * b) * c, a * Wrap(b * c), i * c - a * j);
  }

  function Power2(n: nat): (p: nat)
    ensures p > 0
  {
    if n == 0 then 1 else 2 * Power2(n - 1)
  }

  lemma {:induction false} BitsOfNumber(bits: seq<bool>)
    ensures Bits(Number(bits), |bits|) == bits
  {
    if bits != [] {
      BitsOfNumber(bits[1..]);
    }
  }

  lemma {:induction false} BitsIgnoreHigh(x: int, k: int, n: nat)
    ensures Bits(x + k * Power2(n), n) == Bits(x, n)
    decreases n
  {
    if n > 0 {
      var p := k * Power2(n - 1);
      assert k * Power2(n) == 2 * p;
      assert (x + 2 * p) / 2 == x / 2 + p && (x + 2 * p) % 2 == x % 2;
      BitsIgnoreHigh(x / 2, k, n - 1);
    }
  }

  lemma Power2Of32()
    ensures Power2(32) == 0x1_0000_0000
  {
    assert Power2(8) == 256;
    assert Power2(16) == 0x1_0000;
    assert Power2(24) == 0x100_0000;
  }

  lemma BitsOfWrapped(bits: seq<bool>)
    requires Power2(|bits|) == 0x1_0000_0000
    ensures Bits(Wrap(Number(bits)), |bits|) == bits
  {
    var k := WrapShift(Number(bits));
    BitsIgnoreHigh(Number(bits), k, |bits|);
    BitsOfNumber(bits);
  }

  lemma BitsOfWord(op: BinaryOp, a: int, b: int)
    ensures Bits(BitwiseWord(op, a, b), WORD_BITS) == Pointwise(op, Bits(a, WORD_BITS), Bits(b, WORD_BITS))
  {
    Power2Of32();
    BitsOfWrapped(Pointwise(op, Bits(a, WORD_BITS), Bits(b, WORD_BITS)));
  }

  lemma WordCommutes(op: BinaryOp, a: int, b: int)
    ensures BitwiseWord(op, a, b) == BitwiseWord(op, b, a)
  {
    assert Pointwise(op, Bits(a, WORD_BITS), Bits(b, WORD_BITS)) == Pointwise(op, Bits(b, WORD_BITS), Bits(a, WORD_BITS));
  }

  lemma PointwiseAssociates(op: BinaryOp, x: seq<bool>, y: seq<bool>, z: seq<bool>)
    requires IsBitwise(op) && |x| == |y| == |z|
    ensures Pointwise(op, Pointwise(op, x, y), z) == Pointwise(op, x, Pointwise(op, y, z))
  {
  }

  lemma WordAssociates(op: BinaryOp, a: int, b: int, c: int)
    requires IsBitwise(op)
    ensures BitwiseWord(op, BitwiseWord(op, a, b), c) == BitwiseWord(op, a, BitwiseWord(op, b, c))
  {
    BitsOfWord(op, a, b);
    BitsOfWord(op, b, c);
    PointwiseAssociates(op, Bits(a, WORD_BITS), Bits(b, WORD_BITS), Bits(c, WORD_BITS));
  }

  lemma Closed(op: BinaryOp, a: Value, b: Value)
    requires IsReordered(op) && InDomain(op, a) && InDomain(op, b)
    ensures InDomain(op, DoBinary(op, a, b))
  {
  }

  predicate IsNumeric(v: Value)
  {
    v.Bool? || v.Int?
  }

  lemma Commutes(op: BinaryOp, a: Value, b: Value)
    requires IsReordered(op) && InDomain(op, a) && InDomain(op, b)
    ensures DoBinary(op, a, b) == DoBinary(op, b, a)
  {
    if IsNumeric(a) && IsNumeric(b) && !IsLogical(op) {
      if IsBitwise(op) {
        BitwiseCommutes(op, a, b);
      } else {
        FoldsIntegers(op, a, b);
        FoldsIntegers(op, b, a);
        FoldCommutes(op, AsInteger(a), AsInteger(b));
      }
    } else {
      NonNumericCommutes(op, a, b);
    }
  }

  lemma BitwiseCommutes(op: BinaryOp, a: Value, b: Value)
    requires IsBitwise(op) && a.Int? && b.Int?
    ensures DoBinary(op, a, b) == DoBinary(op, b, a)
  {
    WordCommutes(op, a.i, b.i);
  }

  lemma NonNumericCommutes(op: BinaryOp, a: Value, b: Value)
    requires IsReordered(op) && InDomain(op, a) && InDomain(op, b)
    requires !(IsNumeric(a) && IsNumeric(b)) || IsLogical(op)
    ensures DoBinary(op, a, b) == DoBinary(op, b, a)
  {
  }

  lemma FoldCommutes(op: BinaryOp, x: int, y: int)
    ensures Fold(op, x, y) == Fold(op, y, x)
  {
    assert x * y == y * x;
  }

  lemma Associates(op: BinaryOp, a: Value, b: Value, c: Value)
    requires IsReordered(op) && InDomain(op, a) && InDomain(op, b) && InDomain(op, c)
    ensures DoBinary(op, DoBinary(op, a, b), c) == DoBinary(op, a, DoBinary(op, b, c))
  {
    if IsLogical(op) {
      LogicalAssociates(op, a, b, c);
    } else if !(IsNumeric(a) && IsNumeric(b) && IsNumeric(c)) {
      StrictAssociates(op, a, b, c);
    } else if IsBitwise(op) {
      BitwiseAssociates(op, a, b, c);
    } else {
      ArithmeticAssociates(op, a, b, c);
    }
  }

  lemma LogicalAssociates(op: BinaryOp, a: Value, b: Value, c: Value)
    requires IsLogical(op) && InDomain(op, a) && InDomain(op, b) && InDomain(op, c)
    ensures DoBinary(op, DoBinary(op, a, b), c) == DoBinary(op, a, DoBinary(op, b, c))
  {
  }

  lemma FoldsWords(op: BinaryOp, x: int32, y: int32)
    requires IsBitwise(op)
    ensures DoBinary(op, Int(x), Int(y)) == Int(BitwiseWord(op, x, y))
  {
  }

  lemma BitwiseAssociates(op: BinaryOp, a: Value, b: Value, c: Value)
    requires IsBitwise(op) && a.Int? && b.Int? && c.Int?
    ensures DoBinary(op, DoBinary(op, a, b), c) == DoBinary(op, a, DoBinary(op, b, c))
  {
    var x, y, z := a.i, b.i, c.i;
    calc {
      DoBinary(op, DoBinary(op, a, b), c);
    == { FoldsWords(op, x, y); FoldsWords(op, BitwiseWord(op, x, y), z); }
      Int(BitwiseWord(op, BitwiseWord(op, x, y), z));
    == { WordAssociates(op, x, y, z); }
      Int(BitwiseWord(op, x, BitwiseWord(op, y, z)));
    == { FoldsWords(op, y, z); FoldsWords(op, x, BitwiseWord(op, y, z)); }
      DoBinary(op, a, DoBinary(op, b, c));
    }
  }

  lemma StrictAssociates(op: BinaryOp, a: Value, b: Value, c: Value)
    requires IsReordered(op) && !IsLogical(op) && InDomain(op, a) && InDomain(op, b) && InDomain(op, c)
    requires !(IsNumeric(a) && IsNumeric(b) && IsNumeric(c))
    ensures DoBinary(op, DoBinary(op, a, b), c) == DoBinary(op, a, DoBinary(op, b, c))
  {
  }

  /** The integer result of the two reordered arithmetic operators. */
  function Fold(op: BinaryOp, x: int, y: int): int32
  {
    Wrap(if op == Addition then x + y else x * y)
  }

  lemma FoldsIntegers(op: BinaryOp, a: Value, b: Value)
    requires op == Addition || op == Multiplication
    requires IsNumeric(a) && IsNumeric(b)
    ensures DoBinary(op, a, b) == Int(Fold(op, AsInteger(a), AsInteger(b)))
  {
    assert DoBinary(op, a, b) == DoArithmetic(op, a, b);
    ArithmeticFolds(op, a, b);
  }

  lemma ArithmeticFolds(op: BinaryOp, a: Value, b: Value)
    requires op == Addition || op == Multiplication
    requires IsNumeric(a) && IsNumeric(b)
    ensures DoArithmetic(op, a, b) == Int(Fold(op, AsInteger(a), AsInteger(b)))
  {
  }

  lemma FoldAssociates(op: BinaryOp, x: int, y: int, z: int)
    ensures Fold(op, Fold(op, x, y), z) == Fold(op, x, Fold(op, y, z))
  {
    if op == Addition {
      WrapSum(x, y, z);
    } else {
      WrapProduct(x, y, z);
    }
  }

  lemma ArithmeticAssociates(op: BinaryOp, a: Value, b: Value, c: Value)
    requires op == Addition || op == Multiplication
    requires IsNumeric(a) && IsNumeric(b) && IsNumeric(c)
    ensures DoBinary(op, DoBinary(op, a, b), c) == DoBinary(op, a, DoBinary(op, b, c))
  {
    var x, y, z := AsInteger(a), AsInteger(b), AsInteger(c);
    calc {
      DoBinary(op, DoBinary(op, a, b), c);
    == { FoldsIntegers(op, a, b); FoldsIntegers(op, Int(Fold(op, x, y)), c); }
      Int(Fold(op, Fold(op, x, y), z));
    == { FoldAssociates(op, x, y, z); }
      Int(Fold(op, x, Fold(op, y, z)));
    == { FoldsIntegers(op, b, c); FoldsIntegers(op, a, Int(Fold(op, y, z))); }
      DoBinary(op, a, DoBinary(op, b, c));
    }
  }

  /** (c1 op t1) op (c2 op t2) regroups constants and trees. */
  lemma Regroups(op: BinaryOp, c1: Value, t1: Value, c2: Value, t2: Value)
    requires IsReordered(op)
    requires InDomain(op, c1) && InDomain(op, t1) && InDomain(op, c2) && InDomain(op, t2)
    ensures DoBinary(op, DoBinary(op, c1, t1), DoBinary(op, c2, t2))
         == DoBinary(op, DoBinary(op, c1, c2), DoBinary(op, t1, t2))
  {
    var d := DoBinary(op, c2, t2);
    Closed(op, c2, t2);
    Closed(op, t1, t2);
    Associates(op, c1, t1, d);
    Associates(op, t1, c2, t2);
    Commutes(op, t1, c2);
    Associates(op, c2, t1, t2);
    Associates(op, c1, c2, DoBinary(op, t1, t2));
  }
}
