/**
 When one 32-bit operation absorbs another: for constants a and b, when
 (a op x) op (b op2 y) and (a op x) op y are the same word for all x and y. This is the
 arithmetic behind the mixed-split case of partial evaluation.
 */
module Words {
  import opened Expressions

  /** The integer result of a reordered operator on integers. */
  function Word(op: BinaryOp, a: int, b: int): int32
  {
    if IsBitwise(op) then BitwiseWord(op, a, b) else Fold(op, a, b)
  }

  predicate IsArithmetic(op: BinaryOp)
  {
    op == Addition || op == Multiplication
  }

  /** The constant that leaves the other operand as it is. */
  function Unit(op: BinaryOp): int32
  {
    match op
    case Multiplication => 1
    case BitwiseAnd => -1
    case _ => 0
  }

  ghost predicate Absorbed(op: BinaryOp, a: int32, op2: BinaryOp, b: int32)
  {
    forall x: int32, y: int32 :: AbsorbedAt(op, a, op2, b, x, y)
  }

  predicate AbsorbedAt(op: BinaryOp, a: int32, op2: BinaryOp, b: int32, x: int32, y: int32)
  {
    Word(op, Word(op, a, x), Word(op2, b, y)) == Word(op, Word(op, a, x), y)
  }

  /** Operators of one kind: both bitwise, or an arithmetic one over any other. */
  predicate Comparable(op: BinaryOp, op2: BinaryOp)
  {
    op != op2 && ((IsArithmetic(op) && (IsArithmetic(op2) || IsBitwise(op2))) || (IsBitwise(op) && IsBitwise(op2)))
  }

  /** As a number, the bits of a constant at which it changes the other operand. */
  function Effect(op: BinaryOp, b: int): int
  {
    if op == BitwiseAnd then -1 - b else b
  }

  /** The constants for which losing b cannot be seen. */
  predicate Agree(op: BinaryOp, a: int32, op2: BinaryOp, b: int32)
  {
    match op
    case Multiplication => Wrap(a * Effect(op2, b)) == 0
    case BitwiseAnd => Word(BitwiseAnd, a, b) == 0
    case BitwiseOr => Word(BitwiseOr, a, b) == if op2 == BitwiseAnd then -1 else a
    case _ => b == Unit(op2)
  }

  // ---------- equality up to the word size ----------

  ghost predicate Congruent(x: int, y: int)
  {
    exists k :: IsShifted(x, y, k)
  }

  predicate IsShifted(x: int, y: int, k: int)
  {
    x == y + k * 0x1_0000_0000
  }

  lemma WrapCongruent(x: int)
    ensures Congruent(Wrap(x), x)
  {
    var k := WrapShift(x);
    assert IsShifted(Wrap(x), x, k);
  }

  lemma CongruentIfWrap(x: int, y: int)
    requires Wrap(x) == Wrap(y)
    ensures Congruent(x, y)
  {
    var i := WrapShift(x);
    var j := WrapShift(y);
    assert IsShifted(x, y, j - i);
  }

  lemma WrapIfCongruent(x: int, y: int)
    requires Congruent(x, y)
    ensures Wrap(x) == Wrap(y)
  {
    var k :| IsShifted(x, y, k);
    WrapUnique(x, y, k);
  }

  lemma CongruentSelf(x: int)
    ensures Congruent(x, x)
  {
    assert IsShifted(x, x, 0);
  }

  lemma CongruentBack(x: int, y: int)
    requires Congruent(x, y)
    ensures Congruent(y, x)
  {
    var k :| IsShifted(x, y, k);
    assert IsShifted(y, x, -k);
  }

  lemma CongruentChain(x: int, y: int, z: int)
    requires Congruent(x, y) && Congruent(y, z)
    ensures Congruent(x, z)
  {
    var i :| IsShifted(x, y, i);
    var j :| IsShifted(y, z, j);
    assert IsShifted(x, z, i + j);
  }

  lemma CongruentWords(u: int32, v: int32)
    requires Congruent(u, v)
    ensures u == v
  {
    var k :| IsShifted(u, v, k);
  }

  lemma CongruentDifference(x: int, y: int, z: int, w: int)
    requires Congruent(x, y) && Congruent(z, w)
    ensures Congruent(x - z, y - w)
  {
    var i :| IsShifted(x, y, i);
    var j :| IsShifted(z, w, j);
    assert IsShifted(x - z, y - w, i - j);
  }

  lemma CongruentProduct(a: int, x: int, y: int)
    requires Congruent(x, y)
    ensures Congruent(a * x, a * y)
  {
    var k :| IsShifted(x, y, k);
    assert a * (k * 0x1_0000_0000) == (a * k) * 0x1_0000_0000;
    assert a * x == a * y + a * (k * 0x1_0000_0000);
    assert IsShifted(a * x, a * y, a * k);
  }

  // ---------- words and their bits ----------

  function AllBits(b: bool, n: nat): (bits: seq<bool>)
    ensures |bits| == n && forall i :: 0 <= i < n ==> bits[i] == b
  {
    seq(n, i => b)
  }

  lemma {:induction false} BitsOfUnit(n: nat)
    ensures Bits(0, n) == AllBits(false, n) && Bits(-1, n) == AllBits(true, n)
  {
    if n > 0 {
      BitsOfUnit(n - 1);
    }
  }

  /** An integer is its lowest bits and a multiple of the power above them. */
  lemma {:induction false} NumberOfBits(x: int, n: nat) returns (k: int)
    ensures x == Number(Bits(x, n)) + k * Power2(n)
    decreases n
  {
    if n == 0 {
      k := x;
    } else {
      k := NumberOfBits(x / 2, n - 1);
      assert k * Power2(n) == 2 * (k * Power2(n - 1));
      assert Bits(x, n)[1..] == Bits(x / 2, n - 1);
    }
  }

  lemma NumberOfWord(x: int)
    ensures Congruent(x, Number(Bits(x, WORD_BITS)))
  {
    Power2Of32();
    var k := NumberOfBits(x, WORD_BITS);
    assert IsShifted(x, Number(Bits(x, WORD_BITS)), k);
  }

  lemma EqualBits(u: int32, v: int32)
    requires Bits(u, WORD_BITS) == Bits(v, WORD_BITS)
    ensures u == v
  {
    var n := Number(Bits(u, WORD_BITS));
    NumberOfWord(u);
    NumberOfWord(v);
    CongruentBack(v, n);
    CongruentChain(u, n, v);
    CongruentWords(u, v);
  }

  lemma WordOfBitsCommutes(op: BinaryOp, a: int, b: int)
    requires IsArithmetic(op) || IsBitwise(op)
    ensures Word(op, a, b) == Word(op, b, a)
  {
    if IsBitwise(op) {
      WordCommutes(op, a, b);
    } else {
      FoldCommutes(op, a, b);
    }
  }

  lemma UnitLeaves(op: BinaryOp, b: int32)
    requires IsArithmetic(op) || IsBitwise(op)
    ensures Word(op, b, Unit(op)) == b && Word(op, Unit(op), b) == b
  {
    WordOfBitsCommutes(op, b, Unit(op));
    if IsBitwise(op) {
      UnitMask(op, b);
    }
  }

  lemma UnitMask(op: BinaryOp, b: int32)
    requires IsBitwise(op)
    ensures BitwiseWord(op, b, Unit(op)) == b
  {
    BitsOfUnit(WORD_BITS);
    BitsOfWord(op, b, Unit(op));
    UnitBits(op, Bits(b, WORD_BITS));
    EqualBits(BitwiseWord(op, b, Unit(op)), b);
  }

  lemma UnitBits(op: BinaryOp, bits: seq<bool>)
    requires IsBitwise(op)
    ensures Pointwise(op, bits, AllBits(op == BitwiseAnd, |bits|)) == bits
  {
  }

  /** The x and y that tell most are the units. */
  lemma AtUnits(op: BinaryOp, a: int32, op2: BinaryOp, b: int32)
    requires Comparable(op, op2) && Absorbed(op, a, op2, b)
    ensures Word(op, a, b) == Word(op, a, Unit(op2))
  {
    assert AbsorbedAt(op, a, op2, b, Unit(op), Unit(op2));
    UnitLeaves(op, a);
    UnitLeaves(op2, b);
  }

  // ---------- addition and exclusive or: operands can be cancelled ----------

  lemma Cancels(op: BinaryOp, s: int32, u: int32, v: int32)
    requires op == Addition || op == BitwiseXor
    requires Word(op, s, u) == Word(op, s, v)
    ensures u == v
  {
    if op == Addition {
      var i := WrapShift(s + u);
      var j := WrapShift(s + v);
    } else {
      BitsOfWord(op, s, u);
      BitsOfWord(op, s, v);
      PointwiseCancels(Bits(s, WORD_BITS), Bits(u, WORD_BITS), Bits(v, WORD_BITS));
      EqualBits(u, v);
    }
  }

  lemma PointwiseCancels(s: seq<bool>, u: seq<bool>, v: seq<bool>)
    requires |s| == |u| == |v| && Pointwise(BitwiseXor, s, u) == Pointwise(BitwiseXor, s, v)
    ensures u == v
  {
    forall i | 0 <= i < |u| ensures u[i] == v[i] {
      assert Pointwise(BitwiseXor, s, u)[i] == Pointwise(BitwiseXor, s, v)[i];
    }
  }

  lemma CancellingAbsorbed(op: BinaryOp, a: int32, op2: BinaryOp, b: int32)
    requires Comparable(op, op2) && (op == Addition || op == BitwiseXor)
    ensures Absorbed(op, a, op2, b) <==> b == Unit(op2)
  {
    if b == Unit(op2) {
      forall x: int32, y: int32 ensures AbsorbedAt(op, a, op2, b, x, y) {
        UnitLeaves(op2, y);
      }
    }
    if Absorbed(op, a, op2, b) {
      AtUnits(op, a, op2, b);
      Cancels(op, a, b, Unit(op2));
    }
  }

  // ---------- bitwise over bitwise ----------

  lemma MaskAbsorbed(op: BinaryOp, a: int32, op2: BinaryOp, b: int32)
    requires Comparable(op, op2) && (op == BitwiseAnd || op == BitwiseOr)
    ensures Absorbed(op, a, op2, b) <==> Agree(op, a, op2, b)
  {
    if Absorbed(op, a, op2, b) {
      AtUnits(op, a, op2, b);
      MaskAtUnit(op, a, op2, b);
    }
    if Agree(op, a, op2, b) {
      forall x: int32, y: int32 ensures AbsorbedAt(op, a, op2, b, x, y) {
        MaskAgrees(op, a, op2, b, x, y);
      }
    }
  }

  lemma MaskAtUnit(op: BinaryOp, a: int32, op2: BinaryOp, b: int32)
    requires Comparable(op, op2) && (op == BitwiseAnd || op == BitwiseOr)
    requires Word(op, a, b) == Word(op, a, Unit(op2))
    ensures Agree(op, a, op2, b)
  {
    if op == BitwiseAnd {
      AndAtUnit(a, op2, b);
    } else {
      OrAtUnit(a, op2, b);
    }
  }

  lemma AndAtUnit(a: int32, op2: BinaryOp, b: int32)
    requires Comparable(BitwiseAnd, op2) && BitwiseWord(BitwiseAnd, a, b) == BitwiseWord(BitwiseAnd, a, Unit(op2))
    ensures BitwiseWord(BitwiseAnd, a, b) == 0
  {
    ClearedWord(a, Unit(op2));
  }

  lemma OrAtUnit(a: int32, op2: BinaryOp, b: int32)
    requires Comparable(BitwiseOr, op2) && BitwiseWord(BitwiseOr, a, b) == BitwiseWord(BitwiseOr, a, Unit(op2))
    ensures BitwiseWord(BitwiseOr, a, b) == if op2 == BitwiseAnd then -1 else a
  {
    if op2 == BitwiseAnd {
      FilledWord(a, Unit(op2));
    } else {
      UnitMask(BitwiseOr, a);
    }
  }

  // the masks are parameters, so that their bits are not computed one by one

  lemma ClearedWord(a: int32, zero: int32)
    requires zero == 0
    ensures BitwiseWord(BitwiseAnd, a, zero) == zero
  {
    BitsOfUnit(WORD_BITS);
    BitsOfWord(BitwiseAnd, a, zero);
    assert Pointwise(BitwiseAnd, Bits(a, WORD_BITS), Bits(zero, WORD_BITS)) == Bits(zero, WORD_BITS);
    EqualBits(BitwiseWord(BitwiseAnd, a, zero), zero);
  }

  lemma FilledWord(a: int32, ones: int32)
    requires ones == -1
    ensures BitwiseWord(BitwiseOr, a, ones) == ones
  {
    BitsOfUnit(WORD_BITS);
    BitsOfWord(BitwiseOr, a, ones);
    assert Pointwise(BitwiseOr, Bits(a, WORD_BITS), Bits(ones, WORD_BITS)) == Bits(ones, WORD_BITS);
    EqualBits(BitwiseWord(BitwiseOr, a, ones), ones);
  }

  lemma MaskAgrees(op: BinaryOp, a: int32, op2: BinaryOp, b: int32, x: int32, y: int32)
    requires Comparable(op, op2) && (op == BitwiseAnd || op == BitwiseOr) && Agree(op, a, op2, b)
    ensures AbsorbedAt(op, a, op2, b, x, y)
  {
    BitsOfUnit(WORD_BITS);
    BitsOfWord(op, a, b);
    BitsOfWord(op, a, x);
    BitsOfWord(op2, b, y);
    var s, w := Word(op, a, x), Word(op2, b, y);
    BitsOfWord(op, s, w);
    BitsOfWord(op, s, y);
    MaskBits(op, op2, Bits(a, WORD_BITS), Bits(b, WORD_BITS), Bits(x, WORD_BITS), Bits(y, WORD_BITS));
    EqualBits(Word(op, s, w), Word(op, s, y));
  }

  lemma MaskBits(op: BinaryOp, op2: BinaryOp, a: seq<bool>, b: seq<bool>, x: seq<bool>, y: seq<bool>)
    requires Comparable(op, op2) && (op == BitwiseAnd || op == BitwiseOr)
    requires |a| == |b| == |x| == |y|
    requires Pointwise(op, a, b)
      == if op == BitwiseAnd then AllBits(false, |a|) else if op2 == BitwiseAnd then AllBits(true, |a|) else a
    ensures Pointwise(op, Pointwise(op, a, x), Pointwise(op2, b, y)) == Pointwise(op, Pointwise(op, a, x), y)
  {
    forall i | 0 <= i < |a|
      ensures Pointwise(op, Pointwise(op, a, x), Pointwise(op2, b, y))[i] == Pointwise(op, Pointwise(op, a, x), y)[i] {
      assert Pointwise(op, a, b)[i]
        == if op == BitwiseAnd then false else if op2 == BitwiseAnd then true else a[i];
    }
  }

  // ---------- multiplication ----------

  /** An odd factor can be dropped from a multiple of a power of two. */
  lemma {:induction false} OddFactor(a: int, m: int, k: int, n: nat) returns (q: int)
    requires m % 2 == 1 && a * m == k * Power2(n)
    ensures a == q * Power2(n)
    decreases n
  {
    if n == 0 {
      q := a;
    } else {
      var p, h := k * Power2(n - 1), a / 2;
      assert k * Power2(n) == 2 * p;
      EvenProduct(a, m, p);
      assert 2 * (h * m) == (2 * h) * m;
      q := OddFactor(h, m, k, n - 1);
      assert q * Power2(n) == 2 * (q * Power2(n - 1));
    }
  }

  lemma EvenProduct(a: int, m: int, p: int)
    requires m % 2 == 1 && a * m == 2 * p
    ensures a % 2 == 0
  {
    var h, g := m / 2, a / 2;
    assert a * m == a * (2 * h) + a;
    assert a * (2 * h) == 2 * (a * h);
  }

  /** The bits that make a bitwise operator change the other operand. */
  function Changing(op: BinaryOp, b: seq<bool>): (c: seq<bool>)
    ensures |c| == |b|
  {
    seq(|b|, i requires 0 <= i < |b| => b[i] != (op == BitwiseAnd))
  }

  /** If a times the changing bits is a multiple of 2^n, so is a times any change they make:
      the lowest changing bit decides. */
  lemma {:induction false} ScaledChange(a: int, op: BinaryOp, b: seq<bool>, y: seq<bool>, k: int) returns (j: int)
    requires IsBitwise(op) && |b| == |y| && a * Number(Changing(op, b)) == k * Power2(|b|)
    ensures a * (Number(Pointwise(op, b, y)) - Number(y)) == j * Power2(|b|)
    decreases |b|
  {
    var c, r := Changing(op, b), Pointwise(op, b, y);
    if b == [] {
      j := 0;
    } else {
      assert c[1..] == Changing(op, b[1..]) && r[1..] == Pointwise(op, b[1..], y[1..]);
      var p := Power2(|b| - 1);
      if c[0] {
        var q := OddFactor(a, Number(c), k, |b|);
        j := q * (Number(r) - Number(y));
        ScaleMultiple(a, Number(r) - Number(y), q, Power2(|b|));
      } else {
        HalveMultiple(a, Number(c[1..]), k, p);
        j := ScaledChange(a, op, b[1..], y[1..], k);
        DoubleMultiple(a, Number(r[1..]) - Number(y[1..]), j, p);
        assert r[0] == y[0];
      }
    }
  }

  lemma ScaleMultiple(a: int, d: int, q: int, p: int)
    requires a == q * p
    ensures a * d == (q * d) * p
  {
  }

  lemma HalveMultiple(a: int, h: int, k: int, p: int)
    requires a * (2 * h) == k * (2 * p)
    ensures a * h == k * p
  {
    assert a * (2 * h) == 2 * (a * h) && k * (2 * p) == 2 * (k * p);
  }

  lemma DoubleMultiple(a: int, d: int, j: int, p: int)
    requires a * d == j * p
    ensures a * (2 * d) == j * (2 * p)
  {
    assert a * (2 * d) == 2 * (a * d) && j * (2 * p) == 2 * (j * p);
  }

  lemma {:induction false} NumberOfComplement(b: seq<bool>)
    ensures Number(Changing(BitwiseAnd, b)) + Number(b) == Power2(|b|) - 1
  {
    if b != [] {
      assert Changing(BitwiseAnd, b)[1..] == Changing(BitwiseAnd, b[1..]);
      NumberOfComplement(b[1..]);
    }
  }

  lemma ChangingNumber(op: BinaryOp, b: int)
    requires IsBitwise(op)
    ensures Congruent(Number(Changing(op, Bits(b, WORD_BITS))), Effect(op, b))
  {
    Power2Of32();
    var bs := Bits(b, WORD_BITS);
    var k := NumberOfBits(b, WORD_BITS);
    if op == BitwiseAnd {
      NumberOfComplement(bs);
      assert IsShifted(Number(Changing(op, bs)), Effect(op, b), k + 1);
    } else {
      assert Changing(op, bs) == bs;
      assert IsShifted(Number(Changing(op, bs)), Effect(op, b), -k);
    }
  }

  /** Under a factor that cancels its changing bits, a bitwise operator does nothing. */
  lemma ScaledByMask(a: int, op: BinaryOp, b: int32, y: int32, w: int)
    requires IsBitwise(op) && Congruent(a * Effect(op, b), 0) && w == BitwiseWord(op, b, y)
    ensures Congruent(a * (w - y), 0)
  {
    var bs, ys := Bits(b, WORD_BITS), Bits(y, WORD_BITS);
    var c, r := Number(Changing(op, bs)), Number(Pointwise(op, bs, ys));
    ChangingNumber(op, b);
    CongruentProduct(a, c, Effect(op, b));
    CongruentChain(a * c, a * Effect(op, b), 0);
    ScaledChangeOfWord(a, op, bs, ys);
    WrapCongruent(r);
    NumberOfWord(y);
    CongruentDifference(w, r, y, Number(ys));
    CongruentProduct(a, w - y, r - Number(ys));
    CongruentChain(a * (w - y), a * (r - Number(ys)), 0);
  }

  lemma ScaledChangeOfWord(a: int, op: BinaryOp, b: seq<bool>, y: seq<bool>)
    requires IsBitwise(op) && |b| == |y| == WORD_BITS && Congruent(a * Number(Changing(op, b)), 0)
    ensures Congruent(a * (Number(Pointwise(op, b, y)) - Number(y)), 0)
  {
    Power2Of32();
    var k :| IsShifted(a * Number(Changing(op, b)), 0, k);
    var j := ScaledChange(a, op, b, y, k);
    assert IsShifted(a * (Number(Pointwise(op, b, y)) - Number(y)), 0, j);
  }

  lemma ScaledBySum(a: int, b: int32, y: int32, w: int)
    requires Congruent(a * b, 0) && w == Fold(Addition, b, y)
    ensures Congruent(a * (w - y), 0)
  {
    WrapCongruent(b + y);
    CongruentSelf(y);
    CongruentDifference(w, b + y, y, y);
    CongruentProduct(a, w - y, b + y - y);
    CongruentChain(a * (w - y), a * b, 0);
  }

  lemma ScaledByFactor(a: int, op2: BinaryOp, b: int32, y: int32, w: int)
    requires Comparable(Multiplication, op2) && Congruent(a * Effect(op2, b), 0) && w == Word(op2, b, y)
    ensures Congruent(a * (w - y), 0)
  {
    if op2 == Addition {
      ScaledBySum(a, b, y, w);
    } else {
      ScaledByMask(a, op2, b, y, w);
    }
  }

  lemma FactorAbsorbed(a: int32, op2: BinaryOp, b: int32)
    requires Comparable(Multiplication, op2)
    ensures Absorbed(Multiplication, a, op2, b) <==> Agree(Multiplication, a, op2, b)
  {
    if Absorbed(Multiplication, a, op2, b) {
      AtUnits(Multiplication, a, op2, b);
      FactorAtUnit(a, op2, b);
    }
    if Agree(Multiplication, a, op2, b) {
      FactorAlwaysAgrees(a, op2, b);
    }
  }

  lemma FactorAlwaysAgrees(a: int32, op2: BinaryOp, b: int32)
    requires Comparable(Multiplication, op2) && Wrap(a * Effect(op2, b)) == 0
    ensures Absorbed(Multiplication, a, op2, b)
  {
    CongruentIfWrap(a * Effect(op2, b), 0);
    forall x: int32, y: int32 ensures AbsorbedAt(Multiplication, a, op2, b, x, y) {
      FactorAgrees(a, op2, b, x, y);
    }
  }

  lemma FactorAtUnit(a: int32, op2: BinaryOp, b: int32)
    requires Comparable(Multiplication, op2) && Word(Multiplication, a, b) == Word(Multiplication, a, Unit(op2))
    ensures Agree(Multiplication, a, op2, b)
  {
    if op2 == BitwiseAnd {
      ComplementAtUnit(a, b);
    } else {
      assert a * 0 == 0;
    }
  }

  lemma ComplementAtUnit(a: int, b: int)
    requires Wrap(a * b) == Wrap(a * -1)
    ensures Wrap(a * (-1 - b)) == 0
  {
    EqualWraps(a * b, a * -1);
    assert a * (-1 - b) == a * -1 - a * b;
  }

  lemma EqualWraps(p: int, q: int)
    requires Wrap(p) == Wrap(q)
    ensures Wrap(q - p) == 0
  {
    var i := WrapShift(p);
    var j := WrapShift(q);
    WrapUnique(q - p, 0, i - j);
  }

  lemma FactorAgrees(a: int32, op2: BinaryOp, b: int32, x: int32, y: int32)
    requires Comparable(Multiplication, op2) && Congruent(a * Effect(op2, b), 0)
    ensures AbsorbedAt(Multiplication, a, op2, b, x, y)
  {
    var w := WordOf(op2, b, y);
    ScaledByFactor(a, op2, b, y, w);
    EqualProducts(a, x, w, y);
  }

  lemma WordOf(op: BinaryOp, b: int32, y: int32) returns (w: int32)
    ensures w == Word(op, b, y)
  {
    w := Word(op, b, y);
  }

  lemma EqualProducts(a: int, x: int, w: int, y: int)
    requires Congruent(a * (w - y), 0)
    ensures Fold(Multiplication, Fold(Multiplication, a, x), w) == Fold(Multiplication, Fold(Multiplication, a, x), y)
  {
    var s := Fold(Multiplication, a, x);
    WrapCongruent(a * x);
    ScaledProduct(a, x, s, w, y);
    WrapIfCongruent(s * w, s * y);
  }

  /** Equal after multiplication with a, hence after multiplication with a * x. */
  lemma ScaledProduct(a: int, x: int, s: int, w: int, y: int)
    requires Congruent(a * (w - y), 0) && Congruent(s, a * x)
    ensures Congruent(s * w, s * y)
  {
    var d := w - y;
    Reordered(a, x, d, s);
    CongruentProduct(x, a * d, 0);
    CongruentProduct(d, s, a * x);
    CongruentChain(s * d, (a * x) * d, 0);
    CongruentBack(s * d, 0);
    CongruentSelf(s * w);
    CongruentDifference(s * w, s * w, 0, s * d);
    assert s * w - s * d == s * y;
  }

  lemma Reordered(a: int, x: int, d: int, s: int)
    ensures d * s == s * d && d * (a * x) == (a * x) * d && x * (a * d) == (a * x) * d && x * 0 == 0
  {
  }

  /** The exact condition, for every pair of comparable operators. */
  lemma AbsorbedIffAgree(op: BinaryOp, a: int32, op2: BinaryOp, b: int32)
    requires Comparable(op, op2)
    ensures Absorbed(op, a, op2, b) <==> Agree(op, a, op2, b)
  {
    if op == Multiplication {
      FactorAbsorbed(a, op2, b);
    } else if op == BitwiseAnd || op == BitwiseOr {
      MaskAbsorbed(op, a, op2, b);
    } else {
      CancellingAbsorbed(op, a, op2, b);
    }
  }

  /** Where the constants do not agree, there are words that show it. */
  lemma DifferingWords(op: BinaryOp, a: int32, op2: BinaryOp, b: int32) returns (x: int32, y: int32)
    requires Comparable(op, op2) && !Agree(op, a, op2, b)
    ensures Word(op, Word(op, a, x), Word(op2, b, y)) != Word(op, Word(op, a, x), y)
  {
    AbsorbedIffAgree(op, a, op2, b);
    x, y :| !AbsorbedAt(op, a, op2, b, x, y);
  }
}
