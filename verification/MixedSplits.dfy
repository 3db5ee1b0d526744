/**
 The case in which `combine` loses a constant (src/classad/operators.cpp): one child is split by
 the operator at hand, the other one by a different operator. For every pair of reordered
 operators, in both orders, exactly the constants for which the combined form still means the
 same: for the smallest expressions that reach the case, and for any subtrees. Flattening keeps
 the meaning of every expression in which only such constants meet.
 */
module MixedSplits {
  import opened Options
  import opened Expressions
  import opened Flatten
  import opened Words
  import Meanings

  /** A constant that an operator leaves split from an open attribute: it is a proper operand,
      and does not decide a logical operation by itself. */
  predicate Splits(op: BinaryOp, c: Value)
  {
    IsReordered(op) && InDomain(op, c) && !(IsLogical(op) && c == Bool(op == LogicalOr))
  }

  const X: Expr := AttributeReference("x")
  const Y: Expr := AttributeReference("y")

  /** (c1 op x) op (c2 op2 y), or with the operands of the outer op exchanged. */
  function Mixed(op: BinaryOp, c1: Value, op2: BinaryOp, c2: Value, exchanged: bool): Expr
  {
    var near, far := Binary(op, Literal(c1), X), Binary(op2, Literal(c2), Y);
    if exchanged then Binary(op, far, near) else Binary(op, near, far)
  }

  /** c2 is gone. */
  function Flattened(op: BinaryOp, c1: Value, exchanged: bool): Flat
  {
    Split(op, c1, if exchanged then Binary(op, Y, X) else Binary(op, X, Y))
  }

  lemma MixedFlattens(op: BinaryOp, c1: Value, op2: BinaryOp, c2: Value, exchanged: bool)
    requires Splits(op, c1) && Splits(op2, c2) && op != op2
    ensures FlattenNode(Mixed(op, c1, op2, c2, exchanged), map[], false, 1) == Some(Flattened(op, c1, exchanged))
  {
    var near, far := Binary(op, Literal(c1), X), Binary(op2, Literal(c2), Y);
    ChildFlattens(op, c1, "x");
    ChildFlattens(op2, c2, "y");
    if exchanged {
      NodeFlattens(op, far, Split(op2, c2, Y), near, Split(op, c1, X));
    } else {
      NodeFlattens(op, near, Split(op, c1, X), far, Split(op2, c2, Y));
    }
  }

  lemma ChildFlattens(op: BinaryOp, c: Value, name: string)
    requires Splits(op, c)
    ensures FlattenNode(Binary(op, Literal(c), AttributeReference(name)), map[], false, 1)
         == Some(Split(op, c, AttributeReference(name)))
  {
    var t := AttributeReference(name);
    NodeFlattens(op, Literal(c), ValueOnly(c), t, TreeOnly(t));
  }

  // ---------- values ----------

  function Open(x: Value, y: Value): Scope
  {
    Scope(map[], map["x" := x, "y" := y])
  }

  /** The value of an operation whose operands have these values. */
  function Joined(op: BinaryOp, u: Value, v: Value): Value
  {
    if ShortCircuits(op, u) then u else DoBinary(op, u, v)
  }

  lemma EvaluateJoined(op: BinaryOp, e1: Expr, u: Value, e2: Expr, v: Value, scope: Scope)
    requires Evaluate(e1, scope, 1) == Some(u) && Evaluate(e2, scope, 1) == Some(v)
    ensures Evaluate(Binary(op, e1, e2), scope, 1) == Some(Joined(op, u, v))
  {
    EvaluateUnfolds(op, e1, e2, scope, 1);
  }

  lemma JoinedInDomain(op: BinaryOp, u: Value, v: Value)
    requires IsReordered(op) && InDomain(op, v)
    ensures Joined(op, u, v) == DoBinary(op, u, v)
  {
    if ShortCircuits(op, u) {
      ShortCircuitAgrees(op, u, v);
    }
  }

  /** The operands of every operator are proper ones. */
  predicate Proper(op: BinaryOp, op2: BinaryOp, c2: Value, x: Value, y: Value)
  {
    InDomain(op, x) && InDomain(op2, y) && InDomain(op, DoBinary(op2, c2, y))
  }

  lemma MixedTame(op: BinaryOp, c1: Value, op2: BinaryOp, c2: Value, exchanged: bool, x: Value, y: Value)
    requires Splits(op, c1) && Splits(op2, c2)
    ensures Tame(Mixed(op, c1, op2, c2, exchanged), Open(x, y), 1) <==> Proper(op, op2, c2, x, y)
  {
    var scope := Open(x, y);
    var near, far := Binary(op, Literal(c1), X), Binary(op2, Literal(c2), Y);
    ChildTame(op, c1, "x", x, scope);
    ChildTame(op2, c2, "y", y, scope);
    if InDomain(op, x) {
      Closed(op, c1, x);
    }
    TameBinary(op, near, far, scope);
    TameBinary(op, far, near, scope);
  }

  lemma TameBinary(op: BinaryOp, e1: Expr, e2: Expr, scope: Scope)
    requires IsReordered(op)
    ensures Tame(Binary(op, e1, e2), scope, 1) <==>
      && Tame(e1, scope, 1) && Tame(e2, scope, 1)
      && ValueInDomain(op, e1, scope, 1) && ValueInDomain(op, e2, scope, 1)
  {
  }

  lemma ChildTame(op: BinaryOp, c: Value, name: string, v: Value, scope: Scope)
    requires Splits(op, c) && name !in scope.known && name in scope.open && scope.open[name] == v
    ensures Tame(Binary(op, Literal(c), AttributeReference(name)), scope, 1) <==> InDomain(op, v)
    ensures InDomain(op, v) ==>
      Evaluate(Binary(op, Literal(c), AttributeReference(name)), scope, 1) == Some(DoBinary(op, c, v))
  {
    EvaluateJoined(op, Literal(c), c, AttributeReference(name), v, scope);
    if InDomain(op, v) {
      JoinedInDomain(op, c, v);
    }
  }

  // ---------- the original and the flattened value ----------

  function OriginalValue(op: BinaryOp, c1: Value, op2: BinaryOp, c2: Value, x: Value, y: Value): Value
  {
    DoBinary(op, DoBinary(op, c1, x), DoBinary(op2, c2, y))
  }

  function FlattenedValue(op: BinaryOp, c1: Value, exchanged: bool, x: Value, y: Value): Value
  {
    Joined(op, c1, if exchanged then Joined(op, y, x) else Joined(op, x, y))
  }

  lemma OriginalEvaluates(op: BinaryOp, c1: Value, op2: BinaryOp, c2: Value, exchanged: bool, x: Value, y: Value)
    requires Splits(op, c1) && Splits(op2, c2) && Proper(op, op2, c2, x, y)
    ensures Evaluate(Mixed(op, c1, op2, c2, exchanged), Open(x, y), 1) == Some(OriginalValue(op, c1, op2, c2, x, y))
  {
    var scope, u, v := Open(x, y), DoBinary(op, c1, x), DoBinary(op2, c2, y);
    var near, far := Binary(op, Literal(c1), X), Binary(op2, Literal(c2), Y);
    ChildTame(op, c1, "x", x, scope);
    ChildTame(op2, c2, "y", y, scope);
    Closed(op, c1, x);
    Commutes(op, u, v);
    JoinedInDomain(op, u, v);
    JoinedInDomain(op, v, u);
    EvaluateJoined(op, near, u, far, v, scope);
    EvaluateJoined(op, far, v, near, u, scope);
  }

  lemma FlattenedEvaluates(op: BinaryOp, c1: Value, exchanged: bool, x: Value, y: Value)
    ensures Evaluate(Rebuild(Flattened(op, c1, exchanged)), Open(x, y), 1) == Some(FlattenedValue(op, c1, exchanged, x, y))
  {
    var scope := Open(x, y);
    assert Evaluate(X, scope, 1) == Some(x) && Evaluate(Y, scope, 1) == Some(y);
    if exchanged {
      EvaluateJoinedTwice(op, c1, Y, y, X, x, scope);
    } else {
      EvaluateJoinedTwice(op, c1, X, x, Y, y, scope);
    }
  }

  lemma EvaluateJoinedTwice(op: BinaryOp, c: Value, e1: Expr, u: Value, e2: Expr, v: Value, scope: Scope)
    requires Evaluate(e1, scope, 1) == Some(u) && Evaluate(e2, scope, 1) == Some(v)
    ensures Evaluate(Binary(op, Literal(c), Binary(op, e1, e2)), scope, 1) == Some(Joined(op, c, Joined(op, u, v)))
  {
    EvaluateJoined(op, e1, u, e2, v, scope);
    EvaluateJoined(op, Literal(c), c, Binary(op, e1, e2), Joined(op, u, v), scope);
  }

  /** Flattening with nothing known keeps the value that the expression has at x and y. */
  ghost predicate PreservedAt(e: Expr, x: Value, y: Value)
  {
    var f := FlattenWhole(e, map[], false, 1);
    f.Some? && Evaluate(Rebuild(f.value), Open(x, y), 1) == Evaluate(e, Open(x, y), 1)
  }

  lemma PreservedAtIff(op: BinaryOp, c1: Value, op2: BinaryOp, c2: Value, exchanged: bool, x: Value, y: Value)
    requires Splits(op, c1) && Splits(op2, c2) && op != op2 && Proper(op, op2, c2, x, y)
    ensures PreservedAt(Mixed(op, c1, op2, c2, exchanged), x, y)
       <==> FlattenedValue(op, c1, exchanged, x, y) == OriginalValue(op, c1, op2, c2, x, y)
  {
    MixedFlattens(op, c1, op2, c2, exchanged);
    OriginalEvaluates(op, c1, op2, c2, exchanged, x, y);
    FlattenedEvaluates(op, c1, exchanged, x, y);
  }

  /** Where y is a proper operand of the outer operator, it stands in for c2 op2 y. */
  lemma FlattenedRegroups(op: BinaryOp, c1: Value, exchanged: bool, x: Value, y: Value)
    requires Splits(op, c1) && InDomain(op, x) && InDomain(op, y)
    ensures FlattenedValue(op, c1, exchanged, x, y) == DoBinary(op, DoBinary(op, c1, x), y)
  {
    Closed(op, x, y);
    Commutes(op, x, y);
    JoinedInDomain(op, x, y);
    JoinedInDomain(op, y, x);
    JoinedInDomain(op, c1, DoBinary(op, x, y));
    Associates(op, c1, x, y);
  }

  // ---------- the condition ----------

  /** The constants for which the loss of c2 cannot be seen. */
  predicate Harmless(op: BinaryOp, c1: Value, op2: BinaryOp, c2: Value)
  {
    if IsLogical(op) then
      // over another logical operator the constant must be the unit; another operator is a
      // proper operand only when it is undefined
      if IsLogical(op2) then c2.Bool? else !c2.Undefined?
    else if IsLogical(op2) then
      c2.Bool? || c1.Error? || (IsArithmetic(op) && c1.Undefined?)
    else if IsBitwise(op) && IsArithmetic(op2) then
      // a boolean y counts as a number to op2 and is an error to op
      c1.Error?
    else
      || c1.Error?
      || (c1.Undefined? && !c2.Error?)
      || (IsNumeric(c1) && IsNumeric(c2) && Agree(op, AsInteger(c1), op2, AsInteger(c2)))
  }

  /** Every operand value for which the original evaluates properly is preserved. */
  ghost predicate AlwaysPreserved(op: BinaryOp, c1: Value, op2: BinaryOp, c2: Value, exchanged: bool)
  {
    var e := Mixed(op, c1, op2, c2, exchanged);
    forall x, y :: Tame(e, Open(x, y), 1) ==> PreservedAt(e, x, y)
  }

  /** The mixed-split case preserves meaning if and only if its constants are harmless. */
  lemma MixedPreservedIff(op: BinaryOp, c1: Value, op2: BinaryOp, c2: Value, exchanged: bool)
    requires Splits(op, c1) && Splits(op2, c2) && op != op2
    ensures AlwaysPreserved(op, c1, op2, c2, exchanged) <==> Harmless(op, c1, op2, c2)
  {
    var e := Mixed(op, c1, op2, c2, exchanged);
    if Harmless(op, c1, op2, c2) {
      forall x, y | Tame(e, Open(x, y), 1) ensures PreservedAt(e, x, y) {
        MixedTame(op, c1, op2, c2, exchanged, x, y);
        HarmlessPreserves(op, c1, op2, c2, exchanged, x, y);
        PreservedAtIff(op, c1, op2, c2, exchanged, x, y);
      }
    } else {
      var x, y := HarmfulShows(op, c1, op2, c2, exchanged);
      MixedTame(op, c1, op2, c2, exchanged, x, y);
      PreservedAtIff(op, c1, op2, c2, exchanged, x, y);
    }
  }

  // ---------- arbitrary subtrees ----------

  /** What `combine` makes of (c1 op near) and (c2 op2 far), in either order. */
  function MixedFlat(op: BinaryOp, c1: Value, near: Expr, op2: BinaryOp, c2: Value, far: Expr, exchanged: bool): Flat
  {
    if exchanged then Combine(op, Split(op2, c2, far), Split(op, c1, near))
    else Combine(op, Split(op, c1, near), Split(op2, c2, far))
  }

  /** Where its constants are harmless, a mixed split stands for the value of the original,
      whatever its subtrees are. */
  lemma MixedDenotes(op: BinaryOp, c1: Value, near: Expr, op2: BinaryOp, c2: Value, far: Expr, exchanged: bool,
                     x: Value, y: Value, scope: Scope, depth: nat)
    requires Splits(op, c1) && Splits(op2, c2) && op != op2 && Harmless(op, c1, op2, c2) && Proper(op, op2, c2, x, y)
    requires Evaluate(near, scope, depth) == Some(x) && Evaluate(far, scope, depth) == Some(y)
    ensures Denotes(MixedFlat(op, c1, near, op2, c2, far, exchanged), OriginalValue(op, c1, op2, c2, x, y), scope, depth)
  {
    var inner := if exchanged then Joined(op, y, x) else Joined(op, x, y);
    var tree := if exchanged then Binary(op, far, near) else Binary(op, near, far);
    if exchanged {
      EvaluateUnfolds(op, far, near, scope, depth);
    } else {
      EvaluateUnfolds(op, near, far, scope, depth);
    }
    JoinedStays(op, c1, op2, c2, exchanged, x, y);
    JoinedInDomain(op, c1, inner);
    HarmlessPreserves(op, c1, op2, c2, exchanged, x, y);
    assert MixedFlat(op, c1, near, op2, c2, far, exchanged) == Split(op, c1, tree);
  }

  /** The joined operands are a proper operand again. */
  lemma JoinedStays(op: BinaryOp, c1: Value, op2: BinaryOp, c2: Value, exchanged: bool, x: Value, y: Value)
    requires Splits(op, c1) && Splits(op2, c2) && op != op2 && Harmless(op, c1, op2, c2) && Proper(op, op2, c2, x, y)
    ensures InDomain(op, if exchanged then Joined(op, y, x) else Joined(op, x, y))
  {
    if IsLogical(op) {
      if IsLogical(op2) {
        assert InDomain(op, y);
      } else {
        UndefinedResult(op, op2, c2, y);
      }
      JoinedInDomain(op, x, y);
      JoinedInDomain(op, y, x);
      Closed(op, x, y);
      Closed(op, y, x);
    }
  }

  /** Subtrees that can take any values independently of each other: the combined form has the
      value of the original at all of them if and only if the constants are harmless. */
  lemma MixedTreesIff(op: BinaryOp, c1: Value, near: Expr, op2: BinaryOp, c2: Value, far: Expr, exchanged: bool,
                      at: (Value, Value) -> Scope, depth: nat)
    requires Splits(op, c1) && Splits(op2, c2) && op != op2
    requires forall x, y :: Evaluate(near, at(x, y), depth) == Some(x) && Evaluate(far, at(x, y), depth) == Some(y)
    ensures (forall x, y :: Proper(op, op2, c2, x, y) ==>
               Evaluate(Rebuild(MixedFlat(op, c1, near, op2, c2, far, exchanged)), at(x, y), depth)
               == Some(OriginalValue(op, c1, op2, c2, x, y)))
       <==> Harmless(op, c1, op2, c2)
  {
    var f := MixedFlat(op, c1, near, op2, c2, far, exchanged);
    if Harmless(op, c1, op2, c2) {
      forall x, y | Proper(op, op2, c2, x, y)
        ensures Evaluate(Rebuild(f), at(x, y), depth) == Some(OriginalValue(op, c1, op2, c2, x, y)) {
        MixedDenotes(op, c1, near, op2, c2, far, exchanged, x, y, at(x, y), depth);
        RebuildDenotes(f, OriginalValue(op, c1, op2, c2, x, y), at(x, y), depth);
      }
    } else {
      var x, y := HarmfulShows(op, c1, op2, c2, exchanged);
      RebuiltEvaluates(op, c1, near, op2, c2, far, exchanged, x, y, at(x, y), depth);
    }
  }

  lemma RebuiltEvaluates(op: BinaryOp, c1: Value, near: Expr, op2: BinaryOp, c2: Value, far: Expr, exchanged: bool,
                         x: Value, y: Value, scope: Scope, depth: nat)
    requires op != op2 && Evaluate(near, scope, depth) == Some(x) && Evaluate(far, scope, depth) == Some(y)
    ensures Evaluate(Rebuild(MixedFlat(op, c1, near, op2, c2, far, exchanged)), scope, depth)
         == Some(FlattenedValue(op, c1, exchanged, x, y))
  {
    var e1, e2 := if exchanged then far else near, if exchanged then near else far;
    EvaluateUnfolds(op, e1, e2, scope, depth);
    EvaluateUnfolds(op, Literal(c1), Binary(op, e1, e2), scope, depth);
  }

  // ---------- whole expressions ----------

  /** A split whose constant does not decide its logical operator. */
  predicate Undecided(f: Flat)
  {
    f.Split? ==> !(IsLogical(f.op) && f.val == Bool(f.op == LogicalOr))
  }

  lemma CombineUndecided(op: BinaryOp, f1: Flat, f2: Flat)
    requires IsReordered(op) && Undecided(f1) && Undecided(f2)
    requires f1.ValueOnly? ==> InDomain(op, f1.val)
    requires f2.ValueOnly? ==> InDomain(op, f2.val)
    requires SplitBy(op, f1) ==> InDomain(op, f1.val)
    requires SplitBy(op, f2) ==> InDomain(op, f2.val)
    ensures Undecided(Combine(op, f1, f2))
  {
  }

  /** The constants of two splits by different operators, that of the operator at hand first. */
  predicate HarmlessMix(op: BinaryOp, f1: Flat, f2: Flat)
  {
    MixedSplit(op, f1, f2) ==>
      if SplitBy(op, f1) then Harmless(op, f1.val, f2.op, f2.val) else Harmless(op, f2.val, f1.op, f1.val)
  }

  /** Every reordered node that meets the mixed-split case has harmless constants. */
  predicate HarmlesslyMixed(e: Expr, known: map<string, Expr>, inline: bool, depth: nat)
    decreases depth, e
  {
    match e
    case Literal(_) => true
    case AttributeReference(name) =>
      name in known && depth > 0 ==> HarmlesslyMixed(known[name], known, inline, depth - 1)
    case Unary(_, child) => HarmlesslyMixed(child, known, inline, depth)
    case Binary(op, child1, child2) =>
      && HarmlesslyMixed(child1, known, inline, depth) && HarmlesslyMixed(child2, known, inline, depth)
      && (IsReordered(op) ==>
        var f1, f2 := FlattenNode(child1, known, inline, depth), FlattenNode(child2, known, inline, depth);
        f1.Some? && f2.Some? ==> HarmlessMix(op, f1.value, f2.value))
    case Ternary(selector, ifTrue, ifFalse) =>
      && HarmlesslyMixed(selector, known, inline, depth)
      && HarmlesslyMixed(ifTrue, known, inline, depth) && HarmlesslyMixed(ifFalse, known, inline, depth)
  }

  /** The reordered operators of an expression, and of the known attributes that it refers to. */
  function Reordered(e: Expr, known: map<string, Expr>, depth: nat): set<BinaryOp>
    decreases depth, e
  {
    match e
    case Literal(_) => {}
    case AttributeReference(name) => if name in known && depth > 0 then Reordered(known[name], known, depth - 1) else {}
    case Unary(_, child) => Reordered(child, known, depth)
    case Binary(op, child1, child2) =>
      Reordered(child1, known, depth) + Reordered(child2, known, depth) + if IsReordered(op) then {op} else {}
    case Ternary(selector, ifTrue, ifFalse) =>
      Reordered(selector, known, depth) + Reordered(ifTrue, known, depth) + Reordered(ifFalse, known, depth)
  }

  /** A node is split by one of its own reordered operators. */
  lemma {:induction false} SplitByReordered(e: Expr, known: map<string, Expr>, inline: bool, depth: nat)
    ensures
      var f := FlattenNode(e, known, inline, depth);
      f.Some? && f.value.Split? ==> f.value.op in Reordered(e, known, depth)
    decreases depth, e
  {
    match e {
      case AttributeReference(name) =>
        if name in known && depth > 0 {
          SplitByReordered(known[name], known, inline, depth - 1);
        }
      case Binary(_, child1, child2) =>
        SplitByReordered(child1, known, inline, depth);
        SplitByReordered(child2, known, inline, depth);
      case _ =>
    }
  }

  /** Operators of one kind never meet the mixed-split case. */
  lemma {:induction false} OneKindIsUnmixed(e: Expr, known: map<string, Expr>, inline: bool, depth: nat, op: BinaryOp)
    requires Reordered(e, known, depth) <= {op}
    ensures Unmixed(e, known, inline, depth)
    decreases depth, e
  {
    match e {
      case Literal(_) =>
      case AttributeReference(name) =>
        if name in known && depth > 0 {
          OneKindIsUnmixed(known[name], known, inline, depth - 1, op);
        }
      case Unary(_, child) =>
        OneKindIsUnmixed(child, known, inline, depth, op);
      case Binary(own, child1, child2) =>
        OneKindIsUnmixed(child1, known, inline, depth, op);
        OneKindIsUnmixed(child2, known, inline, depth, op);
        SplitByReordered(child1, known, inline, depth);
        SplitByReordered(child2, known, inline, depth);
        assert IsReordered(own) ==> own in Reordered(e, known, depth);
      case Ternary(selector, ifTrue, ifFalse) =>
        OneKindIsUnmixed(selector, known, inline, depth, op);
        OneKindIsUnmixed(ifTrue, known, inline, depth, op);
        OneKindIsUnmixed(ifFalse, known, inline, depth, op);
    }
  }

  /** Without a mixed split there is nothing to harm. */
  lemma {:induction false} UnmixedIsHarmless(e: Expr, known: map<string, Expr>, inline: bool, depth: nat)
    requires Unmixed(e, known, inline, depth)
    ensures HarmlesslyMixed(e, known, inline, depth)
    decreases depth, e
  {
    match e {
      case Literal(_) =>
      case AttributeReference(name) =>
        if name in known && depth > 0 {
          UnmixedIsHarmless(known[name], known, inline, depth - 1);
        }
      case Unary(_, child) =>
        UnmixedIsHarmless(child, known, inline, depth);
      case Binary(_, child1, child2) =>
        UnmixedIsHarmless(child1, known, inline, depth);
        UnmixedIsHarmless(child2, known, inline, depth);
      case Ternary(selector, ifTrue, ifFalse) =>
        UnmixedIsHarmless(selector, known, inline, depth);
        UnmixedIsHarmless(ifTrue, known, inline, depth);
        UnmixedIsHarmless(ifFalse, known, inline, depth);
    }
  }

  /** Flattening preserves meaning, for every expression whose mixed splits are harmless. */
  lemma HarmlessPreservesMeaning(e: Expr, scope: Scope, inline: bool, depth: nat)
    requires Tame(e, scope, depth) && HarmlesslyMixed(e, scope.known, inline, depth)
    ensures FlattenWhole(e, scope.known, inline, depth).Some?
    ensures Evaluate(Rebuild(FlattenWhole(e, scope.known, inline, depth).value), scope, depth) == Evaluate(e, scope, depth)
  {
    HarmlessDenote(e, scope, inline, depth);
    var v := WholeOf(e, scope, inline, depth);
  }

  /** So the flattened expression means what the original does. */
  lemma FlattenedMeans(e: Expr, scope: Scope, inline: bool, depth: nat, r: Value)
    requires Tame(e, scope, depth) && HarmlesslyMixed(e, scope.known, inline, depth)
    ensures FlattenWhole(e, scope.known, inline, depth).Some?
    ensures Meanings.HasValue(Rebuild(FlattenWhole(e, scope.known, inline, depth).value), scope, depth, r)
       <==> Meanings.HasValue(e, scope, depth, r)
  {
    HarmlessPreservesMeaning(e, scope, inline, depth);
    Meanings.EvaluatesIff(e, scope, depth, r);
    Meanings.EvaluatesIff(Rebuild(FlattenWhole(e, scope.known, inline, depth).value), scope, depth, r);
  }

  lemma {:induction false} HarmlessDenote(e: Expr, scope: Scope, inline: bool, depth: nat)
    requires Tame(e, scope, depth) && HarmlesslyMixed(e, scope.known, inline, depth)
    ensures MixesDenote(e, scope, inline, depth) && FlattensTo(e, scope, inline, depth)
    ensures Undecided(FlattenNode(e, scope.known, inline, depth).value)
    decreases depth, e
  {
    match e {
      case Literal(_) =>
      case AttributeReference(name) =>
        if name in scope.known && depth > 0 {
          HarmlessDenote(scope.known[name], scope, inline, depth - 1);
        }
      case Unary(_, child) =>
        HarmlessDenote(child, scope, inline, depth);
      case Binary(op, child1, child2) =>
        HarmlessDenote(child1, scope, inline, depth);
        HarmlessDenote(child2, scope, inline, depth);
        if IsReordered(op) {
          HarmlessNode(op, child1, child2, scope, inline, depth);
          UndecidedNode(op, child1, child2, scope, inline, depth);
        }
      case Ternary(selector, ifTrue, ifFalse) =>
        HarmlessDenote(selector, scope, inline, depth);
        HarmlessDenote(ifTrue, scope, inline, depth);
        HarmlessDenote(ifFalse, scope, inline, depth);
    }
    FlattenDenotes(e, scope, inline, depth);
    if !(e.Binary? && IsReordered(e.op)) {
      OnlyCombineSplits(e, scope.known, inline, depth);
    }
  }

  lemma OnlyCombineSplits(e: Expr, known: map<string, Expr>, inline: bool, depth: nat)
    requires !(e.Binary? && IsReordered(e.op)) && FlattenNode(e, known, inline, depth).Some?
    ensures !FlattenNode(e, known, inline, depth).value.Split?
  {
  }

  lemma HarmlessNode(op: BinaryOp, e1: Expr, e2: Expr, scope: Scope, inline: bool, depth: nat)
    requires IsReordered(op) && ValueInDomain(op, e1, scope, depth) && ValueInDomain(op, e2, scope, depth)
    requires FlattensTo(e1, scope, inline, depth) && FlattensTo(e2, scope, inline, depth)
    requires Undecided(FlattenNode(e1, scope.known, inline, depth).value)
    requires Undecided(FlattenNode(e2, scope.known, inline, depth).value)
    requires HarmlessMix(op, FlattenNode(e1, scope.known, inline, depth).value, FlattenNode(e2, scope.known, inline, depth).value)
    ensures NodeDenotes(op, e1, e2, scope, inline, depth)
  {
    var f1 := FlattenNode(e1, scope.known, inline, depth).value;
    var f2 := FlattenNode(e2, scope.known, inline, depth).value;
    var v1, v2 := Evaluate(e1, scope, depth).value, Evaluate(e2, scope, depth).value;
    if MixedSplit(op, f1, f2) {
      MixDenotes(op, f1, v1, f2, v2, scope, depth);
    }
  }

  lemma UndecidedNode(op: BinaryOp, e1: Expr, e2: Expr, scope: Scope, inline: bool, depth: nat)
    requires IsReordered(op) && ValueInDomain(op, e1, scope, depth) && ValueInDomain(op, e2, scope, depth)
    requires FlattensTo(e1, scope, inline, depth) && FlattensTo(e2, scope, inline, depth)
    requires Undecided(FlattenNode(e1, scope.known, inline, depth).value)
    requires Undecided(FlattenNode(e2, scope.known, inline, depth).value)
    ensures Undecided(FlattenNode(Binary(op, e1, e2), scope.known, inline, depth).value)
  {
    CombineUndecided(op, FlattenNode(e1, scope.known, inline, depth).value, FlattenNode(e2, scope.known, inline, depth).value);
  }

  lemma MixDenotes(op: BinaryOp, f1: Flat, v1: Value, f2: Flat, v2: Value, scope: Scope, depth: nat)
    requires IsReordered(op) && InDomain(op, v1) && InDomain(op, v2) && MixedSplit(op, f1, f2) && HarmlessMix(op, f1, f2)
    requires Denotes(f1, v1, scope, depth) && Denotes(f2, v2, scope, depth) && Undecided(f1) && Undecided(f2)
    ensures Denotes(Combine(op, f1, f2), DoBinary(op, v1, v2), scope, depth)
  {
    var x, y := Evaluate(f1.tree, scope, depth).value, Evaluate(f2.tree, scope, depth).value;
    if SplitBy(op, f1) {
      MixedDenotes(op, f1.val, f1.tree, f2.op, f2.val, f2.tree, false, x, y, scope, depth);
    } else {
      MixedDenotes(op, f2.val, f2.tree, f1.op, f1.val, f1.tree, true, y, x, scope, depth);
      Commutes(op, v1, v2);
    }
  }

  // ---------- an input ----------

  /** (1 + x) + (2 * y) at x = 0 and y = 1 is 3; it flattens to 1 + (x + y). */
  lemma MixedSplitCounterexample(exchanged: bool)
    ensures !AlwaysPreserved(Addition, Int(1), Multiplication, Int(2), exchanged)
  {
    MixedPreservedIff(Addition, Int(1), Multiplication, Int(2), exchanged);
  }

  // ---------- harmless constants ----------

  lemma HarmlessPreserves(op: BinaryOp, c1: Value, op2: BinaryOp, c2: Value, exchanged: bool, x: Value, y: Value)
    requires Splits(op, c1) && Splits(op2, c2) && op != op2
    requires Harmless(op, c1, op2, c2) && Proper(op, op2, c2, x, y)
    ensures FlattenedValue(op, c1, exchanged, x, y) == OriginalValue(op, c1, op2, c2, x, y)
  {
    if IsLogical(op2) && c2.Bool? {
      LogicalUnit(op2, c2, y);
      FlattenedRegroups(op, c1, exchanged, x, y);
    } else if IsLogical(op) {
      UndefinedResult(op, op2, c2, y);
      FlattenedRegroups(op, c1, exchanged, x, y);
    } else if c1.Error? {
      ErrorWins(op, c1, x, DoBinary(op2, c2, y));
      FlattenedError(op, c1, exchanged, x, y);
    } else {
      SameDomain(op, op2, y);
      FlattenedRegroups(op, c1, exchanged, x, y);
      if c1.Undefined? {
        UndefinedWins(op, c1, op2, c2, x, y);
      } else {
        NumbersAgree(op, c1, op2, c2, x, y);
      }
    }
  }

  lemma LogicalUnit(op: BinaryOp, c: Value, y: Value)
    requires IsLogical(op) && Splits(op, c) && c.Bool? && InDomain(op, y)
    ensures DoBinary(op, c, y) == y
  {
  }

  /** The result of a strict operator is a proper logical operand only if it is undefined. */
  lemma UndefinedResult(op: BinaryOp, op2: BinaryOp, c2: Value, y: Value)
    requires IsLogical(op) && IsReordered(op2) && !IsLogical(op2) && !c2.Undefined?
    requires InDomain(op, DoBinary(op2, c2, y))
    ensures DoBinary(op2, c2, y) == y == Undefined
  {
  }

  lemma ErrorWins(op: BinaryOp, c1: Value, x: Value, v: Value)
    requires IsReordered(op) && !IsLogical(op) && c1.Error?
    ensures DoBinary(op, c1, x) == Error && DoBinary(op, DoBinary(op, c1, x), v) == Error
  {
  }

  lemma FlattenedError(op: BinaryOp, c1: Value, exchanged: bool, x: Value, y: Value)
    requires IsReordered(op) && !IsLogical(op) && c1.Error?
    ensures FlattenedValue(op, c1, exchanged, x, y) == Error
  {
  }

  lemma SameDomain(op: BinaryOp, op2: BinaryOp, y: Value)
    requires IsReordered(op) && IsReordered(op2) && !IsLogical(op)
    requires IsArithmetic(op) || (IsBitwise(op) && IsBitwise(op2))
    requires InDomain(op2, y)
    ensures InDomain(op, y)
  {
  }

  lemma UndefinedWins(op: BinaryOp, c1: Value, op2: BinaryOp, c2: Value, x: Value, y: Value)
    requires IsReordered(op) && !IsLogical(op) && c1.Undefined? && IsReordered(op2) && InDomain(op2, c2)
    requires !c2.Error? && InDomain(op2, y)
    ensures DoBinary(op, DoBinary(op, c1, x), y) == OriginalValue(op, c1, op2, c2, x, y)
  {
    var u, v := DoBinary(op, c1, x), DoBinary(op2, c2, y);
    assert u == if x.Error? then Error else Undefined;
    NoNewError(op2, c2, y);
  }

  lemma NoNewError(op: BinaryOp, c: Value, y: Value)
    requires IsReordered(op) && InDomain(op, c) && InDomain(op, y) && !c.Error?
    ensures DoBinary(op, c, y).Error? <==> y.Error?
  {
  }

  lemma FoldsWord(op: BinaryOp, a: Value, b: Value)
    requires IsArithmetic(op) || IsBitwise(op)
    requires IsNumeric(a) && IsNumeric(b) && InDomain(op, a) && InDomain(op, b)
    ensures DoBinary(op, a, b) == Int(Word(op, AsInteger(a), AsInteger(b)))
  {
    if IsBitwise(op) {
      FoldsWords(op, a.i, b.i);
    } else {
      FoldsIntegers(op, a, b);
    }
  }

  lemma NumbersAgree(op: BinaryOp, c1: Value, op2: BinaryOp, c2: Value, x: Value, y: Value)
    requires Comparable(op, op2) && IsNumeric(c1) && IsNumeric(c2)
    requires InDomain(op, c1) && InDomain(op, x) && InDomain(op2, c2) && InDomain(op2, y) && InDomain(op, y)
    requires Agree(op, AsInteger(c1), op2, AsInteger(c2))
    ensures DoBinary(op, DoBinary(op, c1, x), y) == OriginalValue(op, c1, op2, c2, x, y)
  {
    if IsNumeric(x) && IsNumeric(y) {
      FoldsWord(op, c1, x);
      FoldsWord(op2, c2, y);
      WordsAgree(op, AsInteger(c1), op2, AsInteger(c2), AsInteger(x), y);
    } else {
      ExceptionsAgree(op, c1, op2, c2, x, y);
    }
  }

  lemma WordsAgree(op: BinaryOp, a: int32, op2: BinaryOp, b: int32, x: int32, y: Value)
    requires Comparable(op, op2) && IsNumeric(y) && InDomain(op, y) && Agree(op, a, op2, b)
    ensures DoBinary(op, Int(Word(op, a, x)), y) == DoBinary(op, Int(Word(op, a, x)), Int(Word(op2, b, AsInteger(y))))
  {
    AbsorbedIffAgree(op, a, op2, b);
    assert AbsorbedAt(op, a, op2, b, x, AsInteger(y));
    FoldsWord(op, Int(Word(op, a, x)), y);
    FoldsWord(op, Int(Word(op, a, x)), Int(Word(op2, b, AsInteger(y))));
  }

  lemma ExceptionsAgree(op: BinaryOp, c1: Value, op2: BinaryOp, c2: Value, x: Value, y: Value)
    requires Comparable(op, op2) && IsNumeric(c1) && IsNumeric(c2)
    requires InDomain(op, c1) && InDomain(op, x) && InDomain(op2, c2) && InDomain(op2, y) && InDomain(op, y)
    requires !(IsNumeric(x) && IsNumeric(y))
    ensures DoBinary(op, DoBinary(op, c1, x), y) == OriginalValue(op, c1, op2, c2, x, y)
  {
    if IsNumeric(y) {
      var v := NumberResult(op2, c2, y);
      ExceptionPasses(op, c1, x);
      ExceptionLeads(op, x, y);
      ExceptionLeads(op, x, v);
    } else {
      ExceptionPasses(op2, c2, y);
    }
  }

  lemma ExceptionLeads(op: BinaryOp, x: Value, y: Value)
    requires (IsArithmetic(op) || IsBitwise(op)) && !IsNumeric(x) && IsNumeric(y)
    ensures DoBinary(op, x, y) == x
  {
  }

  lemma ExceptionPasses(op: BinaryOp, c: Value, x: Value)
    requires (IsArithmetic(op) || IsBitwise(op)) && IsNumeric(c) && !IsNumeric(x)
    ensures DoBinary(op, c, x) == x
  {
  }

  lemma NumberResult(op: BinaryOp, c: Value, x: Value) returns (v: Value)
    requires (IsArithmetic(op) || IsBitwise(op)) && IsNumeric(c) && IsNumeric(x) && InDomain(op, c) && InDomain(op, x)
    ensures v == DoBinary(op, c, x) && v.Int?
  {
    v := DoBinary(op, c, x);
    FoldsWord(op, c, x);
  }

  // ---------- harmful constants ----------

  /** For harmful constants, values at which the flattened expression differs. */
  lemma HarmfulShows(op: BinaryOp, c1: Value, op2: BinaryOp, c2: Value, exchanged: bool) returns (x: Value, y: Value)
    requires Splits(op, c1) && Splits(op2, c2) && op != op2 && !Harmless(op, c1, op2, c2)
    ensures Differs(op, c1, op2, c2, exchanged, x, y)
  {
    if IsLogical(op) {
      x, y := LogicalHarm(op, c1, op2, c2, exchanged);
    } else if IsLogical(op2) {
      x, y := OverLogicalHarm(op, c1, op2, c2, exchanged);
    } else if IsBitwise(op) && IsArithmetic(op2) {
      x, y := OverArithmeticHarm(op, c1, op2, c2, exchanged);
    } else if IsNumeric(c1) && IsNumeric(c2) {
      x, y := NumberHarm(op, c1, op2, c2, exchanged);
    } else {
      x, y := Int(0), Int(0);
      ExceptionHarm(op, c1, op2, c2, exchanged);
    }
  }

  /** At x and y the flattened expression differs. */
  ghost predicate Differs(op: BinaryOp, c1: Value, op2: BinaryOp, c2: Value, exchanged: bool, x: Value, y: Value)
  {
    && Proper(op, op2, c2, x, y)
    && FlattenedValue(op, c1, exchanged, x, y) != OriginalValue(op, c1, op2, c2, x, y)
  }

  lemma NoBoolean(op: BinaryOp, c: Value, y: Value)
    requires IsArithmetic(op) || IsBitwise(op)
    ensures !DoBinary(op, c, y).Bool?
  {
  }

  lemma ProperOperands(op: BinaryOp, op2: BinaryOp, c2: Value, x: Value, y: Value)
    requires !IsLogical(op) && (IsArithmetic(op2) || IsBitwise(op2))
    requires InDomain(op, x) && InDomain(op2, y)
    ensures Proper(op, op2, c2, x, y)
  {
    NoBoolean(op2, c2, y);
  }

  lemma LogicalHarm(op: BinaryOp, c1: Value, op2: BinaryOp, c2: Value, exchanged: bool) returns (x: Value, y: Value)
    requires Splits(op, c1) && Splits(op2, c2) && op != op2 && IsLogical(op) && c2.Undefined?
    ensures Differs(op, c1, op2, c2, exchanged, x, y)
  {
    x := Bool(op == LogicalAnd);
    if IsLogical(op2) {
      y := Bool(op2 == LogicalAnd);
      FlattenedRegroups(op, c1, exchanged, x, y);
    } else {
      y := Int(0);
      IntegerInLogic(op, c1, exchanged, y);
    }
    assert DoBinary(op2, c2, y) == Undefined;
  }

  lemma IntegerInLogic(op: BinaryOp, c1: Value, exchanged: bool, y: Value)
    requires IsLogical(op) && Splits(op, c1) && y.Int?
    ensures FlattenedValue(op, c1, exchanged, Bool(op == LogicalAnd), y) == Error
    ensures DoBinary(op, DoBinary(op, c1, Bool(op == LogicalAnd)), Undefined) == Undefined
  {
  }

  /** A boolean y that leaves an undefined constant undefined. */
  lemma OverLogicalHarm(op: BinaryOp, c1: Value, op2: BinaryOp, c2: Value, exchanged: bool) returns (x: Value, y: Value)
    requires Splits(op, c1) && Splits(op2, c2) && IsLogical(op2) && !IsLogical(op)
    requires c2.Undefined? && !c1.Error? && (IsArithmetic(op) ==> !c1.Undefined?)
    ensures Differs(op, c1, op2, c2, exchanged, x, y)
  {
    x, y := Int(0), Bool(op2 == LogicalAnd);
    assert DoBinary(op2, c2, y) == Undefined;
    if IsArithmetic(op) {
      UndefinedOverNumber(op, c1, op2, c2, exchanged, x, y);
    } else {
      UndefinedOverMask(op, c1, op2, c2, exchanged, x, y);
    }
  }

  lemma UndefinedOverMask(op: BinaryOp, c1: Value, op2: BinaryOp, c2: Value, exchanged: bool, x: Value, y: Value)
    requires Splits(op, c1) && IsBitwise(op) && !c1.Error? && x == Int(0) && y.Bool? && IsLogical(op2)
    requires DoBinary(op2, c2, y) == Undefined
    ensures Differs(op, c1, op2, c2, exchanged, x, y)
  {
    BooleanInMask(op, c1, exchanged, y);
    MaskedUndefined(op, DoBinary(op, c1, x));
    assert OriginalValue(op, c1, op2, c2, x, y) == Undefined;
  }

  lemma MaskedUndefined(op: BinaryOp, v: Value)
    requires IsBitwise(op) && (v.Int? || v.Undefined?)
    ensures DoBinary(op, v, Undefined) == Undefined
  {
  }

  lemma UndefinedOverNumber(op: BinaryOp, c1: Value, op2: BinaryOp, c2: Value, exchanged: bool, x: Value, y: Value)
    requires Splits(op, c1) && IsArithmetic(op) && !c1.Error? && !c1.Undefined? && x == Int(0) && y.Bool? && IsLogical(op2)
    requires DoBinary(op2, c2, y) == Undefined
    ensures Differs(op, c1, op2, c2, exchanged, x, y)
  {
    var u := NumberResult(op, c1, x);
    var _ := NumberResult(op, u, y);
    FlattenedRegroups(op, c1, exchanged, x, y);
  }

  lemma BooleanInMask(op: BinaryOp, c1: Value, exchanged: bool, y: Value)
    requires IsBitwise(op) && InDomain(op, c1) && y.Bool?
    ensures FlattenedValue(op, c1, exchanged, Int(0), y) == Error
    ensures !c1.Error? ==> DoBinary(op, c1, Int(0)).Int? || DoBinary(op, c1, Int(0)).Undefined?
  {
  }

  lemma OverArithmeticHarm(op: BinaryOp, c1: Value, op2: BinaryOp, c2: Value, exchanged: bool) returns (x: Value, y: Value)
    requires Splits(op, c1) && Splits(op2, c2) && IsBitwise(op) && IsArithmetic(op2) && !c1.Error?
    ensures Differs(op, c1, op2, c2, exchanged, x, y)
  {
    x := Int(0);
    BooleanInMask(op, c1, exchanged, Bool(true));
    if c2.Error? {
      y := Int(0);
      FlattenedRegroups(op, c1, exchanged, x, y);
      NoErrorFromMask(op, DoBinary(op, c1, x), y);
      ErrorFromConstant(op, DoBinary(op, c1, x), op2, c2, y);
    } else {
      y := Bool(true);
      BooleanSum(op2, c2);
      NoErrorFromMask(op, DoBinary(op, c1, x), DoBinary(op2, c2, y));
    }
    ProperOperands(op, op2, c2, x, y);
  }

  lemma ErrorFromConstant(op: BinaryOp, u: Value, op2: BinaryOp, c: Value, y: Value)
    requires IsStrict(op) && IsStrict(op2) && c.Error?
    ensures DoBinary(op, u, DoBinary(op2, c, y)) == Error
  {
  }

  lemma BooleanSum(op: BinaryOp, c: Value)
    requires IsArithmetic(op) && !c.Error?
    ensures DoBinary(op, c, Bool(true)).Int? || DoBinary(op, c, Bool(true)).Undefined?
  {
    if IsNumeric(c) {
      var _ := NumberResult(op, c, Bool(true));
    }
  }

  lemma NoErrorFromMask(op: BinaryOp, u: Value, v: Value)
    requires IsBitwise(op) && (u.Int? || u.Undefined?) && (v.Int? || v.Undefined?)
    ensures !DoBinary(op, u, v).Error?
  {
  }

  lemma ExceptionHarm(op: BinaryOp, c1: Value, op2: BinaryOp, c2: Value, exchanged: bool)
    requires Splits(op, c1) && Splits(op2, c2) && Comparable(op, op2)
    requires if IsNumeric(c1) then !IsNumeric(c2) else c1.Undefined? && c2.Error?
    ensures Differs(op, c1, op2, c2, exchanged, Int(0), Int(0))
  {
    var zero := Int(0);
    ProperOperands(op, op2, c2, zero, zero);
    FlattenedRegroups(op, c1, exchanged, zero, zero);
    ExceptionStays(op2, c2, zero);
    ExceptionReplaces(op, c1, c2, zero);
    Different(op, c1, op2, c2, exchanged, zero, zero, c2);
  }

  lemma Different(op: BinaryOp, c1: Value, op2: BinaryOp, c2: Value, exchanged: bool, x: Value, y: Value, v: Value)
    requires Proper(op, op2, c2, x, y) && v == DoBinary(op2, c2, y)
    requires FlattenedValue(op, c1, exchanged, x, y) != DoBinary(op, DoBinary(op, c1, x), v)
    ensures Differs(op, c1, op2, c2, exchanged, x, y)
  {
  }

  lemma ExceptionStays(op: BinaryOp, c: Value, i: Value)
    requires (IsArithmetic(op) || IsBitwise(op)) && !IsNumeric(c) && i.Int?
    ensures DoBinary(op, c, i) == c
  {
  }

  lemma ExceptionReplaces(op: BinaryOp, c1: Value, c2: Value, i: Value)
    requires (IsArithmetic(op) || IsBitwise(op)) && InDomain(op, c1)
    requires if IsNumeric(c1) then !IsNumeric(c2) else c1.Undefined? && c2.Error?
    requires i.Int?
    ensures DoBinary(op, DoBinary(op, c1, i), i) != DoBinary(op, DoBinary(op, c1, i), c2)
  {
    var u := DoBinary(op, c1, i);
    ExceptionOrNumber(op, c1, i);
    ExceptionOrNumber(op, u, i);
    ExceptionShows(op, u, c2);
  }

  lemma ExceptionOrNumber(op: BinaryOp, c: Value, i: Value)
    requires (IsArithmetic(op) || IsBitwise(op)) && InDomain(op, c) && i.Int?
    ensures if IsNumeric(c) then DoBinary(op, c, i).Int? else DoBinary(op, c, i) == c
  {
    if IsNumeric(c) {
      FoldsWord(op, c, i);
    }
  }

  lemma ExceptionShows(op: BinaryOp, u: Value, c: Value)
    requires (IsArithmetic(op) || IsBitwise(op)) && (u.Int? || u.Undefined?)
    requires if u.Int? then c.Undefined? || c.Error? else c.Error?
    ensures DoBinary(op, u, c) == c
  {
  }

  // integer operands: both values are words

  lemma FoldsInts(op: BinaryOp, i: int32, j: int32)
    requires IsArithmetic(op) || IsBitwise(op)
    ensures DoBinary(op, Int(i), Int(j)) == Int(Word(op, i, j))
  {
    FoldsWord(op, Int(i), Int(j));
  }

  lemma FlattenedNumbers(op: BinaryOp, c1: Value, exchanged: bool, x: int32, y: int32)
    requires Splits(op, c1) && !IsLogical(op) && IsNumeric(c1)
    ensures FlattenedValue(op, c1, exchanged, Int(x), Int(y)) == Int(Word(op, Word(op, AsInteger(c1), x), y))
  {
    FlattenedRegroups(op, c1, exchanged, Int(x), Int(y));
    FoldsWord(op, c1, Int(x));
    FoldsInts(op, Word(op, AsInteger(c1), x), y);
  }

  lemma OriginalNumbers(op: BinaryOp, c1: Value, op2: BinaryOp, c2: Value, x: int32, y: int32)
    requires Comparable(op, op2) && IsNumeric(c1) && IsNumeric(c2) && InDomain(op, c1) && InDomain(op2, c2)
    ensures OriginalValue(op, c1, op2, c2, Int(x), Int(y))
         == Int(Word(op, Word(op, AsInteger(c1), x), Word(op2, AsInteger(c2), y)))
  {
    FoldsWord(op, c1, Int(x));
    FoldsWord(op2, c2, Int(y));
    FoldsInts(op, Word(op, AsInteger(c1), x), Word(op2, AsInteger(c2), y));
  }

  lemma NumberHarm(op: BinaryOp, c1: Value, op2: BinaryOp, c2: Value, exchanged: bool) returns (x: Value, y: Value)
    requires Splits(op, c1) && Splits(op2, c2) && Comparable(op, op2) && IsNumeric(c1) && IsNumeric(c2)
    requires !Agree(op, AsInteger(c1), op2, AsInteger(c2))
    ensures Differs(op, c1, op2, c2, exchanged, x, y)
  {
    var i, j := DifferingWords(op, AsInteger(c1), op2, AsInteger(c2));
    x, y := Int(i), Int(j);
    FlattenedNumbers(op, c1, exchanged, i, j);
    OriginalNumbers(op, c1, op2, c2, i, j);
    ProperOperands(op, op2, c2, x, y);
  }
}
