/**
 Partial evaluation of expressions: Operation::_Flatten, combine and flattenSpecials
 (src/classad/operators.cpp), AttributeReference::_Flatten (src/classad/attrrefs.cpp) and
 Literal::_Flatten (src/classad/literals.cpp). A reordered operator is split into a folded
 constant and a residual tree; the result must evaluate as the original does.
 */
module Flatten {
  import opened Options
  import opened Expressions

  /** What flattening returns: a value, a tree, or a value and a tree still to be joined by
      `op` (the `opPtr` out-parameter). */
  datatype Flat =
    | ValueOnly(val: Value)
    | TreeOnly(tree: Expr)
    | Split(op: BinaryOp, val: Value, tree: Expr)

  /** The expression that a result stands for. */
  function Rebuild(f: Flat): Expr
  {
    match f
    case ValueOnly(v) => Literal(v)
    case TreeOnly(t) => t
    case Split(op, v, t) => Binary(op, Literal(v), t)
  }

  /** Splitting disallowed: fold a value and a tree into one tree. */
  function Whole(f: Flat): Flat
  {
    if f.Split? then TreeOnly(Rebuild(f)) else f
  }

  predicate SplitBy(op: BinaryOp, f: Flat)
  {
    f.Split? && f.op == op
  }

  function ValueOr(f: Flat, default: Value): Value
  {
    if f.ValueOnly? then f.val else default
  }

  function Combine(op: BinaryOp, f1: Flat, f2: Flat): Flat
  {
    var dontCare := DoBinary(op, ValueOr(f1, Undefined), ValueOr(f2, Undefined));
    if IsLogical(op) && f1.ValueOnly? != f2.ValueOnly? && dontCare.Bool? then
      ValueOnly(dontCare)
    else if f1.ValueOnly? && f2.ValueOnly? then
      ValueOnly(DoBinary(op, f1.val, f2.val))
    else if f1.ValueOnly? && f2.TreeOnly? then
      Split(op, f1.val, f2.tree)
    else if f2.ValueOnly? && f1.TreeOnly? then
      Split(op, f2.val, f1.tree)
    else if f1.TreeOnly? && f2.TreeOnly? then
      TreeOnly(Binary(op, f1.tree, f2.tree))
    else if !SplitBy(op, f1) && !SplitBy(op, f2) then
      TreeOnly(Binary(op, Rebuild(f1), Rebuild(f2)))
    else if SplitBy(op, f1) && SplitBy(op, f2) then
      Split(op, DoBinary(op, f1.val, f2.val), Binary(op, f1.tree, f2.tree))
    else if SplitBy(op, f1) then
      if f2.ValueOnly? then Split(op, DoBinary(op, f1.val, f2.val), f1.tree)
      else Split(op, f1.val, Binary(op, f1.tree, f2.tree))
    else
      if f1.ValueOnly? then Split(op, DoBinary(op, f1.val, f2.val), f2.tree)
      else Split(op, f2.val, Binary(op, f1.tree, f2.tree))
  }

  /** The case in which `combine` keeps one constant and loses the other: one child is split
      by the operator at hand and the other one by a different operator. */
  predicate MixedSplit(op: BinaryOp, f1: Flat, f2: Flat)
  {
    f1.Split? && f2.Split? && (SplitBy(op, f1) != SplitBy(op, f2))
  }

  /** `None` is a failed flattening: the chain of attribute references was too deep. `inline`
      selects FlattenAndInline, which keeps the tree of a known attribute. */
  function FlattenNode(e: Expr, known: map<string, Expr>, inline: bool, depth: nat): Option<Flat>
    decreases depth, e, 1
  {
    match e
    case Literal(v) => Some(ValueOnly(v))
    case AttributeReference(name) =>
      if name !in known then Some(TreeOnly(e))
      else if depth == 0 then None
      else
        var f := FlattenWhole(known[name], known, inline, depth - 1);
        if f.None? || f.value.ValueOnly? || inline then f else Some(TreeOnly(e))
    case Unary(op, child) =>
      var f := FlattenWhole(child, known, inline, depth);
      if f.None? then None
      else if f.value.ValueOnly? then Some(ValueOnly(DoUnary(op, f.value.val)))
      else Some(TreeOnly(Unary(op, Rebuild(f.value))))
    case Binary(op, child1, child2) =>
      if IsReordered(op) then
        var f1, f2 := FlattenNode(child1, known, inline, depth), FlattenNode(child2, known, inline, depth);
        if f1.None? || f2.None? then None else Some(Combine(op, f1.value, f2.value))
      else
        var f1, f2 := FlattenWhole(child1, known, inline, depth), FlattenWhole(child2, known, inline, depth);
        if f1.None? || f2.None? then None
        else if f1.value.ValueOnly? && f2.value.ValueOnly? then
          Some(ValueOnly(DoBinary(op, f1.value.val, f2.value.val)))
        else Some(TreeOnly(Binary(op, Rebuild(f1.value), Rebuild(f2.value))))
    case Ternary(selector, ifTrue, ifFalse) =>
      var f := FlattenWhole(selector, known, inline, depth);
      if f.None? then None
      else if f.value.ValueOnly? && !f.value.val.Undefined? then
        if !f.value.val.Bool? then Some(ValueOnly(Error))
        else FlattenWhole(if f.value.val.b then ifTrue else ifFalse, known, inline, depth)
      else
        var f2, f3 := FlattenWhole(ifTrue, known, inline, depth), FlattenWhole(ifFalse, known, inline, depth);
        if f2.None? || f3.None? then None
        else
          var kept := if f.value.ValueOnly? then selector else Rebuild(f.value);
          Some(TreeOnly(Ternary(kept, Rebuild(f2.value), Rebuild(f3.value))))
  }

  function FlattenWhole(e: Expr, known: map<string, Expr>, inline: bool, depth: nat): Option<Flat>
    decreases depth, e, 2
  {
    var f := FlattenNode(e, known, inline, depth);
    if f.None? then None else Some(Whole(f.value))
  }

  // ---------- what the theorem asks of the expression ----------

  ghost predicate ValueInDomain(op: BinaryOp, e: Expr, scope: Scope, depth: nat)
  {
    var v := Evaluate(e, scope, depth);
    v.Some? && InDomain(op, v.value)
  }

  /** Where both operands are integers, the shift is one that the language defines. */
  ghost predicate ShiftInRange(op: BinaryOp, e1: Expr, e2: Expr, scope: Scope, depth: nat)
  {
    var v1, v2 := Evaluate(e1, scope, depth), Evaluate(e2, scope, depth);
    v1.Some? && v2.Some? && v1.value.Int? && v2.value.Int? ==> ShiftDefined(op, v1.value.i, v2.value.i)
  }

  /** The depth limit is not reached anywhere, the operands of && and || are boolean or
      undefined, the operands of &, | and ^ are not boolean, and shift counts are in range. */
  ghost predicate Tame(e: Expr, scope: Scope, depth: nat)
    decreases depth, e
  {
    match e
    case Literal(_) => true
    case AttributeReference(name) =>
      name in scope.known ==> depth > 0 && Tame(scope.known[name], scope, depth - 1)
    case Unary(_, child) => Tame(child, scope, depth)
    case Binary(op, child1, child2) =>
      && Tame(child1, scope, depth) && Tame(child2, scope, depth)
      && (IsReordered(op) ==> ValueInDomain(op, child1, scope, depth) && ValueInDomain(op, child2, scope, depth))
      && (IsShift(op) ==> ShiftInRange(op, child1, child2, scope, depth))
    case Ternary(selector, ifTrue, ifFalse) =>
      Tame(selector, scope, depth) && Tame(ifTrue, scope, depth) && Tame(ifFalse, scope, depth)
  }

  /** No reordered node meets the mixed-split case. */
  predicate Unmixed(e: Expr, known: map<string, Expr>, inline: bool, depth: nat)
    decreases depth, e
  {
    match e
    case Literal(_) => true
    case AttributeReference(name) =>
      name in known && depth > 0 ==> Unmixed(known[name], known, inline, depth - 1)
    case Unary(_, child) => Unmixed(child, known, inline, depth)
    case Binary(op, child1, child2) =>
      && Unmixed(child1, known, inline, depth) && Unmixed(child2, known, inline, depth)
      && (IsReordered(op) ==>
        var f1, f2 := FlattenNode(child1, known, inline, depth), FlattenNode(child2, known, inline, depth);
        f1.Some? && f2.Some? ==> !MixedSplit(op, f1.value, f2.value))
    case Ternary(selector, ifTrue, ifFalse) =>
      Unmixed(selector, known, inline, depth) && Unmixed(ifTrue, known, inline, depth) && Unmixed(ifFalse, known, inline, depth)
  }

  // ---------- the proof ----------

  /** `f` stands for the value `v`; a split moreover keeps both of its parts in the domain on
      which its operator may be regrouped. */
  ghost predicate Denotes(f: Flat, v: Value, scope: Scope, depth: nat)
  {
    match f
    case ValueOnly(val) => val == v
    case TreeOnly(tree) => Evaluate(tree, scope, depth) == Some(v)
    case Split(op, val, tree) =>
      && IsReordered(op) && InDomain(op, val) && ValueInDomain(op, tree, scope, depth)
      && v == DoBinary(op, val, Evaluate(tree, scope, depth).value)
  }

  /** Short-circuiting does not show on operands in the domain. */
  lemma EvaluateBinary(op: BinaryOp, e1: Expr, e2: Expr, scope: Scope, depth: nat)
    requires Evaluate(e1, scope, depth).Some? && Evaluate(e2, scope, depth).Some?
    requires IsReordered(op) ==> ValueInDomain(op, e1, scope, depth) && ValueInDomain(op, e2, scope, depth)
    ensures Evaluate(Binary(op, e1, e2), scope, depth)
         == Some(DoBinary(op, Evaluate(e1, scope, depth).value, Evaluate(e2, scope, depth).value))
  {
    var v1, v2 := Evaluate(e1, scope, depth).value, Evaluate(e2, scope, depth).value;
    EvaluateUnfolds(op, e1, e2, scope, depth);
    if ShortCircuits(op, v1) {
      ShortCircuitAgrees(op, v1, v2);
    }
  }

  lemma EvaluateUnfolds(op: BinaryOp, e1: Expr, e2: Expr, scope: Scope, depth: nat)
    requires Evaluate(e1, scope, depth).Some? && Evaluate(e2, scope, depth).Some?
    ensures Evaluate(Binary(op, e1, e2), scope, depth) == Some(
      if ShortCircuits(op, Evaluate(e1, scope, depth).value) then Evaluate(e1, scope, depth).value
      else DoBinary(op, Evaluate(e1, scope, depth).value, Evaluate(e2, scope, depth).value))
  {
  }

  lemma ShortCircuitAgrees(op: BinaryOp, v1: Value, v2: Value)
    requires ShortCircuits(op, v1) && InDomain(op, v2)
    ensures DoBinary(op, v1, v2) == v1
  {
  }

  lemma RebuildDenotes(f: Flat, v: Value, scope: Scope, depth: nat)
    requires Denotes(f, v, scope, depth)
    ensures Evaluate(Rebuild(f), scope, depth) == Some(v)
  {
    if f.Split? {
      EvaluateBinary(f.op, Literal(f.val), f.tree, scope, depth);
    }
  }

  lemma DontCareDenotes(op: BinaryOp, f1: Flat, v1: Value, f2: Flat, v2: Value)
    requires IsLogical(op) && InDomain(op, v1) && InDomain(op, v2)
    requires f1.ValueOnly? != f2.ValueOnly?
    requires f1.ValueOnly? ==> f1.val == v1
    requires f2.ValueOnly? ==> f2.val == v2
    requires DoBinary(op, ValueOr(f1, Undefined), ValueOr(f2, Undefined)).Bool?
    ensures DoBinary(op, ValueOr(f1, Undefined), ValueOr(f2, Undefined)) == DoBinary(op, v1, v2)
  {
  }

  lemma TreesDenote(op: BinaryOp, t1: Expr, t2: Expr, scope: Scope, depth: nat)
    requires IsReordered(op) && ValueInDomain(op, t1, scope, depth) && ValueInDomain(op, t2, scope, depth)
    ensures ValueInDomain(op, Binary(op, t1, t2), scope, depth)
    ensures Evaluate(Binary(op, t1, t2), scope, depth)
         == Some(DoBinary(op, Evaluate(t1, scope, depth).value, Evaluate(t2, scope, depth).value))
  {
    EvaluateBinary(op, t1, t2, scope, depth);
    Closed(op, Evaluate(t1, scope, depth).value, Evaluate(t2, scope, depth).value);
  }

  /** Both children split by the operator: constants with constants, trees with trees. */
  lemma BothSplitDenote(op: BinaryOp, f1: Flat, v1: Value, f2: Flat, v2: Value, scope: Scope, depth: nat)
    requires IsReordered(op) && SplitBy(op, f1) && SplitBy(op, f2)
    requires Denotes(f1, v1, scope, depth) && Denotes(f2, v2, scope, depth)
    ensures Denotes(Split(op, DoBinary(op, f1.val, f2.val), Binary(op, f1.tree, f2.tree)),
                    DoBinary(op, v1, v2), scope, depth)
  {
    var t1, t2 := Evaluate(f1.tree, scope, depth).value, Evaluate(f2.tree, scope, depth).value;
    TreesDenote(op, f1.tree, f2.tree, scope, depth);
    Closed(op, f1.val, f2.val);
    Regroups(op, f1.val, t1, f2.val, t2);
  }

  /** One child split by the operator, the other one a value in the domain. */
  lemma SplitAndValueDenote(op: BinaryOp, f: Flat, v: Value, val: Value, scope: Scope, depth: nat)
    requires IsReordered(op) && SplitBy(op, f) && Denotes(f, v, scope, depth) && InDomain(op, val)
    ensures Denotes(Split(op, DoBinary(op, f.val, val), f.tree), DoBinary(op, v, val), scope, depth)
    ensures Denotes(Split(op, DoBinary(op, val, f.val), f.tree), DoBinary(op, val, v), scope, depth)
  {
    var t := Evaluate(f.tree, scope, depth).value;
    Closed(op, f.val, val);
    Closed(op, val, f.val);
    Closed(op, t, val);
    Associates(op, val, f.val, t);
    Associates(op, f.val, t, val);
    Commutes(op, t, val);
    Associates(op, f.val, val, t);
  }

  /** One child split by the operator, the other one a tree in the domain. */
  lemma SplitAndTreeDenote(op: BinaryOp, f: Flat, v: Value, tree: Expr, scope: Scope, depth: nat)
    requires IsReordered(op) && SplitBy(op, f) && Denotes(f, v, scope, depth) && ValueInDomain(op, tree, scope, depth)
    ensures Denotes(Split(op, f.val, Binary(op, f.tree, tree)),
                    DoBinary(op, v, Evaluate(tree, scope, depth).value), scope, depth)
    ensures Denotes(Split(op, f.val, Binary(op, tree, f.tree)),
                    DoBinary(op, Evaluate(tree, scope, depth).value, v), scope, depth)
  {
    var t, u := Evaluate(f.tree, scope, depth).value, Evaluate(tree, scope, depth).value;
    TreesDenote(op, f.tree, tree, scope, depth);
    TreesDenote(op, tree, f.tree, scope, depth);
    Associates(op, f.val, t, u);
    Associates(op, u, f.val, t);
    Commutes(op, u, f.val);
    Associates(op, f.val, u, t);
  }

  /** Outside the mixed-split case `combine` stands for the operator applied to its operands. */
  lemma CombineDenotes(op: BinaryOp, f1: Flat, v1: Value, f2: Flat, v2: Value, scope: Scope, depth: nat)
    requires IsReordered(op) && InDomain(op, v1) && InDomain(op, v2)
    requires Denotes(f1, v1, scope, depth) && Denotes(f2, v2, scope, depth)
    requires !MixedSplit(op, f1, f2)
    ensures Denotes(Combine(op, f1, f2), DoBinary(op, v1, v2), scope, depth)
  {
    var dontCare := DoBinary(op, ValueOr(f1, Undefined), ValueOr(f2, Undefined));
    if IsLogical(op) && f1.ValueOnly? != f2.ValueOnly? && dontCare.Bool? {
      DontCareDenotes(op, f1, v1, f2, v2);
    } else if f1.ValueOnly? && f2.ValueOnly? {
    } else if f1.ValueOnly? && f2.TreeOnly? {
    } else if f2.ValueOnly? && f1.TreeOnly? {
      Commutes(op, v1, v2);
    } else if !SplitBy(op, f1) && !SplitBy(op, f2) {
      RebuildDenotes(f1, v1, scope, depth);
      RebuildDenotes(f2, v2, scope, depth);
      TreesDenote(op, Rebuild(f1), Rebuild(f2), scope, depth);
    } else if SplitBy(op, f1) && SplitBy(op, f2) {
      BothSplitDenote(op, f1, v1, f2, v2, scope, depth);
    } else if SplitBy(op, f1) {
      if f2.ValueOnly? {
        SplitAndValueDenote(op, f1, v1, v2, scope, depth);
      } else {
        SplitAndTreeDenote(op, f1, v1, f2.tree, scope, depth);
      }
    } else {
      if f1.ValueOnly? {
        SplitAndValueDenote(op, f2, v2, v1, scope, depth);
      } else {
        SplitAndTreeDenote(op, f2, v2, f1.tree, scope, depth);
      }
    }
  }

  lemma WholeDenotes(f: Flat, v: Value, scope: Scope, depth: nat)
    requires Denotes(f, v, scope, depth)
    ensures Denotes(Whole(f), v, scope, depth)
    ensures Evaluate(Rebuild(Whole(f)), scope, depth) == Some(v)
  {
    RebuildDenotes(f, v, scope, depth);
  }

  /** The flattened result of `e` stands for the value of `e`. */
  ghost predicate FlattensTo(e: Expr, scope: Scope, inline: bool, depth: nat)
  {
    var v, f := Evaluate(e, scope, depth), FlattenNode(e, scope.known, inline, depth);
    v.Some? && f.Some? && Denotes(f.value, v.value, scope, depth)
  }

  /** What `combine` makes of two children stands for the operator applied to their values. */
  ghost predicate NodeDenotes(op: BinaryOp, e1: Expr, e2: Expr, scope: Scope, inline: bool, depth: nat)
  {
    var v1, v2 := Evaluate(e1, scope, depth), Evaluate(e2, scope, depth);
    var f1, f2 := FlattenNode(e1, scope.known, inline, depth), FlattenNode(e2, scope.known, inline, depth);
    v1.Some? && v2.Some? && f1.Some? && f2.Some? && MixedSplit(op, f1.value, f2.value) ==>
      Denotes(Combine(op, f1.value, f2.value), DoBinary(op, v1.value, v2.value), scope, depth)
  }

  /** Every node that meets the mixed-split case stands for its value nevertheless. */
  ghost predicate MixesDenote(e: Expr, scope: Scope, inline: bool, depth: nat)
    decreases depth, e
  {
    match e
    case Literal(_) => true
    case AttributeReference(name) =>
      name in scope.known && depth > 0 ==> MixesDenote(scope.known[name], scope, inline, depth - 1)
    case Unary(_, child) => MixesDenote(child, scope, inline, depth)
    case Binary(op, child1, child2) =>
      && MixesDenote(child1, scope, inline, depth) && MixesDenote(child2, scope, inline, depth)
      && (IsReordered(op) ==> NodeDenotes(op, child1, child2, scope, inline, depth))
    case Ternary(selector, ifTrue, ifFalse) =>
      && MixesDenote(selector, scope, inline, depth)
      && MixesDenote(ifTrue, scope, inline, depth) && MixesDenote(ifFalse, scope, inline, depth)
  }

  lemma {:induction false} UnmixedDenote(e: Expr, scope: Scope, inline: bool, depth: nat)
    requires Unmixed(e, scope.known, inline, depth)
    ensures MixesDenote(e, scope, inline, depth)
    decreases depth, e
  {
    match e
    case Literal(_) =>
    case AttributeReference(name) =>
      if name in scope.known && depth > 0 {
        UnmixedDenote(scope.known[name], scope, inline, depth - 1);
      }
    case Unary(_, child) =>
      UnmixedDenote(child, scope, inline, depth);
    case Binary(op, child1, child2) =>
      UnmixedDenote(child1, scope, inline, depth);
      UnmixedDenote(child2, scope, inline, depth);
    case Ternary(selector, ifTrue, ifFalse) =>
      UnmixedDenote(selector, scope, inline, depth);
      UnmixedDenote(ifTrue, scope, inline, depth);
      UnmixedDenote(ifFalse, scope, inline, depth);
  }

  lemma {:induction false} FlattenDenotes(e: Expr, scope: Scope, inline: bool, depth: nat)
    requires Tame(e, scope, depth) && MixesDenote(e, scope, inline, depth)
    ensures FlattensTo(e, scope, inline, depth)
    decreases depth, e
  {
    match e
    case Literal(_) =>
    case AttributeReference(name) =>
      if name in scope.known {
        FlattenDenotes(scope.known[name], scope, inline, depth - 1);
        FlattenReference(name, scope, inline, depth);
      }
    case Unary(_, child) =>
      FlattenDenotes(child, scope, inline, depth);
      FlattenUnary(e, scope, inline, depth);
    case Binary(op, child1, child2) =>
      FlattenDenotes(child1, scope, inline, depth);
      FlattenDenotes(child2, scope, inline, depth);
      FlattenBinary(e, scope, inline, depth);
    case Ternary(selector, ifTrue, ifFalse) =>
      FlattenDenotes(selector, scope, inline, depth);
      FlattenDenotes(ifTrue, scope, inline, depth);
      FlattenDenotes(ifFalse, scope, inline, depth);
      FlattenTernary(e, scope, inline, depth);
  }

  lemma FlattenReference(name: string, scope: Scope, inline: bool, depth: nat)
    requires name in scope.known && depth > 0
    requires FlattensTo(scope.known[name], scope, inline, depth - 1)
    ensures FlattensTo(AttributeReference(name), scope, inline, depth)
  {
    var tree := scope.known[name];
    var v := Evaluate(tree, scope, depth - 1).value;
    var f := FlattenNode(tree, scope.known, inline, depth - 1).value;
    WholeDenotes(f, v, scope, depth - 1);
    if !Whole(f).ValueOnly? && inline {
      EvaluateDeeper(Whole(f).tree, scope, depth - 1, depth);
    }
  }

  lemma FlattenUnary(e: Expr, scope: Scope, inline: bool, depth: nat)
    requires e.Unary? && FlattensTo(e.child, scope, inline, depth)
    ensures FlattensTo(e, scope, inline, depth)
  {
    var v := WholeOf(e.child, scope, inline, depth);
  }

  lemma FlattenBinary(e: Expr, scope: Scope, inline: bool, depth: nat)
    requires e.Binary? && Tame(e, scope, depth) && MixesDenote(e, scope, inline, depth)
    requires FlattensTo(e.child1, scope, inline, depth) && FlattensTo(e.child2, scope, inline, depth)
    ensures FlattensTo(e, scope, inline, depth)
  {
    var v1, v2 := Evaluate(e.child1, scope, depth).value, Evaluate(e.child2, scope, depth).value;
    var f1 := FlattenNode(e.child1, scope.known, inline, depth).value;
    var f2 := FlattenNode(e.child2, scope.known, inline, depth).value;
    EvaluateBinary(e.op, e.child1, e.child2, scope, depth);
    if IsReordered(e.op) {
      if !MixedSplit(e.op, f1, f2) {
        CombineDenotes(e.op, f1, v1, f2, v2, scope, depth);
      }
    } else {
      WholeDenotes(f1, v1, scope, depth);
      WholeDenotes(f2, v2, scope, depth);
      EvaluateBinary(e.op, Rebuild(Whole(f1)), Rebuild(Whole(f2)), scope, depth);
    }
  }

  lemma FlattenTernary(e: Expr, scope: Scope, inline: bool, depth: nat)
    requires e.Ternary?
    requires FlattensTo(e.selector, scope, inline, depth)
    requires FlattensTo(e.ifTrue, scope, inline, depth) && FlattensTo(e.ifFalse, scope, inline, depth)
    ensures FlattensTo(e, scope, inline, depth)
  {
    var v := WholeOf(e.selector, scope, inline, depth);
    var f := FlattenWhole(e.selector, scope.known, inline, depth).value;
    var v2 := WholeOf(e.ifTrue, scope, inline, depth);
    var v3 := WholeOf(e.ifFalse, scope, inline, depth);
    if f.ValueOnly? && !f.val.Undefined? {
      if f.val.Bool? {
        assert Evaluate(e, scope, depth) == Some(if v.b then v2 else v3);
      } else {
        assert Evaluate(e, scope, depth) == Some(Error);
      }
    } else {
      var f2 := FlattenWhole(e.ifTrue, scope.known, inline, depth).value;
      var f3 := FlattenWhole(e.ifFalse, scope.known, inline, depth).value;
      var kept := if f.ValueOnly? then e.selector else Rebuild(f);
      assert Evaluate(kept, scope, depth) == Some(v);
      assert Evaluate(Ternary(kept, Rebuild(f2), Rebuild(f3)), scope, depth) == Evaluate(e, scope, depth);
    }
  }

  lemma WholeOf(e: Expr, scope: Scope, inline: bool, depth: nat) returns (v: Value)
    requires FlattensTo(e, scope, inline, depth)
    ensures Evaluate(e, scope, depth) == Some(v)
    ensures FlattenWhole(e, scope.known, inline, depth).Some?
    ensures
      var f := FlattenWhole(e, scope.known, inline, depth).value;
      !f.Split? && Denotes(f, v, scope, depth) && Evaluate(Rebuild(f), scope, depth) == Some(v)
  {
    v := Evaluate(e, scope, depth).value;
    WholeDenotes(FlattenNode(e, scope.known, inline, depth).value, v, scope, depth);
  }

  /** Flattening preserves meaning: whatever values the open attributes take, the flattened
      value or tree evaluates as the original expression does. */
  lemma FlattenPreservesMeaning(e: Expr, scope: Scope, inline: bool, depth: nat)
    requires Tame(e, scope, depth) && Unmixed(e, scope.known, inline, depth)
    ensures FlattenWhole(e, scope.known, inline, depth).Some?
    ensures Evaluate(Rebuild(FlattenWhole(e, scope.known, inline, depth).value), scope, depth) == Evaluate(e, scope, depth)
  {
    UnmixedDenote(e, scope, inline, depth);
    FlattenDenotes(e, scope, inline, depth);
    var v := WholeOf(e, scope, inline, depth);
  }

  // ---------- operands outside the domain ----------

  lemma StrictEvaluates(op: BinaryOp, e1: Expr, v1: Value, e2: Expr, v2: Value, scope: Scope)
    requires IsStrict(op)
    requires Evaluate(e1, scope, 1) == Some(v1) && Evaluate(e2, scope, 1) == Some(v2)
    ensures Evaluate(Binary(op, e1, e2), scope, 1) == Some(DoBinary(op, v1, v2))
  {
  }

  /** Whether flattening `e`, with nothing known, gives an expression of the same value at `x`. */
  predicate PreservedAt(e: Expr, x: Value)
  {
    var f := FlattenWhole(e, map[], false, 1);
    var scope := Scope(map[], map["x" := x]);
    f.Some? && Evaluate(Rebuild(f.value), scope, 1) == Evaluate(e, scope, 1)
  }

  /** x || true and x && false are folded without looking at x. That is right if and only if
      x turns out boolean or undefined. */
  lemma AbsorbedOperandPreservedIff(op: BinaryOp, x: Value)
    requires IsLogical(op)
    ensures PreservedAt(Binary(op, AttributeReference("x"), Literal(Bool(op == LogicalOr))), x) <==> InDomain(op, x)
  {
    var absorbing := Bool(op == LogicalOr);
    var e := Binary(op, AttributeReference("x"), Literal(absorbing));
    assert FlattenNode(e.child1, map[], false, 1) == Some(TreeOnly(AttributeReference("x")));
    assert FlattenNode(e.child2, map[], false, 1) == Some(ValueOnly(absorbing));
    assert Evaluate(e.child1, Scope(map[], map["x" := x]), 1) == Some(x);
  }

  /** (x & c) & m folds c & m first, which turns an undefined x into an error if and only if c
      is boolean. */
  lemma BitwiseOperandPreservedIff(c: Value, m: int32, x: Value)
    ensures PreservedAt(Binary(BitwiseAnd, Binary(BitwiseAnd, AttributeReference("x"), Literal(c)), Literal(Int(m))), x)
      <==> !(c.Bool? && x.Undefined?)
  {
    var inner := Binary(BitwiseAnd, AttributeReference("x"), Literal(c));
    var e := Binary(BitwiseAnd, inner, Literal(Int(m)));
    var scope := Scope(map[], map["x" := x]);
    var fold := DoBinary(BitwiseAnd, c, Int(m));
    MaskFlattens(c, m);
    assert Evaluate(AttributeReference("x"), scope, 1) == Some(x);
    StrictEvaluates(BitwiseAnd, AttributeReference("x"), x, Literal(c), c, scope);
    StrictEvaluates(BitwiseAnd, inner, DoBinary(BitwiseAnd, x, c), Literal(Int(m)), Int(m), scope);
    StrictEvaluates(BitwiseAnd, Literal(fold), fold, AttributeReference("x"), x, scope);
    BitwiseFoldAgrees(c, m, x);
  }

  lemma MaskFlattens(c: Value, m: int32)
    ensures FlattenNode(Binary(BitwiseAnd, Binary(BitwiseAnd, AttributeReference("x"), Literal(c)), Literal(Int(m))),
                        map[], false, 1)
         == Some(Split(BitwiseAnd, DoBinary(BitwiseAnd, c, Int(m)), AttributeReference("x")))
  {
    CombineMasks(AttributeReference("x"), c, Int(m));
    NodeFlattens(BitwiseAnd, AttributeReference("x"), TreeOnly(AttributeReference("x")), Literal(c), ValueOnly(c));
    NodeFlattens(BitwiseAnd, Binary(BitwiseAnd, AttributeReference("x"), Literal(c)),
                 Split(BitwiseAnd, c, AttributeReference("x")), Literal(Int(m)), ValueOnly(Int(m)));
  }

  lemma CombineMasks(x: Expr, c: Value, m: Value)
    ensures Combine(BitwiseAnd, TreeOnly(x), ValueOnly(c)) == Split(BitwiseAnd, c, x)
    ensures Combine(BitwiseAnd, Split(BitwiseAnd, c, x), ValueOnly(m)) == Split(BitwiseAnd, DoBinary(BitwiseAnd, c, m), x)
  {
  }

  lemma NodeFlattens(op: BinaryOp, e1: Expr, f1: Flat, e2: Expr, f2: Flat)
    requires IsReordered(op)
    requires FlattenNode(e1, map[], false, 1) == Some(f1) && FlattenNode(e2, map[], false, 1) == Some(f2)
    ensures FlattenNode(Binary(op, e1, e2), map[], false, 1) == Some(Combine(op, f1, f2))
  {
  }

  lemma BitwiseFoldAgrees(c: Value, m: int32, x: Value)
    ensures DoBinary(BitwiseAnd, DoBinary(BitwiseAnd, x, c), Int(m)) == DoBinary(BitwiseAnd, DoBinary(BitwiseAnd, c, Int(m)), x)
      <==> !(c.Bool? && x.Undefined?)
  {
    if !c.Bool? && !x.Bool? {
      Associates(BitwiseAnd, x, c, Int(m));
      Closed(BitwiseAnd, c, Int(m));
      Commutes(BitwiseAnd, x, DoBinary(BitwiseAnd, c, Int(m)));
    }
  }
}
