/**
 What flattening leaves (src/classad/operators.cpp, flattenSpecials and combine): a value where
 everything is known, and otherwise a tree in which FlattenAndInline has put the known attributes'
 expressions for their names. The exception is a selector that is undefined: the conditional is
 kept with the selector as it was.
 */
module Residuals {
  import opened Options
  import opened Expressions
  import opened Flatten

  /** The names that an expression refers to. */
  function References(e: Expr): set<string>
  {
    match e
    case Literal(_) => {}
    case AttributeReference(name) => {name}
    case Unary(_, child) => References(child)
    case Binary(_, child1, child2) => References(child1) + References(child2)
    case Ternary(selector, ifTrue, ifFalse) => References(selector) + References(ifTrue) + References(ifFalse)
  }

  /** No conditional on the way has a selector that flattens to undefined. */
  predicate Selects(e: Expr, known: map<string, Expr>, inline: bool, depth: nat)
    decreases depth, e
  {
    match e
    case Literal(_) => true
    case AttributeReference(name) => name in known && depth > 0 ==> Selects(known[name], known, inline, depth - 1)
    case Unary(_, child) => Selects(child, known, inline, depth)
    case Binary(_, child1, child2) => Selects(child1, known, inline, depth) && Selects(child2, known, inline, depth)
    case Ternary(selector, ifTrue, ifFalse) =>
      && Selects(selector, known, inline, depth)
      && Selects(ifTrue, known, inline, depth) && Selects(ifFalse, known, inline, depth)
      && FlattenWhole(selector, known, inline, depth) != Some(ValueOnly(Undefined))
  }

  // ---------- inlining ----------

  /** The result refers to no known attribute. */
  predicate Inlined(f: Option<Flat>, known: map<string, Expr>)
  {
    f.Some? ==> References(Rebuild(f.value)) !! known.Keys
  }

  lemma CombineRefers(op: BinaryOp, f1: Flat, f2: Flat)
    ensures References(Rebuild(Combine(op, f1, f2))) <= References(Rebuild(f1)) + References(Rebuild(f2))
  {
  }

  /** FlattenAndInline leaves no reference to a known attribute. */
  lemma {:induction false} InlineLeavesOpen(e: Expr, known: map<string, Expr>, depth: nat)
    requires Selects(e, known, true, depth)
    ensures Inlined(FlattenNode(e, known, true, depth), known) && Inlined(FlattenWhole(e, known, true, depth), known)
    decreases depth, e
  {
    match e {
      case Literal(_) =>
      case AttributeReference(name) =>
        if name in known && depth > 0 {
          InlineLeavesOpen(known[name], known, depth - 1);
        }
      case Unary(_, child) =>
        InlineLeavesOpen(child, known, depth);
      case Binary(op, child1, child2) =>
        InlineLeavesOpen(child1, known, depth);
        InlineLeavesOpen(child2, known, depth);
        var f1, f2 := FlattenNode(child1, known, true, depth), FlattenNode(child2, known, true, depth);
        if IsReordered(op) && f1.Some? && f2.Some? {
          CombineRefers(op, f1.value, f2.value);
        }
      case Ternary(selector, ifTrue, ifFalse) =>
        InlineLeavesOpen(selector, known, depth);
        InlineLeavesOpen(ifTrue, known, depth);
        InlineLeavesOpen(ifFalse, known, depth);
    }
    WholeRefers(e, known, depth);
  }

  lemma WholeRefers(e: Expr, known: map<string, Expr>, depth: nat)
    requires Inlined(FlattenNode(e, known, true, depth), known)
    ensures Inlined(FlattenWhole(e, known, true, depth), known)
  {
  }

  // ---------- folding ----------

  /** Every name on the way is known, and no chain of references is too deep. */
  predicate Closed(e: Expr, known: map<string, Expr>, depth: nat)
    decreases depth, e
  {
    match e
    case Literal(_) => true
    case AttributeReference(name) => name in known && depth > 0 && Closed(known[name], known, depth - 1)
    case Unary(_, child) => Closed(child, known, depth)
    case Binary(_, child1, child2) => Closed(child1, known, depth) && Closed(child2, known, depth)
    case Ternary(selector, ifTrue, ifFalse) =>
      Closed(selector, known, depth) && Closed(ifTrue, known, depth) && Closed(ifFalse, known, depth)
  }

  lemma CombineFolds(op: BinaryOp, f1: Flat, f2: Flat)
    requires f1.ValueOnly? && f2.ValueOnly?
    ensures Combine(op, f1, f2) == ValueOnly(DoBinary(op, f1.val, f2.val))
  {
  }

  /** Where everything is known, flattening evaluates. */
  lemma {:induction false} ClosedFolds(e: Expr, known: map<string, Expr>, inline: bool, depth: nat)
    requires Closed(e, known, depth) && Selects(e, known, inline, depth)
    ensures FlattenNode(e, known, inline, depth).Some? && FlattenNode(e, known, inline, depth).value.ValueOnly?
    ensures FlattenWhole(e, known, inline, depth) == FlattenNode(e, known, inline, depth)
    decreases depth, e
  {
    match e {
      case Literal(_) =>
      case AttributeReference(name) =>
        ClosedFolds(known[name], known, inline, depth - 1);
      case Unary(_, child) =>
        ClosedFolds(child, known, inline, depth);
      case Binary(op, child1, child2) =>
        ClosedFolds(child1, known, inline, depth);
        ClosedFolds(child2, known, inline, depth);
        CombineFolds(op, FlattenNode(child1, known, inline, depth).value, FlattenNode(child2, known, inline, depth).value);
      case Ternary(selector, ifTrue, ifFalse) =>
        ClosedFolds(selector, known, inline, depth);
        ClosedFolds(ifTrue, known, inline, depth);
        ClosedFolds(ifFalse, known, inline, depth);
    }
  }

  /** A conditional of values is a value itself if and only if its selector is not undefined. */
  lemma ConditionalFoldsIff(e: Expr, known: map<string, Expr>, inline: bool, depth: nat)
    requires e.Ternary?
    requires IsValue(FlattenWhole(e.selector, known, inline, depth))
    requires IsValue(FlattenWhole(e.ifTrue, known, inline, depth)) && IsValue(FlattenWhole(e.ifFalse, known, inline, depth))
    ensures IsValue(FlattenNode(e, known, inline, depth))
       <==> FlattenWhole(e.selector, known, inline, depth) != Some(ValueOnly(Undefined))
  {
  }

  predicate IsValue(f: Option<Flat>)
  {
    f.Some? && f.value.ValueOnly?
  }

  /** A conditional whose selector is a known attribute that is undefined: it evaluates to
      undefined, and stays a tree that refers to the attribute. */
  lemma UndefinedSelectorStays(inline: bool)
    ensures
      var known := map["x" := Literal(Undefined)];
      var e := Ternary(AttributeReference("x"), Literal(Int(1)), Literal(Int(2)));
      && Evaluate(e, Scope(known, map[]), 1) == Some(Undefined) && Closed(e, known, 1)
      && FlattenWhole(e, known, inline, 1) == Some(TreeOnly(e))
  {
    var known := map["x" := Literal(Undefined)];
    var x := AttributeReference("x");
    assert FlattenWhole(Literal(Undefined), known, inline, 0) == Some(ValueOnly(Undefined));
    assert FlattenWhole(x, known, inline, 1) == Some(ValueOnly(Undefined));
    assert FlattenWhole(Literal(Int(1)), known, inline, 1) == Some(ValueOnly(Int(1)));
    assert FlattenWhole(Literal(Int(2)), known, inline, 1) == Some(ValueOnly(Int(2)));
    assert Evaluate(x, Scope(known, map[]), 1) == Some(Undefined);
  }
}
