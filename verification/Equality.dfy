/** Elimination of constant and of common terms, and the syntactic equality built on it. */
module Equality {
  import opened Tristate
  import opened Expressions

  /** Drops y and n operands, bottom up, from the AND/OR part of an expression. */
  function EliminateYn(e: Expr): (r: Expr)
    ensures Size(r) <= Size(e)
  {
    match e
    case Bin(op, l, r) =>
      var l', r' := EliminateYn(l), EliminateYn(r);
      if op.OpAnd? then
        if IsNo(l') then Symbol(NoSym)
        else if IsYes(l') then r'
        else if IsNo(r') then Symbol(NoSym)
        else if IsYes(r') then l'
        else Bin(op, l', r')
      else
        if IsNo(l') then r'
        else if IsYes(l') then Symbol(YesSym)
        else if IsNo(r') then l'
        else if IsYes(r') then Symbol(YesSym)
        else Bin(op, l', r')
    case _ => e
  }

  lemma {:induction false} EliminateYnExact(e: Expr, v: Valuation)
    ensures Eval(EliminateYn(e), v) == Eval(e, v)
  {
    if e.Bin? {
      EliminateYnExact(e.left, v);
      EliminateYnExact(e.right, v);
    }
  }

  predicate IsYn(e: Expr) {
    IsYes(e) || IsNo(e)
  }

  /** Some operand of the AND/OR part of e is y or n. */
  predicate HasYnOperand(e: Expr) {
    e.Bin? && (IsYn(e.left) || IsYn(e.right) || HasYnOperand(e.left) || HasYnOperand(e.right))
  }

  /** Exactly the expressions with a y or n operand change, and those shrink. */
  lemma {:induction false} EliminateYnShrinks(e: Expr)
    ensures !HasYnOperand(EliminateYn(e))
    ensures HasYnOperand(e) ==> Size(EliminateYn(e)) < Size(e)
    ensures !HasYnOperand(e) ==> EliminateYn(e) == e
  {
    if e.Bin? {
      EliminateYnShrinks(e.left);
      EliminateYnShrinks(e.right);
    }
  }

  /**
   * Replaces pairs of equal terms, one from each `op` tree, by the unit of `op`.
   * The result is the new contents of the two pointers.
   */
  function EliminateTerms(op: Op, a: Expr, b: Expr): (d: (Expr, Expr))
    ensures Size(d.0) <= Size(a) && Size(d.1) <= Size(b)
    decreases Size(a) + Size(b), if IsOp(op, a) || IsOp(op, b) then 1 else 4
  {
    if IsOp(op, a) then
      var d1 := EliminateTerms(op, a.left, b);
      var d2 := EliminateTerms(op, a.right, d1.1);
      (Bin(op, d1.0, d2.0), d2.1)
    else if IsOp(op, b) then
      var d1 := EliminateTerms(op, a, b.left);
      var d2 := EliminateTerms(op, d1.0, b.right);
      (d2.0, Bin(op, d1.1, d2.1))
    else if a.Symbol? && a == b && a.sym.HasYesNoFlag() then (a, b)
    else if !ExprEq(a, b) then (a, b)
    else (UnitExpr(op), UnitExpr(op))
  }

  /** Cancels the common terms of two expressions. */
  function EliminateEq(a: Expr, b: Expr): (d: (Expr, Expr))
    ensures Size(d.0) <= Size(a) && Size(d.1) <= Size(b)
    decreases Size(a) + Size(b), 2
  {
    var d1 := if a.Bin? then EliminateTerms(a.op, a, b) else (a, b);
    var d2 := if d1.1.Bin? && !IsOp(d1.1.op, d1.0) then EliminateTerms(d1.1.op, d1.0, d1.1) else d1;
    (EliminateYn(d2.0), EliminateYn(d2.1))
  }

  /** Are the two expressions recognisably equal? */
  predicate ExprEq(a: Expr, b: Expr)
    decreases Size(a) + Size(b), 3
  {
    match (a, b)
    case (Equal(_, _), Equal(_, _)) => a == b
    case (Unequal(_, _), Unequal(_, _)) => a == b
    case (Symbol(_), Symbol(_)) => a == b
    case (Not(x), Not(y)) => ExprEq(x, y)
    case (Bin(o, _, _), Bin(o', _, _)) =>
      o == o' &&
      var d := EliminateEq(a, b);
      d.0.Symbol? && d.1.Symbol? && d.0.sym == d.1.sym
    case _ => false
  }

  /** A symbol is recognised as equal to nothing but itself. */
  lemma ExprEqSymbol(a: Expr, b: Expr)
    requires a.Symbol? || b.Symbol?
    ensures ExprEq(a, b) <==> a == b
  {
  }

  /** k is a common factor of the values a and b for op; a' and b' are what is left of them. */
  predicate Factors(op: Op, a: Tri, b: Tri, a': Tri, b': Tri, k: Tri) {
    a == op.Apply(a', k) && b == op.Apply(b', k)
  }

  /** k is a common factor of a and b for op: taking it out leaves a' and b', whatever the symbols' values. */
  ghost predicate FactorsOut(op: Op, a: Expr, b: Expr, a': Expr, b': Expr, k: Expr) {
    forall v: Valuation :: Factors(op, Eval(a, v), Eval(b, v), Eval(a', v), Eval(b', v), Eval(k, v))
  }

  /** Taking out k1 on behalf of one operand and then k2 on behalf of the other takes out both. */
  lemma FactorsCompose(op: Op, l: Tri, r: Tri, b: Tri, l': Tri, r': Tri, b1: Tri, b2: Tri, k1: Tri, k2: Tri)
    requires Factors(op, l, b, l', b1, k1) && Factors(op, r, b1, r', b2, k2)
    ensures Factors(op, op.Apply(l, r), b, op.Apply(l', r'), b2, op.Apply(k1, k2))
  {
  }

  lemma FactorsOutCompose(op: Op, l: Expr, r: Expr, b: Expr, l': Expr, r': Expr, b1: Expr, b2: Expr,
                          k1: Expr, k2: Expr)
    requires FactorsOut(op, l, b, l', b1, k1) && FactorsOut(op, r, b1, r', b2, k2)
    ensures FactorsOut(op, Bin(op, l, r), b, Bin(op, l', r'), b2, Bin(op, k1, k2))
  {
    forall v: Valuation
      ensures Factors(op, Eval(Bin(op, l, r), v), Eval(b, v), Eval(Bin(op, l', r'), v), Eval(b2, v),
                      Eval(Bin(op, k1, k2), v))
    {
      FactorsCompose(op, Eval(l, v), Eval(r, v), Eval(b, v), Eval(l', v), Eval(r', v), Eval(b1, v), Eval(b2, v),
                     Eval(k1, v), Eval(k2, v));
    }
  }

  lemma FactorsOutSwap(op: Op, a: Expr, b: Expr, a': Expr, b': Expr, k: Expr)
    requires FactorsOut(op, a, b, a', b', k)
    ensures FactorsOut(op, b, a, b', a', k)
  {
    forall v: Valuation ensures Factors(op, Eval(b, v), Eval(a, v), Eval(b', v), Eval(a', v), Eval(k, v)) {
      assert Factors(op, Eval(a, v), Eval(b, v), Eval(a', v), Eval(b', v), Eval(k, v));
    }
  }

  lemma FactorsMonotone(op: Op, a: Tri, b: Tri, a': Tri, b': Tri, k: Tri)
    requires Factors(op, a, b, a', b', k) && a' <= b'
    ensures a <= b
  {
  }

  /** Recognised equality is equality of value, in the full three-valued logic. */
  lemma {:induction false} ExprEqSound(a: Expr, b: Expr, v: Valuation)
    requires ExprEq(a, b)
    ensures Eval(a, v) == Eval(b, v)
    decreases Size(a) + Size(b), 3
  {
    match (a, b)
    case (Not(x), Not(y)) => ExprEqSound(x, y, v);
    case (Bin(_, _, _), Bin(_, _, _)) =>
      var a', b', op1, k1, op2, k2 := EliminateEqFactors(a, b);
    case _ =>
  }

  /** What one pass takes out of both sides is a common factor. */
  lemma {:induction false} EliminateTermsFactor(op: Op, a: Expr, b: Expr) returns (k: Expr)
    ensures FactorsOut(op, a, b, EliminateTerms(op, a, b).0, EliminateTerms(op, a, b).1, k)
    decreases Size(a) + Size(b), if IsOp(op, a) || IsOp(op, b) then 1 else 4
  {
    if IsOp(op, a) {
      var d1 := EliminateTerms(op, a.left, b);
      var d2 := EliminateTerms(op, a.right, d1.1);
      var k1 := EliminateTermsFactor(op, a.left, b);
      var k2 := EliminateTermsFactor(op, a.right, d1.1);
      FactorsOutCompose(op, a.left, a.right, b, d1.0, d2.0, d1.1, d2.1, k1, k2);
      k := Bin(op, k1, k2);
    } else if IsOp(op, b) {
      var d1 := EliminateTerms(op, a, b.left);
      var d2 := EliminateTerms(op, d1.0, b.right);
      var k1 := EliminateTermsFactor(op, a, b.left);
      var k2 := EliminateTermsFactor(op, d1.0, b.right);
      FactorsOutSwap(op, a, b.left, d1.0, d1.1, k1);
      FactorsOutSwap(op, d1.0, b.right, d2.0, d2.1, k2);
      k := Bin(op, k1, k2);
      FactorsOutCompose(op, b.left, b.right, a, d1.1, d2.1, d1.0, d2.0, k1, k2);
      FactorsOutSwap(op, b, a, Bin(op, d1.1, d2.1), d2.0, k);
    } else {
      k := EliminateLeafFactor(op, a, b);
    }
  }

  lemma {:induction false} EliminateLeafFactor(op: Op, a: Expr, b: Expr) returns (k: Expr)
    requires !IsOp(op, a) && !IsOp(op, b)
    ensures FactorsOut(op, a, b, EliminateTerms(op, a, b).0, EliminateTerms(op, a, b).1, k)
    decreases Size(a) + Size(b), 4, 0
  {
    if EliminateTerms(op, a, b) == (a, b) {
      k := UnitExpr(op);
    } else {
      k := a;
      forall v: Valuation ensures Eval(a, v) == Eval(b, v) {
        ExprEqSound(a, b, v);
      }
    }
  }

  /** Both passes of the cancellation: first a factor k1 for op1, then a factor k2 for op2. */
  lemma {:induction false} EliminateEqFactors(a: Expr, b: Expr)
    returns (a': Expr, b': Expr, op1: Op, k1: Expr, op2: Op, k2: Expr)
    ensures FactorsOut(op1, a, b, a', b', k1)
    ensures FactorsOut(op2, a', b', EliminateEq(a, b).0, EliminateEq(a, b).1, k2)
    decreases Size(a) + Size(b), 2
  {
    op1, k1, a', b' := OpOr, UnitExpr(OpOr), a, b;
    if a.Bin? {
      op1 := a.op;
      k1 := EliminateTermsFactor(op1, a, b);
      a', b' := EliminateTerms(op1, a, b).0, EliminateTerms(op1, a, b).1;
    }
    op2, k2 := OpOr, UnitExpr(OpOr);
    var d := (a', b');
    if b'.Bin? && !IsOp(b'.op, a') {
      op2 := b'.op;
      k2 := EliminateTermsFactor(op2, a', b');
      d := EliminateTerms(op2, a', b');
    }
    forall v: Valuation
      ensures Eval(EliminateYn(d.0), v) == Eval(d.0, v) && Eval(EliminateYn(d.1), v) == Eval(d.1, v)
    {
      EliminateYnExact(d.0, v);
      EliminateYnExact(d.1, v);
    }
  }

  /** If cancelling common terms leaves only y of b, then a implies b. */
  lemma EliminateEqImplies(a: Expr, b: Expr, v: Valuation)
    requires IsYes(EliminateEq(a, b).1)
    ensures Eval(a, v) <= Eval(b, v)
  {
    var a', b', op1, k1, op2, k2 := EliminateEqFactors(a, b);
    var d := EliminateEq(a, b);
    FactorsMonotone(op2, Eval(a', v), Eval(b', v), Eval(d.0, v), YES, Eval(k2, v));
    FactorsMonotone(op1, Eval(a, v), Eval(b, v), Eval(a', v), Eval(b', v), Eval(k1, v));
  }

  /** If what cancellation leaves of the two sides is equal, the two sides are. */
  lemma EliminateEqEquivalent(a: Expr, b: Expr, v: Valuation)
    requires Eval(EliminateEq(a, b).0, v) == Eval(EliminateEq(a, b).1, v)
    ensures Eval(a, v) == Eval(b, v)
  {
    var a', b', op1, k1, op2, k2 := EliminateEqFactors(a, b);
  }
}
