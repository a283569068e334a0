/** Moving the common operands of two expressions into an expression of their own. */
module Extraction {
  import opened Options
  import opened Tristate
  import opened Expressions
  import opened Equality

  /** Collects into `acc` the operands common to the `op` trees a and b; the result is acc and what is left of both. */
  function ExtractTerms(op: Op, acc: Option<Expr>, a: Expr, b: Expr): (d: (Option<Expr>, Expr, Expr))
    ensures Size(d.1) <= Size(a) && Size(d.2) <= Size(b)
    decreases Size(a) + Size(b)
  {
    if IsOp(op, a) then
      var d1 := ExtractTerms(op, acc, a.left, b);
      var d2 := ExtractTerms(op, d1.0, a.right, d1.2);
      (d2.0, Bin(op, d1.1, d2.1), d2.2)
    else if IsOp(op, b) then
      var d1 := ExtractTerms(op, acc, a, b.left);
      var d2 := ExtractTerms(op, d1.0, d1.1, b.right);
      (d2.0, d2.1, Bin(op, d1.2, d2.2))
    else if ExprEq(a, b) then
      (Some(if acc.Some? then Bin(op, acc.value, a) else a), UnitExpr(op), UnitExpr(op))
    else (acc, a, b)
  }

  /** The common operands, and the two remainders without y and n when there are any. */
  function ExtractEq(op: Op, a: Expr, b: Expr): (Option<Expr>, Expr, Expr) {
    var d := ExtractTerms(op, None, a, b);
    if d.0.Some? then (d.0, EliminateYn(d.1), EliminateYn(d.2)) else d
  }

  /** The value of a list of operands joined by `op`; the empty list is the unit. */
  function EvalTerms(op: Op, e: Option<Expr>, v: Valuation): Tri {
    if e.None? then op.Unit() else Eval(e.value, v)
  }

  /** While collecting, every operand moved to acc is taken out of both sides. */
  lemma {:induction false} ExtractTermsFactor(op: Op, acc: Option<Expr>, a: Expr, b: Expr, v: Valuation)
    returns (k: Tri)
    ensures var d := ExtractTerms(op, acc, a, b);
            && Factors(op, Eval(a, v), Eval(b, v), Eval(d.1, v), Eval(d.2, v), k)
            && EvalTerms(op, d.0, v) == op.Apply(EvalTerms(op, acc, v), k)
    decreases Size(a) + Size(b)
  {
    if IsOp(op, a) {
      var d1 := ExtractTerms(op, acc, a.left, b);
      var d2 := ExtractTerms(op, d1.0, a.right, d1.2);
      var k1 := ExtractTermsFactor(op, acc, a.left, b, v);
      var k2 := ExtractTermsFactor(op, d1.0, a.right, d1.2, v);
      FactorsCompose(op, Eval(a.left, v), Eval(a.right, v), Eval(b, v), Eval(d1.1, v), Eval(d2.1, v),
                     Eval(d1.2, v), Eval(d2.2, v), k1, k2);
      Associative(op, EvalTerms(op, acc, v), k1, k2);
      k := op.Apply(k1, k2);
    } else if IsOp(op, b) {
      var d1 := ExtractTerms(op, acc, a, b.left);
      var d2 := ExtractTerms(op, d1.0, d1.1, b.right);
      var k1 := ExtractTermsFactor(op, acc, a, b.left, v);
      var k2 := ExtractTermsFactor(op, d1.0, d1.1, b.right, v);
      FactorsCompose(op, Eval(b.left, v), Eval(b.right, v), Eval(a, v), Eval(d1.2, v), Eval(d2.2, v),
                     Eval(d1.1, v), Eval(d2.1, v), k1, k2);
      Associative(op, EvalTerms(op, acc, v), k1, k2);
      k := op.Apply(k1, k2);
    } else if ExprEq(a, b) {
      ExprEqSound(a, b, v);
      k := Eval(a, v);
    } else {
      k := op.Unit();
    }
  }

  /** Extraction factors both sides exactly: each is its remainder combined with the extracted operands. */
  lemma ExtractEqFactors(op: Op, a: Expr, b: Expr, v: Valuation)
    ensures var d := ExtractEq(op, a, b);
            Factors(op, Eval(a, v), Eval(b, v), Eval(d.1, v), Eval(d.2, v), EvalTerms(op, d.0, v))
  {
    var k := ExtractTermsFactor(op, None, a, b, v);
    var d := ExtractTerms(op, None, a, b);
    EliminateYnExact(d.1, v);
    EliminateYnExact(d.2, v);
  }

  /** If nothing of a remains, then every operand of a is one of b. */
  lemma ExtractEqCovers(op: Op, a: Expr, b: Expr, v: Valuation)
    requires ExtractEq(op, a, b).1 == UnitExpr(op)
    ensures op.Apply(Eval(a, v), Eval(b, v)) == Eval(b, v)
  {
    var d := ExtractEq(op, a, b);
    ExtractEqFactors(op, a, b, v);
    RemainderCovers(op, a, b, d.1, d.2, EvalTerms(op, d.0, v), v);
  }

  lemma RemainderCovers(op: Op, a: Expr, b: Expr, a': Expr, b': Expr, k: Tri, v: Valuation)
    requires a' == UnitExpr(op) && Factors(op, Eval(a, v), Eval(b, v), Eval(a', v), Eval(b', v), k)
    ensures op.Apply(Eval(a, v), Eval(b, v)) == Eval(b, v)
  {
    assert Eval(a', v) == op.Unit();
    UnitCovers(op, Eval(a, v), Eval(b, v), Eval(b', v), k);
  }

  lemma UnitCovers(op: Op, a: Tri, b: Tri, b': Tri, k: Tri)
    requires Factors(op, a, b, op.Unit(), b', k)
    ensures op.Apply(a, b) == b
  {
  }
}
