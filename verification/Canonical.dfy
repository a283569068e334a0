/** What expr_eq decides: equality up to the order and grouping of AND and OR operands. */
module Canonical {
  import opened Tristate
  import opened Expressions
  import opened Equality
  import opened NormalForm
  import opened Reflexive

  /** An expression with the operands of each AND/OR collected into a multiset. */
  datatype Form =
    | FSymbol(sym: Sym)
    | FNot(arg: Form)
    | FBin(op: Op, terms: multiset<Form>)
    | FEqual(lsym: Sym, rsym: Sym)
    | FUnequal(lsym: Sym, rsym: Sym)

  function Canon(e: Expr): Form
    decreases Size(e), 1
  {
    match e
    case Symbol(s) => FSymbol(s)
    case Not(a) => FNot(Canon(a))
    case Bin(op, _, _) => FBin(op, Terms(op, e))
    case Equal(l, r) => FEqual(l, r)
    case Unequal(l, r) => FUnequal(l, r)
  }

  /** The operands of the `op` tree e, leaving out units. */
  function Terms(op: Op, e: Expr): multiset<Form>
    decreases Size(e), if IsOp(op, e) then 0 else 2
  {
    if IsOp(op, e) then Terms(op, e.left) + Terms(op, e.right)
    else if e == UnitExpr(op) then multiset{}
    else multiset{Canon(e)}
  }

  /** Neither y, n nor a quoted constant occurs as an operand of an AND or OR. */
  predicate NoBareConst(e: Expr) {
    match e
    case Not(a) => NoBareConst(a)
    case Bin(_, l, r) => NoBareConst(l) && NoBareConst(r) && !Flagged(l) && !Flagged(r)
    case _ => true
  }

  /** An `op` tree over such operands, some of which have been replaced by the unit. */
  predicate PartlyEliminated(op: Op, e: Expr) {
    if IsOp(op, e) then PartlyEliminated(op, e.left) && PartlyEliminated(op, e.right)
    else e == UnitExpr(op) || (NoBareConst(e) && !Flagged(e))
  }

  lemma {:induction false} NoBareConstPartly(op: Op, e: Expr)
    requires NoBareConst(e) && !Flagged(e)
    ensures PartlyEliminated(op, e)
  {
    if IsOp(op, e) {
      NoBareConstPartly(op, e.left);
      NoBareConstPartly(op, e.right);
    }
  }

  /** Without bare constants, expr_eq decides equality up to associativity and commutativity. */
  lemma {:induction false} ExprEqExact(a: Expr, b: Expr)
    requires NoBareConst(a) && NoBareConst(b)
    ensures ExprEq(a, b) <==> Canon(a) == Canon(b)
    decreases Size(a) + Size(b), 3
  {
    match (a, b)
    case (Not(x), Not(y)) => ExprEqExact(x, y);
    case (Bin(op, _, _), Bin(op', _, _)) =>
      if op == op' {
        NoBareConstPartly(op, a);
        NoBareConstPartly(op, b);
        EliminateTermsDifference(op, a, b);
        EliminateYnSymbol(op, EliminateTerms(op, a, b).0);
        EliminateYnSymbol(op, EliminateTerms(op, a, b).1);
        DifferencesMeet(Terms(op, a), Terms(op, b));
      }
    case _ =>
  }

  lemma DifferencesMeet<T>(m: multiset<T>, n: multiset<T>)
    ensures m == n <==> m - n == multiset{} && n - m == multiset{}
    ensures forall x :: !(x in m - n && x in n - m)
  {
    if m - n == multiset{} && n - m == multiset{} {
      forall x ensures m[x] == n[x] {
        assert (m - n)[x] == 0 && (n - m)[x] == 0;
      }
    }
  }

  lemma DifferenceStep<T>(l: multiset<T>, r: multiset<T>, b: multiset<T>)
    ensures (l - b) + (r - (b - l)) == (l + r) - b
    ensures (b - l) - r == b - (l + r)
  {
  }

  ghost predicate IsDifference(op: Op, a: Expr, b: Expr, d: (Expr, Expr)) {
    && PartlyEliminated(op, d.0) && PartlyEliminated(op, d.1)
    && Terms(op, d.0) == Terms(op, a) - Terms(op, b)
    && Terms(op, d.1) == Terms(op, b) - Terms(op, a)
    && (IsOp(op, d.0) <==> IsOp(op, a)) && (IsOp(op, d.1) <==> IsOp(op, b))
  }

  lemma DifferenceCompose(op: Op, l: Expr, r: Expr, b: Expr, d1: (Expr, Expr), d2: (Expr, Expr))
    requires IsDifference(op, l, b, d1) && IsDifference(op, r, d1.1, d2)
    ensures IsDifference(op, Bin(op, l, r), b, (Bin(op, d1.0, d2.0), d2.1))
  {
    DifferenceStep(Terms(op, l), Terms(op, r), Terms(op, b));
    assert Terms(op, Bin(op, l, r)) == Terms(op, l) + Terms(op, r);
    assert Terms(op, Bin(op, d1.0, d2.0)) == Terms(op, d1.0) + Terms(op, d2.0);
  }

  lemma DifferenceSwap(op: Op, a: Expr, b: Expr, d: (Expr, Expr))
    requires IsDifference(op, a, b, d)
    ensures IsDifference(op, b, a, (d.1, d.0))
  {
  }

  /** The pass leaves on each side exactly the operands the other side does not have. */
  lemma {:induction false} EliminateTermsDifference(op: Op, a: Expr, b: Expr)
    requires PartlyEliminated(op, a) && PartlyEliminated(op, b)
    ensures IsDifference(op, a, b, EliminateTerms(op, a, b))
    decreases Size(a) + Size(b), if IsOp(op, a) || IsOp(op, b) then 1 else 4, 1
  {
    if IsOp(op, a) {
      var d1 := EliminateTerms(op, a.left, b);
      EliminateTermsDifference(op, a.left, b);
      EliminateTermsDifference(op, a.right, d1.1);
      DifferenceCompose(op, a.left, a.right, b, d1, EliminateTerms(op, a.right, d1.1));
    } else if IsOp(op, b) {
      var d1 := EliminateTerms(op, a, b.left);
      var d2 := EliminateTerms(op, d1.0, b.right);
      EliminateTermsDifference(op, a, b.left);
      EliminateTermsDifference(op, d1.0, b.right);
      DifferenceSwap(op, a, b.left, d1);
      DifferenceSwap(op, d1.0, b.right, d2);
      DifferenceCompose(op, b.left, b.right, a, (d1.1, d1.0), (d2.1, d2.0));
      DifferenceSwap(op, b, a, (Bin(op, d1.1, d2.1), d2.0));
    } else {
      EliminateLeavesDifference(op, a, b);
    }
  }

  lemma {:induction false} EliminateLeavesDifference(op: Op, a: Expr, b: Expr)
    requires PartlyEliminated(op, a) && PartlyEliminated(op, b) && !IsOp(op, a) && !IsOp(op, b)
    ensures IsDifference(op, a, b, EliminateTerms(op, a, b))
    decreases Size(a) + Size(b), 4, 0
  {
    var d := EliminateTerms(op, a, b);
    if a == UnitExpr(op) || b == UnitExpr(op) {
      ExprEqSymbol(a, b);
      assert d == (a, b);
      assert Terms(op, UnitExpr(op)) == multiset{};
    } else {
      ExprEqExact(a, b);
      assert Terms(op, a) == multiset{Canon(a)} && Terms(op, b) == multiset{Canon(b)};
      if ExprEq(a, b) {
        assert d == (UnitExpr(op), UnitExpr(op));
        assert Terms(op, UnitExpr(op)) == multiset{};
      } else {
        assert d == (a, b);
        assert Terms(op, a) - Terms(op, b) == Terms(op, a);
      }
    }
  }

  /** After y/n elimination only a unit is left exactly when all operands were taken out. */
  lemma {:induction false} EliminateYnSymbol(op: Op, e: Expr)
    requires PartlyEliminated(op, e)
    ensures Terms(op, e) == multiset{} <==> EliminateYn(e) == UnitExpr(op)
    ensures EliminateYn(e).Symbol? && EliminateYn(e) != UnitExpr(op) ==>
              Terms(op, e) == multiset{FSymbol(EliminateYn(e).sym)}
    ensures EliminateYn(e) != UnitExpr(op.Dual())
  {
    if IsOp(op, e) {
      EliminateYnSymbol(op, e.left);
      EliminateYnSymbol(op, e.right);
    } else if NoBareConst(e) {
      EliminateYnClean(e);
    }
  }

  lemma {:induction false} EliminateYnClean(e: Expr)
    requires NoBareConst(e)
    ensures EliminateYn(e) == e
  {
    if e.Bin? {
      EliminateYnClean(e.left);
      EliminateYnClean(e.right);
    }
  }

  /** Dropping y and n from an expression in normal form leaves none as an operand. */
  lemma {:induction false} EliminateYnNoBareConst(e: Expr)
    requires Nnf(e) && NoQuoted(e)
    ensures NoBareConst(EliminateYn(e)) && NoQuoted(EliminateYn(e))
  {
    if e.Bin? {
      EliminateYnNoBareConst(e.left);
      EliminateYnNoBareConst(e.right);
    }
  }

  /** So of normalised expressions without quoted constants expr_eq decides it once y and n are dropped. */
  lemma NormalisedEqExact(a: Expr, b: Expr)
    requires Nnf(a) && NoQuoted(a) && Nnf(b) && NoQuoted(b)
    ensures ExprEq(EliminateYn(a), EliminateYn(b)) <==> Canon(EliminateYn(a)) == Canon(EliminateYn(b))
  {
    EliminateYnNoBareConst(a);
    EliminateYnNoBareConst(b);
    ExprEqExact(EliminateYn(a), EliminateYn(b));
  }

  // ---------- reordering ----------

  lemma TermsBin(op: Op, a: Expr, b: Expr)
    ensures Terms(op, Bin(op, a, b)) == Terms(op, a) + Terms(op, b)
    ensures Canon(Bin(op, a, b)) == FBin(op, Terms(op, a) + Terms(op, b))
  {
  }

  lemma SumsReorder<T>(a: multiset<T>, b: multiset<T>, c: multiset<T>)
    ensures a + b == b + a && a + b + c == a + (b + c)
  {
  }

  /** Neither the order nor the grouping of operands matters to the form. */
  lemma CanonReorders(op: Op, a: Expr, b: Expr, c: Expr)
    ensures Canon(Bin(op, a, b)) == Canon(Bin(op, b, a))
    ensures Canon(Bin(op, Bin(op, a, b), c)) == Canon(Bin(op, a, Bin(op, b, c)))
  {
    TermsBin(op, a, b);
    TermsBin(op, b, a);
    TermsBin(op, b, c);
    TermsBin(op, Bin(op, a, b), c);
    TermsBin(op, a, Bin(op, b, c));
    SumsReorder(Terms(op, a), Terms(op, b), Terms(op, c));
  }

  /** So expressions that differ in them are recognised as equal. */
  lemma ExprEqReorders(op: Op, a: Expr, b: Expr, c: Expr)
    requires NoBareConst(a) && NoBareConst(b) && NoBareConst(c) && !Flagged(a) && !Flagged(b) && !Flagged(c)
    ensures ExprEq(Bin(op, a, b), Bin(op, b, a))
    ensures ExprEq(Bin(op, Bin(op, a, b), c), Bin(op, a, Bin(op, b, c)))
  {
    CanonReorders(op, a, b, c);
    ExprEqExact(Bin(op, a, b), Bin(op, b, a));
    ExprEqExact(Bin(op, Bin(op, a, b), c), Bin(op, a, Bin(op, b, c)));
  }

  // ---------- the two passes ----------

  /** Dropping y and n from a tree some operands of which were replaced by the unit changes no other operands. */
  lemma {:induction false} EliminateYnTerms(op: Op, e: Expr)
    requires PartlyEliminated(op, e)
    ensures PartlyEliminated(op, EliminateYn(e)) && Terms(op, EliminateYn(e)) == Terms(op, e)
  {
    if IsOp(op, e) {
      EliminateYnTerms(op, e.left);
      EliminateYnTerms(op, e.right);
      EliminateYnSymbol(op, e.left);
      EliminateYnSymbol(op, e.right);
    } else if e != UnitExpr(op) {
      EliminateYnClean(e);
    }
  }

  /** A pass with something that is no operand of a changes nothing. */
  lemma {:induction false} EliminateTermsNothing(op: Op, a: Expr, b: Expr)
    requires PartlyEliminated(op, a) && NoBareConst(b) && !Flagged(b) && !IsOp(op, b) && Canon(b) !in Terms(op, a)
    ensures EliminateTerms(op, a, b) == (a, b)
    decreases a
  {
    if IsOp(op, a) {
      EliminateTermsNothing(op, a.left, b);
      EliminateTermsNothing(op, a.right, b);
    } else if a == UnitExpr(op) {
      ExprEqSymbol(a, b);
    } else {
      ExprEqExact(a, b);
    }
  }

  /** d is what the `op` trees a and b have beyond each other. */
  ghost predicate Differ(op: Op, a: Expr, b: Expr, d: (Expr, Expr)) {
    && PartlyEliminated(op, d.0) && PartlyEliminated(op, d.1)
    && Terms(op, d.0) == Terms(op, a) - Terms(op, b) && Terms(op, d.1) == Terms(op, b) - Terms(op, a)
  }

  /** One pass and the dropping of y and n leave what the two sides have beyond each other. */
  lemma EliminatePassExact(op: Op, a: Expr, b: Expr)
    requires NoBareConst(a) && NoBareConst(b) && !Flagged(a) && !Flagged(b)
    ensures var d := EliminateTerms(op, a, b); Differ(op, a, b, (EliminateYn(d.0), EliminateYn(d.1)))
  {
    var d := EliminateTerms(op, a, b);
    NoBareConstPartly(op, a);
    NoBareConstPartly(op, b);
    EliminateTermsDifference(op, a, b);
    EliminateYnTerms(op, d.0);
    EliminateYnTerms(op, d.1);
  }

  /**
   * What cancelling common terms leaves: of two trees of one connective, or of a tree and one of its operands, what
   * they have beyond each other; two that have no connective at the root are left as they are.
   */
  lemma EliminateEqExact(a: Expr, b: Expr)
    requires NoBareConst(a) && NoBareConst(b) && !Flagged(a) && !Flagged(b)
    ensures var d := EliminateEq(a, b);
            if a.Bin? && (IsOp(a.op, b) || Canon(b) in Terms(a.op, a)) then Differ(a.op, a, b, d)
            else if b.Bin? then Differ(b.op, a, b, d)
            else d == (a, b)
  {
    EliminateYnClean(a);
    EliminateYnClean(b);
    if a.Bin? {
      EliminateFirstExact(a, b);
    } else if b.Bin? {
      EliminatePassExact(b.op, a, b);
    }
  }

  /** If the first pass leaves nothing for a second one. */
  lemma FirstPassOnly(a: Expr, b: Expr)
    requires a.Bin?
    requires var d := EliminateTerms(a.op, a, b); d.1.Bin? ==> IsOp(d.1.op, d.0)
    ensures var d := EliminateTerms(a.op, a, b); EliminateEq(a, b) == (EliminateYn(d.0), EliminateYn(d.1))
  {
  }

  /** If the first pass changes nothing. */
  lemma SecondPassOnly(a: Expr, b: Expr)
    requires a.Bin? && EliminateTerms(a.op, a, b) == (a, b) && (b.Bin? ==> b.op != a.op)
    ensures var d := if b.Bin? then EliminateTerms(b.op, a, b) else (a, b);
            EliminateEq(a, b) == (EliminateYn(d.0), EliminateYn(d.1))
  {
  }

  lemma EliminateFirstExact(a: Expr, b: Expr)
    requires NoBareConst(a) && NoBareConst(b) && !Flagged(a) && !Flagged(b) && a.Bin?
    ensures var d := EliminateEq(a, b);
            if IsOp(a.op, b) || Canon(b) in Terms(a.op, a) then Differ(a.op, a, b, d)
            else if b.Bin? then Differ(b.op, a, b, d)
            else d == (a, b)
  {
    var op := a.op;
    NoBareConstPartly(op, a);
    NoBareConstPartly(op, b);
    if IsOp(op, b) || Canon(b) in Terms(op, a) {
      EliminateTermsDifference(op, a, b);
      if !IsOp(op, b) { OperandGone(op, a, b); }
      FirstPassOnly(a, b);
      EliminatePassExact(op, a, b);
    } else {
      EliminateTermsNothing(op, a, b);
      SecondPassOnly(a, b);
      if b.Bin? {
        EliminatePassExact(b.op, a, b);
      } else {
        EliminateYnClean(a);
        EliminateYnClean(b);
      }
    }
  }

  /** An operand that the tree has is taken out. */
  lemma OperandGone(op: Op, a: Expr, b: Expr)
    requires PartlyEliminated(op, a) && PartlyEliminated(op, b) && !IsOp(op, b) && b != UnitExpr(op)
    requires Canon(b) in Terms(op, a)
    ensures EliminateTerms(op, a, b).1 == UnitExpr(op)
  {
    EliminateTermsDifference(op, a, b);
    var x := EliminateTerms(op, a, b).1;
    assert x != UnitExpr(op) ==> Terms(op, x) == multiset{Canon(x)};
    assert Terms(op, b) == multiset{Canon(b)};
    assert Terms(op, x) == Terms(op, b) - Terms(op, a) == multiset{};
  }

  /** A flagged symbol is never an operand of such a tree, and never taken out. */
  lemma {:induction false} FlaggedNoOperand(op: Op, a: Expr, b: Expr)
    requires PartlyEliminated(op, a) && Flagged(b)
    ensures EliminateTerms(op, a, b) == (a, b) && (b != UnitExpr(op) ==> Canon(b) !in Terms(op, a))
    decreases a
  {
    if IsOp(op, a) {
      FlaggedNoOperand(op, a.left, b);
      FlaggedNoOperand(op, a.right, b);
    } else {
      ExprEqSymbol(a, b);
    }
  }

  /** A tree of such operands has at least two. */
  lemma {:induction false} TwoTerms(op: Op, e: Expr)
    requires NoBareConst(e) && !Flagged(e)
    ensures |Terms(op, e)| >= if IsOp(op, e) then 2 else 1
  {
    if IsOp(op, e) {
      TwoTerms(op, e.left);
      TwoTerms(op, e.right);
    }
  }

  /** Nothing is left exactly if what is left is the unit. */
  lemma NothingLeft(op: Op, e: Expr)
    requires PartlyEliminated(op, e) && EliminateYn(e) == e
    ensures Terms(op, e) == multiset{} <==> e == UnitExpr(op)
    ensures e != UnitExpr(op.Dual())
  {
    EliminateYnSymbol(op, e);
  }

  /** Only y is left of b exactly if a is a conjunction that has all operands of b. */
  lemma YesLeftExact(a: Expr, b: Expr)
    requires NoBareConst(a) && NoBareConst(b)
    ensures IsYes(EliminateEq(a, b).1) <==> IsYes(b) || (IsOp(OpAnd, a) && Terms(OpAnd, b) <= Terms(OpAnd, a))
  {
    EliminateYnClean(a);
    EliminateYnClean(b);
    if Flagged(b) {
      if a.Bin? {
        NoBareConstPartly(a.op, a);
        FlaggedNoOperand(a.op, a, b);
        if a.op.OpAnd? && !IsYes(b) { assert Canon(b) in Terms(OpAnd, b); }
      }
    } else if Flagged(a) {
      if b.Bin? { FlaggedStays(b.op, a, b); }
    } else {
      YesLeft(a, b);
    }
  }

  lemma YesLeft(a: Expr, b: Expr)
    requires NoBareConst(a) && NoBareConst(b) && !Flagged(a) && !Flagged(b)
    ensures IsYes(EliminateEq(a, b).1) <==> IsOp(OpAnd, a) && Terms(OpAnd, b) <= Terms(OpAnd, a)
  {
    var d := EliminateEq(a, b);
    EliminateEqExact(a, b);
    YnTwice(a, b);
    if a.Bin? && (IsOp(a.op, b) || Canon(b) in Terms(a.op, a)) {
      NothingLeft(a.op, d.1);
      DifferenceEmpty(Terms(a.op, b), Terms(a.op, a));
    } else {
      if b.Bin? {
        NothingLeft(b.op, d.1);
        TwoTerms(b.op, b);
        assert |Terms(b.op, a)| <= 1;
        assert |Terms(b.op, d.1)| >= |Terms(b.op, b)| - |Terms(b.op, a)|;
      }
      if IsOp(OpAnd, a) { assert Canon(b) in Terms(OpAnd, b); }
    }
  }

  lemma DifferenceEmpty<T>(m: multiset<T>, n: multiset<T>)
    ensures m - n == multiset{} <==> m <= n
  {
    if m - n == multiset{} {
      forall x ensures m[x] <= n[x] {
        assert (m - n)[x] == 0;
      }
    }
  }

  /** What cancelling leaves has no y or n as an operand. */
  lemma YnTwice(a: Expr, b: Expr)
    ensures EliminateYn(EliminateEq(a, b).0) == EliminateEq(a, b).0
    ensures EliminateYn(EliminateEq(a, b).1) == EliminateEq(a, b).1
  {
    var d1 := if a.Bin? then EliminateTerms(a.op, a, b) else (a, b);
    var d2 := if d1.1.Bin? && !IsOp(d1.1.op, d1.0) then EliminateTerms(d1.1.op, d1.0, d1.1) else d1;
    EliminateYnShrinks(d2.0);
    EliminateYnShrinks(d2.1);
    EliminateYnShrinks(EliminateYn(d2.0));
    EliminateYnShrinks(EliminateYn(d2.1));
  }
}
