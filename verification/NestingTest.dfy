/** Which conditions pass the test for nesting. */
module NestingTest {
  import opened Options
  import opened Tristate
  import opened Expressions
  import opened Equality
  import opened NormalForm
  import opened Reflexive
  import opened Canonical
  import opened Duplicates
  import opened Comparisons
  import opened Configuration

  /** A condition contains exactly the symbols that occur in it. */
  lemma {:induction false} ContainsExact(e: Expr, s: Sym)
    ensures ContainsSymbol(e, s) <==> s in Syms(e)
  {
    match e
    case Bin(_, l, r) => ContainsExact(l, s); ContainsExact(r, s);
    case Not(a) => ContainsExact(a, s);
    case _ =>
  }

  /** What has to hold for e to hold: its conjuncts. */
  function Conjuncts(e: Expr): set<Expr> {
    match e
    case Bin(OpAnd, l, r) => Conjuncts(l) + Conjuncts(r)
    case _ => {e}
  }

  /** c is s itself, or one of the comparisons s=y, s=m, s!=n. */
  predicate Demands(c: Expr, s: Sym) {
    c == Symbol(s) || c == Equal(s, YesSym) || c == Equal(s, ModSym) || c == Unequal(s, NoSym)
  }

  /** A condition depends on exactly the symbols one of its conjuncts demands. */
  lemma {:induction false} DependsExact(e: Expr, s: Sym)
    ensures DependsSymbol(e, s) <==> exists c :: c in Conjuncts(e) && Demands(c, s)
  {
    if IsOp(OpAnd, e) {
      DependsExact(e.left, s);
      DependsExact(e.right, s);
      assert forall c :: c in Conjuncts(e) <==> c in Conjuncts(e.left) || c in Conjuncts(e.right);
    } else {
      assert Conjuncts(e) == {e};
      match e {
        case Bin(_, _, _) =>
        case Symbol(_) =>
        case Not(_) =>
        case Equal(l, r) => assert Demands(e, s) <==> l == s && (r == YesSym || r == ModSym);
        case Unequal(l, r) => assert Demands(e, s) <==> l == s && r == NoSym;
      }
      assert DependsSymbol(e, s) <==> Demands(e, s);
    }
  }

  /** Only an entry whose condition mentions the symbol is nested below the symbol's entry. */
  lemma NestsMentions(sym: Sym, base: Option<Expr>, dep: Option<Expr>)
    requires Nests(sym, base, dep)
    ensures dep.Some? && sym in Syms(dep.value)
  {
    ContainsExact(dep.value, sym);
  }

  /** And every entry is of whose conjuncts one demands the symbol. */
  lemma NestsDemanded(sym: Sym, base: Option<Expr>, dep: Expr, c: Expr)
    requires c in Conjuncts(dep) && Demands(c, sym)
    ensures Nests(sym, base, Some(dep))
  {
    DependsExact(dep, sym);
    DependsContains(dep, sym);
  }

  /** Below an entry whose prompt has no condition, mentioning the symbol is all it takes. */
  lemma NestsUnconditional(sym: Sym, dep: Option<Expr>)
    ensures Nests(sym, None, dep) <==> dep.Some? && sym in Syms(dep.value)
  {
    if dep.Some? {
      ContainsExact(dep.value, sym);
      var form, y := VisibleForm(dep), Symbol(YesSym);
      assert VisibleForm(None) == y by {
        assert Transform(Not(Symbol(NoSym))) == y;
      }
      YesStays(form, y);
    }
  }

  lemma {:induction false} YesStays(a: Expr, y: Expr)
    requires y == Symbol(YesSym)
    ensures IsYes(EliminateEq(a, y).1)
  {
    if a.Bin? { FlaggedStaysRight(a.op, a, y); }
  }

  lemma {:induction false} FlaggedStaysRight(op: Op, a: Expr, y: Expr)
    requires Flagged(y)
    ensures EliminateTerms(op, a, y) == (a, y)
    decreases a
  {
    if IsOp(op, a) {
      FlaggedStaysRight(op, a.left, y);
      FlaggedStaysRight(op, a.right, y);
    } else {
      ExprEqSymbol(a, y);
    }
  }

  /** The forms that are compared are normalised and free of operands that could be joined or contradict others. */
  lemma VisibleFormReduced(e: Option<Expr>)
    ensures Nnf(VisibleForm(e)) && DupsRound(VisibleForm(e)) == (VisibleForm(e), 0)
  {
    var c := Transform(TransCompareOpt(e, false, NoSym));
    TransformNnf(TransCompareOpt(e, false, NoSym));
    EliminateDupsNnf(c);
    EliminateDupsFixpoint(c);
  }

  /**
   * Exactly those entries are nested whose condition mentions the symbol and either has a conjunct that demands it or,
   * as a conjunction of normalised operands, has every operand of the normalised condition of the symbol's prompt.
   */
  lemma NestsExact(sym: Sym, base: Option<Expr>, dep: Option<Expr>)
    requires NoBareConst(VisibleForm(dep)) && NoBareConst(VisibleForm(base))
    ensures var d, b := VisibleForm(dep), VisibleForm(base);
            Nests(sym, base, dep) <==>
            && dep.Some? && sym in Syms(dep.value)
            && (|| (exists c :: c in Conjuncts(dep.value) && Demands(c, sym))
                || IsYes(b)
                || (IsOp(OpAnd, d) && Terms(OpAnd, b) <= Terms(OpAnd, d)))
  {
    if dep.Some? {
      ContainsExact(dep.value, sym);
      DependsExact(dep.value, sym);
      YesLeftExact(VisibleForm(dep), VisibleForm(base));
    }
  }
}
