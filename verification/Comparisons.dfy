/** Visibility rewriting, comparison of a whole expression with y or n, and the test for menu nesting. */
module Comparisons {
  import opened Options
  import opened Tristate
  import opened Expressions
  import opened Equality
  import opened NormalForm
  import opened Duplicates

  // ---------- FOO != n  ->  FOO ----------

  function TransBool(e: Expr): Expr {
    match e
    case Bin(op, l, r) => Bin(op, TransBool(l), TransBool(r))
    case Not(a) => Not(TransBool(a))
    case Unequal(l, r) => if l.Type() == SymType.Tristate && r == NoSym then Symbol(l) else e
    case _ => e
  }

  /** On negation normal form the rewrite may lower y to m, but n stays n and nothing else becomes n. */
  lemma {:induction false} TransBoolVisible(e: Expr, v: Valuation)
    requires Nnf(e)
    ensures Eval(TransBool(e), v) == NO <==> Eval(e, v) == NO
    ensures Eval(TransBool(e), v) <= Eval(e, v)
    ensures Nnf(TransBool(e))
  {
    match e
    case Bin(_, l, r) => TransBoolVisible(l, v); TransBoolVisible(r, v);
    case Unequal(l, r) => if l.Type() == SymType.Tristate { BuiltinCompare(l, v); }
    case _ =>
  }

  /** e is y, and by operands other than comparisons FOO!=n of symbols that are m. */
  predicate FirmlyTrue(e: Expr, v: Valuation) {
    match e
    case Bin(op, l, r) =>
      if op.OpOr? then FirmlyTrue(l, v) || FirmlyTrue(r, v) else FirmlyTrue(l, v) && FirmlyTrue(r, v)
    case Unequal(l, r) => Eval(e, v) == YES && !(l.Type() == SymType.Tristate && r == NoSym && SymTri(v, l) == MOD)
    case _ => Eval(e, v) == YES
  }

  /** The value changes exactly where it was y, but only by such comparisons; it becomes m then. */
  lemma {:induction false} TransBoolExact(e: Expr, v: Valuation)
    requires Nnf(e)
    ensures Eval(TransBool(e), v) == Eval(e, v) <==> Eval(e, v) != YES || FirmlyTrue(e, v)
    ensures Eval(TransBool(e), v) != Eval(e, v) ==> Eval(TransBool(e), v) == MOD
    ensures FirmlyTrue(e, v) ==> Eval(e, v) == YES
  {
    TransBoolVisible(e, v);
    match e
    case Bin(_, l, r) =>
      TransBoolVisible(l, v); TransBoolVisible(r, v);
      TransBoolExact(l, v); TransBoolExact(r, v);
    case Unequal(l, r) => if l.Type() == SymType.Tristate { BuiltinCompare(l, v); }
    case _ =>
  }

  /** Under a negation the rewrite is wrong exactly where the symbol is m, so normal form is needed. */
  lemma TransBoolUnderNot(s: Sym, v: Valuation)
    requires s.Type() == SymType.Tristate
    ensures var e := Not(Unequal(s, NoSym));
            (Eval(TransBool(e), v) == NO <==> Eval(e, v) == NO) <==> SymTri(v, s) != MOD
  {
    BuiltinCompare(s, v);
  }

  /** The visibility of a symbol: the best of its prompts' conditions, m counting as y unless it may stay m. */
  function Visibility(prompts: seq<Expr>, keepMod: bool, v: Valuation): Tri {
    var t := BestOf(prompts, v);
    if t == MOD && !keepMod then YES else t
  }

  function BestOf(prompts: seq<Expr>, v: Valuation): Tri {
    if prompts == [] then NO else TriOr(BestOf(prompts[..|prompts| - 1], v), Eval(prompts[|prompts| - 1], v))
  }

  function TransBoolAll(prompts: seq<Expr>): (r: seq<Expr>)
    ensures |r| == |prompts|
  {
    seq(|prompts|, i requires 0 <= i < |prompts| => TransBool(prompts[i]))
  }

  /** The visibility of a symbol that is never m is not changed by rewriting its prompts' conditions. */
  lemma {:induction false} TransBoolVisibility(prompts: seq<Expr>, v: Valuation)
    requires forall i :: 0 <= i < |prompts| ==> Nnf(prompts[i])
    ensures Visibility(TransBoolAll(prompts), false, v) == Visibility(prompts, false, v)
  {
    if prompts != [] {
      var init, last := prompts[..|prompts| - 1], prompts[|prompts| - 1];
      TransBoolVisibility(init, v);
      TransBoolVisible(last, v);
      assert TransBoolAll(prompts)[..|prompts| - 1] == TransBoolAll(init);
    }
  }

  // ---------- e = y, e != n, ... ----------

  /** The expression for `e = t` (equal) or `e != t`. */
  function TransCompare(e: Expr, equal: bool, t: Sym): Expr
    requires t.IsBuiltin()
  {
    match e
    case Bin(op, l, r) =>
      var l', r' := TransCompare(l, true, t), TransCompare(r, true, t);
      var c := if t.YesSym? then Bin(op, l', r') else if t.NoSym? then Bin(op.Dual(), l', r') else e;
      if equal then c else Not(c)
    case Not(a) => TransCompare(a, !equal, t)
    case Symbol(s) => if equal then Equal(s, t) else Unequal(s, t)
    case _ =>
      if t.ModSym? then Symbol(if equal then NoSym else YesSym)
      else if equal == t.YesSym? then e
      else Not(e)
  }

  /** A null expression, which means y, is compared as its target. */
  function TransCompareOpt(e: Option<Expr>, equal: bool, t: Sym): Expr
    requires t.IsBuiltin()
  {
    if e.None? then (if equal then Symbol(t) else Not(Symbol(t))) else TransCompare(e.value, equal, t)
  }

  /** The meaning of `x = t` or `x != t`. */
  function CompareTri(x: Tri, equal: bool, t: Tri): Tri {
    if (x == t) == equal then YES else NO
  }

  function BuiltinTri(t: Sym): Tri
    requires t.IsBuiltin()
  {
    if t.YesSym? then YES else if t.ModSym? then MOD else NO
  }

  /**
   * The value of e as a comparison with t, which is y or n, takes it: a bare symbol counts as t if its text is that of
   * t and as the opposite otherwise.
   */
  function ReadAs(e: Expr, v: Valuation, t: Sym): Tri
    requires t.YesSym? || t.NoSym?
  {
    match e
    case Symbol(s) => if (SymText(v, s) == SymText(v, t)) == t.YesSym? then YES else NO
    case Not(a) => TriNot(ReadAs(a, v, t))
    case Bin(op, l, r) => op.Apply(ReadAs(l, v, t), ReadAs(r, v, t))
    case _ => Eval(e, v)
  }

  /** Nothing is read as m. */
  lemma {:induction false} ReadSettled(e: Expr, v: Valuation, t: Sym)
    requires t.YesSym? || t.NoSym?
    ensures ReadAs(e, v, t) != MOD
  {
    match e
    case Not(a) => ReadSettled(a, v, t);
    case Bin(_, l, r) => ReadSettled(l, v, t); ReadSettled(r, v, t);
    case _ =>
  }

  /** A null expression is y. */
  function ReadOpt(e: Option<Expr>, v: Valuation, t: Sym): Tri
    requires t.YesSym? || t.NoSym?
  {
    if e.None? then YES else ReadAs(e.value, v, t)
  }

  lemma CompareDistributes(op: Op, x: Tri, y: Tri, t: Tri)
    requires t != MOD
    ensures CompareTri(op.Apply(x, y), true, t) ==
              (if t == YES then op else op.Dual()).Apply(CompareTri(x, true, t), CompareTri(y, true, t))
  {
  }

  /** The expression for a comparison with y or n has the value of that comparison with e as it is read. */
  lemma {:induction false} TransCompareExact(e: Expr, equal: bool, t: Sym, v: Valuation)
    requires t.YesSym? || t.NoSym?
    ensures Eval(TransCompare(e, equal, t), v) == CompareTri(ReadAs(e, v, t), equal, BuiltinTri(t))
  {
    match e
    case Bin(op, l, r) =>
      TransCompareExact(l, true, t, v);
      TransCompareExact(r, true, t, v);
      CompareDistributes(op, ReadAs(l, v, t), ReadAs(r, v, t), BuiltinTri(t));
    case Not(a) => TransCompareExact(a, !equal, t, v); ReadSettled(a, v, t);
    case _ =>
  }

  /** So the comparison comes out right exactly when reading e does not change whether its value is that of t. */
  lemma TransCompareCorrect(e: Expr, equal: bool, t: Sym, v: Valuation)
    requires t.YesSym? || t.NoSym?
    ensures Eval(TransCompare(e, equal, t), v) == CompareTri(Eval(e, v), equal, BuiltinTri(t)) <==>
            (ReadAs(e, v, t) == BuiltinTri(t) <==> Eval(e, v) == BuiltinTri(t))
  {
    TransCompareExact(e, equal, t, v);
  }

  /** Every operand that is a bare symbol is a boolean, a tristate, y, m or n. */
  predicate LogicalOperands(e: Expr) {
    match e
    case Symbol(s) => s.IsLogical() || s.IsBuiltin()
    case Not(a) => LogicalOperands(a)
    case Bin(_, l, r) => LogicalOperands(l) && LogicalOperands(r)
    case _ => true
  }

  /** The value of e with every bare operand that is m read as `mod`. */
  function Promoted(e: Expr, v: Valuation, mod: Tri): Tri {
    match e
    case Symbol(s) => if SymTri(v, s) == MOD then mod else SymTri(v, s)
    case Not(a) => TriNot(Promoted(a, v, mod))
    case Bin(op, l, r) => op.Apply(Promoted(l, v, mod), Promoted(r, v, mod))
    case _ => Eval(e, v)
  }

  /** With logical operands, reading e means reading m as the value other than t. */
  lemma {:induction false} LogicalRead(e: Expr, v: Valuation, t: Sym)
    requires t.YesSym? || t.NoSym?
    requires LogicalOperands(e)
    ensures ReadAs(e, v, t) == Promoted(e, v, if t.YesSym? then NO else YES)
  {
    match e
    case Bin(_, l, r) => LogicalRead(l, v, t); LogicalRead(r, v, t);
    case Not(a) => LogicalRead(a, v, t);
    case Symbol(s) =>
      if s.IsBuiltin() { ConstTextsDistinct(s, t, v); } else { BuiltinCompare(s, v); }
    case _ =>
  }

  /** So with logical operands the comparison is that of e with every bare m promoted to the value other than t. */
  lemma TransCompareLogical(e: Expr, equal: bool, t: Sym, v: Valuation)
    requires (t.YesSym? || t.NoSym?) && LogicalOperands(e)
    ensures Eval(TransCompare(e, equal, t), v) ==
              CompareTri(Promoted(e, v, if t.YesSym? then NO else YES), equal, BuiltinTri(t))
  {
    TransCompareExact(e, equal, t, v);
    LogicalRead(e, v, t);
  }

  /** No negated operand is m. */
  predicate NegationsSettled(e: Expr, v: Valuation) {
    match e
    case Not(a) => Eval(a, v) != MOD && NegationsSettled(a, v)
    case Bin(_, l, r) => NegationsSettled(l, v) && NegationsSettled(r, v)
    case _ => true
  }

  /** If moreover no negated operand is m, the comparison is right. */
  lemma {:induction false} LogicalSettled(e: Expr, v: Valuation, t: Sym)
    requires t.YesSym? || t.NoSym?
    requires LogicalOperands(e) && NegationsSettled(e, v)
    ensures ReadAs(e, v, t) == BuiltinTri(t) <==> Eval(e, v) == BuiltinTri(t)
    ensures Eval(e, v) != MOD ==> ReadAs(e, v, t) == Eval(e, v)
  {
    match e
    case Bin(_, l, r) => LogicalSettled(l, v, t); LogicalSettled(r, v, t);
    case Not(a) => LogicalSettled(a, v, t);
    case Symbol(s) =>
      if s.IsBuiltin() { ConstTextsDistinct(s, t, v); } else { BuiltinCompare(s, v); }
    case _ =>
  }

  /** Without m, neither as a symbol's value nor as an operand, nothing is read differently. */
  lemma {:induction false} TwoValuedRead(e: Expr, v: Valuation, t: Sym)
    requires t.YesSym? || t.NoSym?
    requires LogicalOperands(e) && TwoValued(v) && NoBareMod(e)
    ensures ReadAs(e, v, t) == Eval(e, v)
  {
    match e
    case Bin(_, l, r) => TwoValuedRead(l, v, t); TwoValuedRead(r, v, t);
    case Not(a) => TwoValuedRead(a, v, t);
    case Symbol(s) =>
      if s.IsBuiltin() { ConstTextsDistinct(s, t, v); } else { BuiltinCompare(s, v); }
    case _ =>
  }

  /** Bare logical operands are compared right whatever their value, but under a negation only if they are not m. */
  lemma TransCompareNotExact(s: Sym, equal: bool, t: Sym, v: Valuation)
    requires (t.YesSym? || t.NoSym?) && s.IsLogical()
    ensures Eval(TransCompare(Symbol(s), equal, t), v) == CompareTri(Eval(Symbol(s), v), equal, BuiltinTri(t))
    ensures Eval(TransCompare(Not(Symbol(s)), equal, t), v) == CompareTri(Eval(Not(Symbol(s)), v), equal, BuiltinTri(t))
            <==> SymTri(v, s) != MOD
  {
    BuiltinCompare(s, v);
  }

  /** All others are n as expressions, but are compared by their text. */
  lemma TransCompareTextExact(s: Sym, equal: bool, t: Sym, v: Valuation)
    requires (t.YesSym? || t.NoSym?) && !s.IsLogical() && !s.IsBuiltin()
    ensures Eval(TransCompare(Symbol(s), equal, t), v) == CompareTri(Eval(Symbol(s), v), equal, BuiltinTri(t)) <==>
            (SymText(v, s) == SymText(v, t) <==> t.NoSym?)
  {
    TransCompareCorrect(Symbol(s), equal, t, v);
  }

  /** Comparing an AND or OR with m, which the code never asks for, is right exactly when it is n. */
  lemma TransCompareModExact(op: Op, l: Expr, r: Expr, v: Valuation)
    ensures var e := Bin(op, l, r);
            Eval(TransCompare(e, true, ModSym), v) == CompareTri(Eval(e, v), true, MOD) <==> Eval(e, v) == NO
  {
  }

  /** A comparison expression is never m. */
  lemma {:induction false} TransCompareSettled(e: Expr, equal: bool, t: Sym, v: Valuation)
    requires t.YesSym? || t.NoSym?
    ensures Eval(TransCompare(e, equal, t), v) != MOD
  {
    match e
    case Bin(op, l, r) => TransCompareSettled(l, true, t, v); TransCompareSettled(r, true, t, v);
    case Not(a) => TransCompareSettled(a, !equal, t, v);
    case _ =>
  }

  // ---------- nesting ----------

  predicate ContainsSymbol(e: Expr, s: Sym) {
    match e
    case Bin(_, l, r) => ContainsSymbol(l, s) || ContainsSymbol(r, s)
    case Symbol(t) => t == s
    case Equal(l, r) => l == s || r == s
    case Unequal(l, r) => l == s || r == s
    case Not(a) => ContainsSymbol(a, s)
  }

  predicate DependsSymbol(e: Expr, s: Sym) {
    match e
    case Bin(op, l, r) => op.OpAnd? && (DependsSymbol(l, s) || DependsSymbol(r, s))
    case Symbol(t) => t == s
    case Equal(l, r) => l == s && (r == YesSym || r == ModSym)
    case Unequal(l, r) => l == s && r == NoSym
    case Not(_) => false
  }

  /** The normalised form of `e != n` that the nesting test compares. */
  function VisibleForm(e: Option<Expr>): Expr {
    EliminateDups(Transform(TransCompareOpt(e, false, NoSym)))
  }

  /** Whether the entry with condition `dep` goes below the entry of `sym`, whose prompt has condition `base`. */
  predicate Nests(sym: Sym, base: Option<Expr>, dep: Option<Expr>) {
    dep.Some? && ContainsSymbol(dep.value, sym) &&
    (DependsSymbol(dep.value, sym) || IsYes(EliminateEq(VisibleForm(dep), VisibleForm(base)).1))
  }

  /** Whoever depends on a symbol is n, evaluated or read, while the symbol's text is n. */
  lemma {:induction false} DependsSymbolSound(e: Expr, s: Sym, v: Valuation)
    requires DependsSymbol(e, s) && (Eval(e, v) != NO || ReadAs(e, v, NoSym) != NO)
    ensures SymText(v, s) != "n"
  {
    BuiltinTexts();
    if e.Bin? {
      if DependsSymbol(e.left, s) { DependsSymbolSound(e.left, s, v); } else { DependsSymbolSound(e.right, s, v); }
    } else if s.IsLogical() {
      BuiltinCompare(s, v);
    }
  }

  lemma {:induction false} DependsContains(e: Expr, s: Sym)
    requires DependsSymbol(e, s)
    ensures ContainsSymbol(e, s)
  {
    if e.Bin? {
      if DependsSymbol(e.left, s) { DependsContains(e.left, s); } else { DependsContains(e.right, s); }
    }
  }

  /** The normalised form says exactly whether the expression, as it is read, is visible. */
  lemma VisibleFormExact(e: Option<Expr>, v: Valuation)
    ensures Eval(VisibleForm(e), v) == if ReadOpt(e, v, NoSym) == NO then NO else YES
  {
    var c := TransCompareOpt(e, false, NoSym);
    TransformExact(c, v);
    EliminateDupsSettles(Transform(c), v);
    if e.Some? {
      TransCompareExact(e.value, false, NoSym, v);
      TransCompareSettled(e.value, false, NoSym, v);
    }
  }

  /**
   * An entry is nested only if it becomes invisible when the parent is set to n, or is visible only while the parent
   * is: the two conditions of the language's manual, with conditions as comparisons read them.
   */
  lemma NestsSound(sym: Sym, base: Option<Expr>, dep: Option<Expr>, v: Valuation)
    requires Nests(sym, base, dep) && ReadOpt(dep, v, NoSym) != NO
    ensures SymText(v, sym) != "n" || ReadOpt(base, v, NoSym) != NO
  {
    if DependsSymbol(dep.value, sym) {
      DependsSymbolSound(dep.value, sym, v);
    } else {
      VisibleFormExact(dep, v);
      VisibleFormExact(base, v);
      EliminateEqImplies(VisibleForm(dep), VisibleForm(base), v);
    }
  }

  /** Where reading does not change whether the conditions are n, the same holds of their values. */
  lemma NestsVisible(sym: Sym, base: Option<Expr>, dep: Option<Expr>, v: Valuation)
    requires Nests(sym, base, dep) && EvalOpt(dep, v) != NO
    requires (ReadOpt(dep, v, NoSym) == NO ==> EvalOpt(dep, v) == NO) || DependsSymbol(dep.value, sym)
    requires EvalOpt(base, v) == NO ==> ReadOpt(base, v, NoSym) == NO
    ensures SymText(v, sym) != "n" || EvalOpt(base, v) != NO
  {
    if DependsSymbol(dep.value, sym) {
      DependsSymbolSound(dep.value, sym, v);
    } else {
      NestsSound(sym, base, dep, v);
    }
  }

  /** With x = m and s = n an entry under !x && s!=y, which is m, is nested below s, whose prompt is under x=n. */
  lemma NestsMisread(v: Valuation)
    requires v.tri(NamedSym("x", SymType.Tristate)) == MOD && v.tri(NamedSym("s", SymType.Tristate)) == NO
    ensures var x, s := NamedSym("x", SymType.Tristate), NamedSym("s", SymType.Tristate);
            var base, dep := Equal(x, NoSym), Bin(OpAnd, Not(Symbol(x)), Unequal(s, YesSym));
            && Nests(s, Some(base), Some(dep))
            && Eval(dep, v) == MOD && SymText(v, s) == "n" && Eval(base, v) == NO
  {
    var x, s := NamedSym("x", SymType.Tristate), NamedSym("s", SymType.Tristate);
    assert "x"[0] != "s"[0];
    var base, dep := Equal(x, NoSym), Bin(OpAnd, Not(Symbol(x)), Unequal(s, YesSym));
    BuiltinCompare(x, v); BuiltinCompare(s, v);
    assert Eval(Symbol(x), v) == MOD && Eval(Not(Symbol(x)), v) == MOD && Eval(Unequal(s, YesSym), v) == YES;
    assert Eval(dep, v) == MOD && Eval(base, v) == NO;
    MisreadForms(x, s);
    MisreadNests(base, Unequal(s, YesSym));
  }

  lemma MisreadNests(a: Expr, e: Expr)
    requires a.Equal? && e.Unequal?
    ensures IsYes(EliminateEq(Bin(OpAnd, a, e), a).1)
  {
    var u := UnitExpr(OpAnd);
    assert EliminateTerms(OpAnd, a, a) == (u, u);
    OperandLeft(e, u);
    assert EliminateTerms(OpAnd, Bin(OpAnd, a, e), a) == (Bin(OpAnd, u, e), u);
  }

  lemma OperandLeft(e: Expr, u: Expr)
    requires e.Unequal? && u.Symbol?
    ensures EliminateTerms(OpAnd, e, u) == (e, u)
  {
    assert !ExprEq(e, u);
  }

  /** The two forms the test compares. */
  lemma MisreadForms(x: Sym, s: Sym)
    requires x.Type() == s.Type() == SymType.Tristate && x != s
    ensures VisibleForm(Some(Equal(x, NoSym))) == Equal(x, NoSym)
    ensures VisibleForm(Some(Bin(OpAnd, Not(Symbol(x)), Unequal(s, YesSym)))) ==
              Bin(OpAnd, Equal(x, NoSym), Unequal(s, YesSym))
  {
    var a, b := Equal(x, NoSym), Unequal(s, YesSym);
    var e := Bin(OpAnd, Not(Symbol(x)), b);
    var c := Bin(OpOr, Unequal(x, NoSym), Not(b));
    MisreadCompare(Symbol(x), b, NoSym);
    assert TransCompare(e, false, NoSym) == Not(c);
    MisreadTransform(x, s);
    TwoJoinless(OpAnd, a, b);
    AtomsConsistent(OpAnd, Bin(OpAnd, a, b), [], []);
  }

  lemma MisreadCompare(x: Expr, b: Expr, t: Sym)
    requires t == NoSym && x.Symbol? && b.Unequal?
    ensures TransCompare(Not(x), true, t) == Unequal(x.sym, t) && TransCompare(b, true, t) == Not(b)
    ensures TransCompare(Bin(OpAnd, Not(x), b), false, t) == Not(Bin(OpOr, Unequal(x.sym, t), Not(b)))
  {
    assert TransCompare(x, false, t) == Unequal(x.sym, t);
    assert TransCompare(Not(x), true, t) == Unequal(x.sym, t);
  }

  lemma MisreadTransform(x: Sym, s: Sym)
    requires x.Type() == s.Type() == SymType.Tristate
    ensures Transform(Not(Bin(OpOr, Unequal(x, NoSym), Not(Unequal(s, YesSym))))) ==
              Bin(OpAnd, Equal(x, NoSym), Unequal(s, YesSym))
  {
    var l, b := Unequal(x, NoSym), Unequal(s, YesSym);
    assert Transform(l) == l && Transform(Not(l)) == Equal(x, NoSym);
    assert Transform(b) == b && Transform(Not(b)) == Equal(s, YesSym);
    assert Transform(Bin(OpOr, l, Not(b))) == Bin(OpOr, l, Equal(s, YesSym));
    assert Transform(Not(Equal(s, YesSym))) == b;
    assert Transform(Negated(OpOr, l, Equal(s, YesSym))) == Bin(OpAnd, Equal(x, NoSym), b);
  }
}
