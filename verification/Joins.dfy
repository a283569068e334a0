/** Joining two operands of an OR or an AND into one equivalent operand. */
module Joins {
  import opened Options
  import opened Tristate
  import opened Expressions
  import opened Equality

  /** A comparison or a symbol. */
  predicate IsAtom(e: Expr) {
    e.Symbol? || e.Equal? || e.Unequal?
  }

  function AtomSym(e: Expr): Sym
    requires IsAtom(e)
  {
    if e.Symbol? then e.sym else e.lsym
  }

  /** The symbol the first operand is about: an atom or the negation of one. */
  function FirstSym(e: Expr): Option<Sym> {
    if e.Not? then (if IsAtom(e.arg) then Some(AtomSym(e.arg)) else None)
    else if IsAtom(e) then Some(AtomSym(e)) else None
  }

  /** The symbol the second operand is about; here only a bare symbol may be negated. */
  function SecondSym(e: Expr): Option<Sym> {
    if e.Not? then (if e.arg.Symbol? then Some(e.arg.sym) else None)
    else if IsAtom(e) then Some(AtomSym(e)) else None
  }

  /** The two right-hand sides are s and t, in either order. */
  predicate ComparedWith(a: Expr, b: Expr, s: Sym, t: Sym)
    requires (a.Equal? || a.Unequal?) && (b.Equal? || b.Unequal?)
  {
    (a.rsym == s && b.rsym == t) || (a.rsym == t && b.rsym == s)
  }

  /** One of the two is a bare symbol, the other the comparison `eq` with t. */
  predicate SymbolAndEqual(a: Expr, b: Expr, t: Sym) {
    (a.Symbol? && b.Equal? && b.rsym == t) || (b.Symbol? && a.Equal? && a.rsym == t)
  }

  predicate SymbolAndUnequal(a: Expr, b: Expr, t: Sym) {
    (a.Symbol? && b.Unequal? && b.rsym == t) || (b.Symbol? && a.Unequal? && a.rsym == t)
  }

  function JoinOr(a: Expr, b: Expr): Option<Expr> {
    if ExprEq(a, b) then Some(a)
    else if FirstSym(a).None? || SecondSym(b).None? || FirstSym(a) != SecondSym(b) then None
    else
      var s := FirstSym(a).value;
      if s.Type() == Tristate && a.Equal? && b.Equal? && ComparedWith(a, b, YesSym, ModSym) then
        Some(Unequal(s, NoSym))
      else if s.Type() == Tristate && a.Equal? && b.Equal? && ComparedWith(a, b, YesSym, NoSym) then
        Some(Unequal(s, ModSym))
      else if s.Type() == Tristate && a.Equal? && b.Equal? && ComparedWith(a, b, ModSym, NoSym) then
        Some(Unequal(s, YesSym))
      else if s.Type() == Boolean &&
              ((a.Not? && a.arg.Symbol? && b.Symbol?) || (b.Not? && b.arg.Symbol? && a.Symbol?)) then
        Some(Symbol(YesSym))
      else None
  }

  function JoinAnd(a: Expr, b: Expr): Option<Expr> {
    if ExprEq(a, b) then Some(a)
    else if FirstSym(a).None? || SecondSym(b).None? || FirstSym(a) != SecondSym(b) then None
    else
      var s := FirstSym(a).value;
      if !s.IsLogical() then None
      else if SymbolAndEqual(a, b, YesSym) then Some(Equal(s, YesSym))
      else if SymbolAndUnequal(a, b, NoSym) then Some(Symbol(s))
      else if SymbolAndUnequal(a, b, ModSym) then Some(Equal(s, YesSym))
      else if s.Type() != Tristate then None
      else if a.Equal? && b.Unequal? && b.rsym.IsConst() && a.rsym.IsConst() then
        Some(if a.rsym != b.rsym then Equal(s, a.rsym) else Symbol(NoSym))
      else if a.Unequal? && b.Equal? && a.rsym.IsConst() && b.rsym.IsConst() then
        Some(if b.rsym != a.rsym then Equal(s, b.rsym) else Symbol(NoSym))
      else if a.Unequal? && b.Unequal? && ComparedWith(a, b, YesSym, NoSym) then Some(Equal(s, ModSym))
      else if a.Unequal? && b.Unequal? && ComparedWith(a, b, YesSym, ModSym) then Some(Equal(s, NoSym))
      else if a.Unequal? && b.Unequal? && ComparedWith(a, b, ModSym, NoSym) then Some(Equal(s, YesSym))
      else None
  }

  function Join(op: Op, a: Expr, b: Expr): Option<Expr> {
    if op.OpOr? then JoinOr(a, b) else JoinAnd(a, b)
  }

  /** A joined operand has exactly the value of the two operands together, in three-valued logic. */
  lemma JoinOrExact(a: Expr, b: Expr, v: Valuation)
    requires JoinOr(a, b).Some?
    ensures Eval(JoinOr(a, b).value, v) == TriOr(Eval(a, v), Eval(b, v))
  {
    if ExprEq(a, b) {
      ExprEqSound(a, b, v);
    } else {
      BuiltinCompare(FirstSym(a).value, v);
    }
  }

  lemma JoinAndExact(a: Expr, b: Expr, v: Valuation)
    requires JoinAnd(a, b).Some?
    ensures Eval(JoinAnd(a, b).value, v) == TriAnd(Eval(a, v), Eval(b, v))
  {
    if ExprEq(a, b) {
      ExprEqSound(a, b, v);
    } else {
      BuiltinCompare(FirstSym(a).value, v);
      if (a.Equal? || a.Unequal?) && (b.Equal? || b.Unequal?) && a.rsym.IsConst() && b.rsym.IsConst() {
        ConstTextsDistinct(a.rsym, b.rsym, v);
      }
    }
  }

  lemma JoinExact(op: Op, a: Expr, b: Expr, v: Valuation)
    requires Join(op, a, b).Some?
    ensures Eval(Join(op, a, b).value, v) == op.Apply(Eval(a, v), Eval(b, v))
  {
    if op.OpOr? { JoinOrExact(a, b, v); } else { JoinAndExact(a, b, v); }
  }

  /** The join is one of the operands or a leaf, so putting it in place of both never grows the tree. */
  lemma JoinSmall(op: Op, a: Expr, b: Expr)
    requires Join(op, a, b).Some?
    ensures Size(Join(op, a, b).value) <= Size(a)
    ensures Join(op, a, b).value == a || !Join(op, a, b).value.Bin?
    ensures IsYn(a) ==> IsYn(Join(op, a, b).value)
  {
  }

  /** Two comparisons of one tristate symbol with y, m, n are joined unless the result would need an OR or be n. */
  lemma JoinTristateComplete(s: Sym, x: Sym, y: Sym)
    requires s.Type() == Tristate && x.IsBuiltin() && y.IsBuiltin()
    ensures JoinOr(Equal(s, x), Equal(s, y)).Some?
    ensures JoinAnd(Unequal(s, x), Unequal(s, y)).Some?
    ensures JoinAnd(Equal(s, x), Unequal(s, y)).Some? && JoinAnd(Unequal(s, x), Equal(s, y)).Some?
  {
  }

  /** Operands recognised as equal are joined. */
  lemma JoinEqual(op: Op, a: Expr, b: Expr)
    requires ExprEq(a, b)
    ensures Join(op, a, b) == Some(a)
  {
  }

  /** In an AND a logical symbol is joined with its comparison with y, and with those that it differs from n or m. */
  lemma JoinSymbolComplete(s: Sym)
    requires s.IsLogical()
    ensures JoinAnd(Symbol(s), Equal(s, YesSym)) == JoinAnd(Equal(s, YesSym), Symbol(s)) == Some(Equal(s, YesSym))
    ensures JoinAnd(Symbol(s), Unequal(s, ModSym)) == JoinAnd(Unequal(s, ModSym), Symbol(s)) == Some(Equal(s, YesSym))
    ensures JoinAnd(Symbol(s), Unequal(s, NoSym)) == JoinAnd(Unequal(s, NoSym), Symbol(s)) == Some(Symbol(s))
  {
  }

  ghost predicate AlwaysYes(e: Expr) {
    forall v: Valuation :: Eval(e, v) == YES
  }

  /** Of the logical symbols, exactly those that obey the law of the excluded middle are joined with their negation. */
  lemma JoinExcludedMiddle(s: Sym)
    ensures var x, n := Symbol(s), Not(Symbol(s));
            && (JoinOr(x, n).Some? <==> s.IsLogical() && AlwaysYes(Bin(OpOr, x, n)))
            && (JoinOr(n, x).Some? <==> s.IsLogical() && AlwaysYes(Bin(OpOr, n, x)))
  {
    var x, n := Symbol(s), Not(Symbol(s));
    ExprEqSymbol(n, x); ExprEqSymbol(x, n);
    if s.Type() == Tristate {
      var v := Valuation(_ => MOD, _ => "");
      assert Eval(x, v) == MOD && Eval(n, v) == MOD;
      assert Eval(Bin(OpOr, x, n), v) != YES && Eval(Bin(OpOr, n, x), v) != YES;
      assert !AlwaysYes(Bin(OpOr, x, n)) && !AlwaysYes(Bin(OpOr, n, x));
      assert JoinOr(x, n).None? && JoinOr(n, x).None?;
    } else if s.Type() == Boolean {
      forall v: Valuation ensures Eval(Bin(OpOr, x, n), v) == YES && Eval(Bin(OpOr, n, x), v) == YES {
        assert SymTri(v, s) == NO || SymTri(v, s) == YES;
        assert Eval(n, v) == TriNot(Eval(x, v));
      }
    }
  }
}
