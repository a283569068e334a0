/** Symbols, dependency expressions and their meaning. */
module Expressions {
  import opened Options
  import opened Tristate

  datatype SymType = Unknown | Boolean | Tristate | Int | Hex | String | Other

  /** The text of an interned quoted constant: "y", "m" and "n" are the three built-in symbols instead. */
  type ConstText = s: string | s != "y" && s != "m" && s != "n" witness ""

  /**
   * A symbol. Symbols are interned, so comparing two of them by value is comparing their addresses.
   * The built-in symbols and quoted constants have type Unknown.
   */
  datatype Sym =
    | YesSym
    | ModSym
    | NoSym
    | ConstSym(text: ConstText)
    | NamedSym(name: string, declared: SymType)
  {
    function Type(): SymType {
      if NamedSym? then declared else Unknown
    }

    /** One of the built-in symbols y, m and n. */
    predicate IsBuiltin() {
      YesSym? || ModSym? || NoSym?
    }

    /** Some bit of SYMBOL_CONST is set. */
    predicate IsConst() {
      !NamedSym?
    }

    /** SYMBOL_YES or SYMBOL_NO is set; a quoted constant carries both. */
    predicate HasYesNoFlag() {
      YesSym? || NoSym? || ConstSym?
    }

    predicate IsLogical() {
      Type() == Boolean || Type() == Tristate
    }
  }

  /** A non-null expression node; a null pointer is `None`. */
  datatype Expr =
    | Symbol(sym: Sym)
    | Not(arg: Expr)
    | Bin(op: Op, left: Expr, right: Expr)
    | Equal(lsym: Sym, rsym: Sym)
    | Unequal(lsym: Sym, rsym: Sym)

  /** The values given to the declared symbols, before they are fitted to the symbols' types. */
  datatype Valuation = Valuation(tri: Sym -> Tri, text: Sym -> string)

  /** The tristate value of a symbol: a boolean is never m, and only logical symbols and y, m are above n. */
  function SymTri(v: Valuation, s: Sym): Tri {
    match s
    case YesSym => YES
    case ModSym => MOD
    case NoSym => NO
    case ConstSym(_) => NO
    case NamedSym(_, Boolean) => if v.tri(s) == NO then NO else YES
    case NamedSym(_, Tristate) => v.tri(s)
    case NamedSym(_, _) => NO
  }

  /** The string value of a symbol, which comparisons look at. */
  function SymText(v: Valuation, s: Sym): string {
    match s
    case YesSym => "y"
    case ModSym => "m"
    case NoSym => "n"
    case ConstSym(t) => t
    case NamedSym(n, t) =>
      match t
      case Boolean => TriString(SymTri(v, s))
      case Tristate => TriString(SymTri(v, s))
      case Unknown => n
      case Other => n
      case _ => v.text(s)
  }

  /** The value of an expression. */
  function Eval(e: Expr, v: Valuation): Tri {
    match e
    case Symbol(s) => SymTri(v, s)
    case Not(a) => TriNot(Eval(a, v))
    case Bin(op, l, r) => op.Apply(Eval(l, v), Eval(r, v))
    case Equal(l, r) => if SymText(v, l) == SymText(v, r) then YES else NO
    case Unequal(l, r) => if SymText(v, l) == SymText(v, r) then NO else YES
  }

  /** The value of a possibly null expression: null is y. */
  function EvalOpt(e: Option<Expr>, v: Valuation): Tri {
    if e.None? then YES else Eval(e.value, v)
  }

  function Size(e: Expr): (n: nat)
    ensures n >= 1
  {
    match e
    case Symbol(_) => 1
    case Not(a) => 1 + Size(a)
    case Bin(_, l, r) => 1 + Size(l) + Size(r)
    case Equal(_, _) => 1
    case Unequal(_, _) => 1
  }

  predicate IsOp(op: Op, e: Expr) {
    e.Bin? && e.op == op
  }

  predicate IsYes(e: Expr) {
    e == Symbol(YesSym)
  }

  predicate IsNo(e: Expr) {
    e == Symbol(NoSym)
  }

  /** The symbol an eliminated operand of `op` is replaced with. */
  function UnitExpr(op: Op): Expr {
    if op.OpOr? then Symbol(NoSym) else Symbol(YesSym)
  }

  /** No symbol in v is m. */
  ghost predicate TwoValued(v: Valuation) {
    forall s: Sym :: s.NamedSym? ==> SymTri(v, s) != MOD
  }

  /** The constant m does not occur as an operand of its own. */
  predicate NoBareMod(e: Expr) {
    match e
    case Symbol(s) => s != ModSym
    case Not(a) => NoBareMod(a)
    case Bin(_, l, r) => NoBareMod(l) && NoBareMod(r)
    case _ => true
  }

  lemma {:induction false} TwoValuedEval(e: Expr, v: Valuation)
    requires TwoValued(v) && NoBareMod(e)
    ensures Eval(e, v) != MOD
  {
    match e
    case Not(a) => TwoValuedEval(a, v);
    case Bin(_, l, r) => TwoValuedEval(l, v); TwoValuedEval(r, v);
    case _ =>
  }

  lemma BuiltinTexts()
    ensures "y" != "m" && "y" != "n" && "m" != "n"
  {
    assert "y"[0] != "m"[0] && "y"[0] != "n"[0] && "m"[0] != "n"[0];
  }

  /** Distinct constants have distinct texts. */
  lemma ConstTextsDistinct(s: Sym, t: Sym, v: Valuation)
    requires s.IsConst() && t.IsConst()
    ensures SymText(v, s) == SymText(v, t) <==> s == t
  {
    BuiltinTexts();
  }

  /** Comparing a logical symbol with y, m or n compares its value. */
  lemma BuiltinCompare(s: Sym, v: Valuation)
    requires s.IsLogical()
    ensures SymText(v, s) == "y" <==> SymTri(v, s) == YES
    ensures SymText(v, s) == "m" <==> SymTri(v, s) == MOD
    ensures SymText(v, s) == "n" <==> SymTri(v, s) == NO
  {
    BuiltinTexts();
  }
}
