/** Negation normal form. */
module NormalForm {
  import opened Tristate
  import opened Expressions

  /** Decreases on every step of the transformation: moving a negation inwards makes two lighter ones. */
  function Weight(e: Expr): (w: nat)
    ensures w >= 1
  {
    match e
    case Symbol(_) => 1
    case Not(a) => 2 * Weight(a)
    case Bin(_, l, r) => Weight(l) + Weight(r) + 1
    case Equal(_, _) => 2
    case Unequal(_, _) => 2
  }

  /** A comparison of a boolean symbol with y, m or n becomes the symbol, its negation or a constant. */
  function TransformCompare(e: Expr): (r: Expr)
    requires e.Equal? || e.Unequal?
    ensures Weight(r) <= 2
  {
    if e.lsym.Type() != Boolean then e
    else
      match e.rsym
      case NoSym => if e.Equal? then Not(Symbol(e.lsym)) else Symbol(e.lsym)
      case ModSym => if e.Equal? then Symbol(NoSym) else Symbol(YesSym)
      case YesSym => if e.Equal? then Symbol(e.lsym) else Not(Symbol(e.lsym))
      case _ => e
  }

  /** The expression !(l op r) turns into. */
  function Negated(op: Op, l: Expr, r: Expr): (n: Expr)
    ensures Weight(n) == 2 * Weight(l) + 2 * Weight(r) + 1
  {
    assert Weight(Not(l)) == 2 * Weight(l) && Weight(Not(r)) == 2 * Weight(r);
    Bin(op.Dual(), Not(l), Not(r))
  }

  function Transform(e: Expr): (r: Expr)
    ensures Weight(r) <= Weight(e)
    decreases Weight(e)
  {
    match e
    case Symbol(_) => e
    case Equal(_, _) => TransformCompare(e)
    case Unequal(_, _) => TransformCompare(e)
    case Bin(op, l, r) => Bin(op, Transform(l), Transform(r))
    case Not(a) =>
      match Transform(a)
      case Not(b) => Transform(b)
      case Equal(l, r) => Unequal(l, r)
      case Unequal(l, r) => Equal(l, r)
      case Bin(op, l, r) => Transform(Negated(op, l, r))
      case Symbol(YesSym) => Symbol(NoSym)
      case Symbol(ModSym) => Symbol(ModSym)
      case Symbol(NoSym) => Symbol(YesSym)
      case Symbol(s) => Not(Symbol(s))
  }

  /** Negations only over symbols other than y, m, n; no boolean symbol compared with y, m or n. */
  predicate Nnf(e: Expr) {
    match e
    case Symbol(_) => true
    case Not(a) => a.Symbol? && !a.sym.IsBuiltin()
    case Bin(_, l, r) => Nnf(l) && Nnf(r)
    case Equal(l, r) => !(l.Type() == Boolean && r.IsBuiltin())
    case Unequal(l, r) => !(l.Type() == Boolean && r.IsBuiltin())
  }

  lemma DeMorgan(op: Op, a: Tri, b: Tri)
    ensures TriNot(op.Apply(a, b)) == op.Dual().Apply(TriNot(a), TriNot(b))
  {
  }

  /** The transformation keeps the value in the full three-valued logic. */
  lemma {:induction false} TransformExact(e: Expr, v: Valuation)
    ensures Eval(Transform(e), v) == Eval(e, v)
    decreases Weight(e)
  {
    match e
    case Symbol(_) =>
    case Equal(l, r) => if l.Type() == Boolean { BuiltinCompare(l, v); }
    case Unequal(l, r) => if l.Type() == Boolean { BuiltinCompare(l, v); }
    case Bin(op, l, r) => TransformExact(l, v); TransformExact(r, v);
    case Not(a) =>
      TransformExact(a, v);
      match Transform(a) {
        case Not(b) => TransformExact(b, v);
        case Bin(op, l, r) =>
          TransformExact(Negated(op, l, r), v);
          DeMorgan(op, Eval(l, v), Eval(r, v));
        case _ =>
      }
  }

  /** It reaches negation normal form. */
  lemma {:induction false} TransformNnf(e: Expr)
    ensures Nnf(Transform(e))
    decreases Weight(e)
  {
    match e
    case Bin(op, l, r) => TransformNnf(l); TransformNnf(r);
    case Not(a) =>
      TransformNnf(a);
      match Transform(a) {
        case Not(b) => TransformNnf(b);
        case Bin(op, l, r) => TransformNnf(Negated(op, l, r));
        case _ =>
      }
    case _ =>
  }

  /** Expressions in normal form are exactly the ones it leaves alone; in particular it is idempotent. */
  lemma {:induction false} TransformFixpoint(e: Expr)
    ensures Transform(e) == e <==> Nnf(e)
  {
    TransformNnf(e);
    if Nnf(e) {
      NnfFixed(e);
    }
  }

  lemma {:induction false} NnfFixed(e: Expr)
    requires Nnf(e)
    ensures Transform(e) == e
  {
    if e.Bin? {
      NnfFixed(e.left);
      NnfFixed(e.right);
    }
  }

  lemma TransformIdempotent(e: Expr)
    ensures Transform(Transform(e)) == Transform(e)
  {
    TransformNnf(e);
    NnfFixed(Transform(e));
  }

  /** The transformation puts no m where there was none. */
  lemma {:induction false} TransformNoBareMod(e: Expr)
    requires NoBareMod(e)
    ensures NoBareMod(Transform(e))
    decreases Weight(e)
  {
    match e
    case Bin(op, l, r) => TransformNoBareMod(l); TransformNoBareMod(r);
    case Not(a) =>
      TransformNoBareMod(a);
      match Transform(a) {
        case Not(b) => TransformNoBareMod(b);
        case Bin(op, l, r) => TransformNoBareMod(Negated(op, l, r));
        case _ =>
      }
    case _ =>
  }

  // ---------- the normal form itself ----------

  /** The expression, or its negation, with negations pushed down to the operands in a single descent. */
  function Pushed(e: Expr, negate: bool): Expr {
    match e
    case Not(a) => Pushed(a, !negate)
    case Bin(OpAnd, l, r) => Bin(if negate then OpOr else OpAnd, Pushed(l, negate), Pushed(r, negate))
    case Bin(OpOr, l, r) => Bin(if negate then OpAnd else OpOr, Pushed(l, negate), Pushed(r, negate))
    case Symbol(s) =>
      if !negate || s == ModSym then e
      else if s == YesSym then Symbol(NoSym)
      else if s == NoSym then Symbol(YesSym)
      else Not(e)
    case Equal(l, r) => PushedComparison(l, r, !negate)
    case Unequal(l, r) => PushedComparison(l, r, negate)
  }

  /** l=r, or l!=r if not `equal`. */
  function PushedComparison(l: Sym, r: Sym, equal: bool): Expr {
    if l.Type() == Boolean && r == ModSym then Symbol(if equal then NoSym else YesSym)
    else if l.Type() == Boolean && r.IsBuiltin() then
      if equal == (r == YesSym) then Symbol(l) else Not(Symbol(l))
    else if equal then Equal(l, r) else Unequal(l, r)
  }

  /** Pushing twice combines the two. */
  lemma {:induction false} PushedTwice(e: Expr, negate: bool, again: bool)
    ensures Pushed(Pushed(e, negate), again) == Pushed(e, negate != again)
  {
    match e
    case Not(a) => PushedTwice(a, !negate, again);
    case Bin(op, l, r) =>
      PushedTwice(l, negate, again);
      PushedTwice(r, negate, again);
    case _ =>
  }

  /** The rewriting computes that form. */
  lemma {:induction false} TransformPushed(e: Expr)
    ensures Transform(e) == Pushed(e, false)
    decreases Weight(e)
  {
    match e
    case Bin(op, l, r) =>
      TransformPushed(l);
      TransformPushed(r);
    case Not(a) =>
      var t := Transform(a);
      TransformPushed(a);
      PushedTwice(a, false, true);
      assert Pushed(e, false) == Pushed(t, true);
      match t {
        case Not(b) => TransformPushed(b);
        case Bin(op, l, r) =>
          TransformPushed(Negated(op, l, r));
        case Equal(l, r) => TransformNnf(a);
        case Unequal(l, r) => TransformNnf(a);
        case Symbol(s) =>
      }
    case _ =>
  }
}
