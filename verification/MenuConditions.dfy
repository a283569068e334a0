/** What inheritance makes of the conditions themselves. */
module MenuConditions {
  import opened Options
  import opened Tristate
  import opened Expressions
  import opened Equality
  import opened NormalForm
  import opened Reflexive
  import opened Reduced
  import opened Comparisons
  import opened Configuration
  import opened MenuInfo

  predicate OptNoQuoted(e: Option<Expr>) {
    e.Some? ==> NoQuoted(e.value)
  }

  lemma {:induction false} PushedNoQuoted(e: Expr, negate: bool)
    requires NoQuoted(e)
    ensures NoQuoted(Pushed(e, negate))
  {
    match e
    case Not(a) => PushedNoQuoted(a, !negate);
    case Bin(_, l, r) =>
      PushedNoQuoted(l, negate);
      PushedNoQuoted(r, negate);
    case _ =>
  }

  /**
   * An inherited condition is y or n, or it has no duplicate, joinable or contradicted operand at any depth, unless
   * y or n is an operand.
   */
  lemma InheritIrredundant(inherited: Option<Expr>, own: Option<Expr>)
    requires OptNnf(inherited) && OptNoQuoted(inherited) && OptNoQuoted(own)
    ensures var r := Inherit(inherited, own);
            r.Some? ==> IsYn(r.value) || Irredundant(r.value) || HasYnOperand(r.value)
  {
    if own.Some? {
      TransformNnf(own.value);
      TransformPushed(own.value);
      PushedNoQuoted(own.value, false);
    }
    var c := AllocAnd(inherited, TransformOpt(own));
    if c.Some? {
      EliminateDupsIrredundant(c.value);
    }
  }

  /**
   * The condition of a property is what it inherits; but where its symbol is no tristate, a y that is not firm becomes
   * m. `d` is the conjunction of the entry's new condition and the property's own.
   */
  lemma PropagatedConditions(inherited: Option<Expr>, i: Info, k: nat, d: Option<Expr>, v: Valuation)
    requires OptNnf(inherited) && k < |i.props| && d == Inherit(Propagated(inherited, i).dep, i.props[k].visible)
    ensures var r := Propagated(inherited, i);
            EvalOpt(r.props[k].visible, v) ==
            if i.sym.Some? && i.sym.value.Type() != SymType.Tristate && d.Some? && Eval(d.value, v) == YES
               && !FirmlyTrue(d.value, v) then MOD else EvalOpt(d, v)
  {
    PropagatedNnf(inherited, i);
    if d.Some? {
      TransBoolExact(d.value, v);
    }
  }
}
