/** When expr_eq recognises an expression as equal to itself, which constants as operands make a question. */
module Reflexive {
  import opened Tristate
  import opened Expressions
  import opened Equality
  import opened NormalForm
  import opened Slots

  /** What is left of e once y and n are dropped, if it is the constant that decides an `op` tree, or the unit. */
  predicate Decides(op: Op, e: Expr) {
    EliminateYn(e) == UnitExpr(op.Dual())
  }

  predicate Vanishes(op: Op, e: Expr) {
    EliminateYn(e) == UnitExpr(op)
  }

  lemma TreeYn(op: Op, l: Expr, r: Expr)
    ensures Decides(op, Bin(op, l, r)) <==> Decides(op, l) || Decides(op, r)
    ensures Vanishes(op, Bin(op, l, r)) <==> Vanishes(op, l) && Vanishes(op, r)
    ensures !Decides(op, Bin(op, l, r)) ==>
              (EliminateYn(Bin(op, l, r)).Symbol? <==>
                 || (Vanishes(op, l) && EliminateYn(r).Symbol?) || (Vanishes(op, r) && EliminateYn(l).Symbol?))
  {
  }

  // ---------- recognised equality and the dropping of y and n ----------

  /** How one pass affects whether the two sides decide or vanish. */
  ghost predicate Traced(op: Op, a: Expr, b: Expr, d: (Expr, Expr)) {
    && (Decides(op, a) ==> Decides(op, d.0) || Decides(op, b))
    && (Decides(op, b) ==> Decides(op, d.1) || Decides(op, a))
    && (Decides(op, d.0) ==> Decides(op, a)) && (Decides(op, d.1) ==> Decides(op, b))
    && (Vanishes(op, a) ==> Vanishes(op, d.0)) && (Vanishes(op, b) ==> Vanishes(op, d.1))
    && (Vanishes(op, a) && Vanishes(op, d.1) ==> Vanishes(op, b))
    && (Vanishes(op, b) && Vanishes(op, d.0) ==> Vanishes(op, a))
  }

  lemma TracedCompose(op: Op, l: Expr, r: Expr, b: Expr, d1: (Expr, Expr), d2: (Expr, Expr))
    requires Traced(op, l, b, d1) && Traced(op, r, d1.1, d2)
    ensures Traced(op, Bin(op, l, r), b, (Bin(op, d1.0, d2.0), d2.1))
  {
    TreeYn(op, l, r);
    TreeYn(op, d1.0, d2.0);
  }

  lemma TracedSwap(op: Op, a: Expr, b: Expr, d: (Expr, Expr))
    requires Traced(op, a, b, d)
    ensures Traced(op, b, a, (d.1, d.0))
  {
  }

  lemma {:induction false} TermsTraced(op: Op, a: Expr, b: Expr)
    ensures Traced(op, a, b, EliminateTerms(op, a, b))
    decreases Size(a) + Size(b), if IsOp(op, a) || IsOp(op, b) then 1 else 4
  {
    if IsOp(op, a) {
      var d1 := EliminateTerms(op, a.left, b);
      TermsTraced(op, a.left, b);
      TermsTraced(op, a.right, d1.1);
      TracedCompose(op, a.left, a.right, b, d1, EliminateTerms(op, a.right, d1.1));
    } else if IsOp(op, b) {
      var d1 := EliminateTerms(op, a, b.left);
      var d2 := EliminateTerms(op, d1.0, b.right);
      TermsTraced(op, a, b.left);
      TermsTraced(op, d1.0, b.right);
      TracedSwap(op, a, b.left, d1);
      TracedSwap(op, d1.0, b.right, d2);
      TracedCompose(op, b.left, b.right, a, (d1.1, d1.0), (d2.1, d2.0));
      TracedSwap(op, b, a, (Bin(op, d1.1, d2.1), d2.0));
    } else if ExprEq(a, b) {
      EqualYn(a, b);
      assert UnitExpr(op) != UnitExpr(op.Dual());
    }
  }

  /** If one of two expressions recognised as equal comes down to y or n, so does the other. */
  lemma {:induction false} EqualYn(a: Expr, b: Expr)
    requires ExprEq(a, b)
    ensures IsYn(EliminateYn(a)) || IsYn(EliminateYn(b)) ==> EliminateYn(a) == EliminateYn(b)
    decreases Size(a) + Size(b), 3
  {
    if a.Bin? {
      TermsTraced(a.op, a, b);
      OnePass(a, b);
    }
  }

  /** The two of one connective are cancelled in one pass. */
  lemma OnePass(a: Expr, b: Expr)
    requires a.Bin? && b.Bin? && a.op == b.op
    ensures var d := EliminateTerms(a.op, a, b);
            ExprEq(a, b) <==> EliminateYn(d.0).Symbol? && EliminateYn(d.1) == EliminateYn(d.0)
  {
    var d := EliminateTerms(a.op, a, b);
    TermsTree(a.op, a, b);
  }

  lemma {:induction false} TermsTree(op: Op, a: Expr, b: Expr)
    ensures var d := EliminateTerms(op, a, b); (IsOp(op, a) <==> IsOp(op, d.0)) && (IsOp(op, b) <==> IsOp(op, d.1))
    decreases Size(a) + Size(b)
  {
    if IsOp(op, a) {
      var d1 := EliminateTerms(op, a.left, b);
      TermsTree(op, a.left, b);
      TermsTree(op, a.right, d1.1);
    } else if IsOp(op, b) {
      var d1 := EliminateTerms(op, a, b.left);
      TermsTree(op, a, b.left);
      TermsTree(op, d1.0, b.right);
    }
  }

  // ---------- operands ----------

  /** The operands y, n and quoted constants are never taken out. */
  predicate Flagged(e: Expr) {
    e.Symbol? && e.sym.HasYesNoFlag()
  }

  /** Operands that vanish anyway, those that are taken out against themselves, and those that are not. */
  predicate Soft(op: Op, e: Expr) {
    !Flagged(e) && Vanishes(op, e)
  }

  predicate Solid(op: Op, e: Expr) {
    !Flagged(e) && !Vanishes(op, e) && ExprEq(e, e)
  }

  predicate Hard(op: Op, e: Expr) {
    !Flagged(e) && !Vanishes(op, e) && !ExprEq(e, e)
  }

  function Operands(op: Op, e: Expr): set<Expr> {
    if IsOp(op, e) then Operands(op, e.left) + Operands(op, e.right) else {e}
  }

  /** The operands of e that stay when e is compared with itself: the others are replaced by the unit. */
  function Residue(op: Op, e: Expr): Expr {
    if IsOp(op, e) then Bin(op, Residue(op, e.left), Residue(op, e.right))
    else if Flagged(e) || !ExprEq(e, e) then e
    else UnitExpr(op)
  }

  /** The tree with its solid operands replaced by the unit. */
  function Cleared(op: Op, e: Expr): Expr {
    if IsOp(op, e) then Bin(op, Cleared(op, e.left), Cleared(op, e.right))
    else if Solid(op, e) then UnitExpr(op)
    else e
  }

  lemma {:induction false} ClearedResidue(op: Op, e: Expr)
    ensures EliminateYn(Cleared(op, e)) == EliminateYn(Residue(op, e))
  {
    if IsOp(op, e) {
      ClearedResidue(op, e.left);
      ClearedResidue(op, e.right);
    }
  }

  /** u is t except that soft operands may have been replaced by the unit. */
  predicate Near(op: Op, t: Expr, u: Expr) {
    if IsOp(op, t) then IsOp(op, u) && Near(op, t.left, u.left) && Near(op, t.right, u.right)
    else u == t || (Soft(op, t) && u == UnitExpr(op))
  }

  lemma {:induction false} NearRefl(op: Op, t: Expr)
    ensures Near(op, t, t)
  {
    if IsOp(op, t) {
      NearRefl(op, t.left);
      NearRefl(op, t.right);
    }
  }

  lemma {:induction false} NearYn(op: Op, t: Expr, u: Expr)
    requires Near(op, t, u)
    ensures EliminateYn(u) == EliminateYn(t)
  {
    if IsOp(op, t) {
      NearYn(op, t.left, u.left);
      NearYn(op, t.right, u.right);
    }
  }

  /** The hard operands among S are equal to none of S. */
  ghost predicate Isolated(op: Op, S: set<Expr>) {
    forall h, z {:trigger ExprEq(h, z)} {:trigger ExprEq(z, h)} ::
      h in S && z in S && Hard(op, h) ==> !ExprEq(h, z) && !ExprEq(z, h)
  }

  // ---------- one operand against a tree ----------

  /** A unit is never taken out. */
  lemma {:induction false} UnitStays(op: Op, t: Expr)
    ensures EliminateTerms(op, UnitExpr(op), t) == (UnitExpr(op), t)
  {
    if IsOp(op, t) {
      UnitStays(op, t.left);
      UnitStays(op, t.right);
    } else {
      ExprEqSymbol(UnitExpr(op), t);
    }
  }

  /** Two operands of which the first is not solid. */
  lemma OperandPair(op: Op, S: set<Expr>, x: Expr, z: Expr)
    requires Isolated(op, S) && x in S && z in S && !IsOp(op, x) && !IsOp(op, z)
    requires !Solid(op, x) || !Solid(op, z)
    ensures EliminateTerms(op, x, z) == (x, z) ||
            (Soft(op, x) && Soft(op, z) && EliminateTerms(op, x, z) == (UnitExpr(op), UnitExpr(op)))
  {
    if x.Symbol? || z.Symbol? {
      ExprEqSymbol(x, z);
    }
    if ExprEq(x, z) && !Flagged(x) && !Flagged(z) {
      EqualYn(x, z);
      assert !Hard(op, x) && !Hard(op, z);
    }
  }

  /** A unit in place of a soft operand of the tree. */
  lemma OperandUnit(op: Op, x: Expr)
    requires !IsOp(op, x)
    ensures EliminateTerms(op, x, UnitExpr(op)) == (x, UnitExpr(op))
  {
    ExprEqSymbol(x, UnitExpr(op));
  }

  /** An operand that is not solid, or the unit in its place, against a tree. */
  lemma {:induction false} LooseScan(op: Op, S: set<Expr>, x: Expr, y: Expr, t: Expr, u: Expr)
    requires Isolated(op, S) && x in S && !IsOp(op, x) && !Solid(op, x) && Near(op, x, y)
    requires Operands(op, t) <= S && Near(op, t, u)
    ensures Near(op, x, EliminateTerms(op, y, u).0) && Near(op, t, EliminateTerms(op, y, u).1)
    decreases t
  {
    if y == UnitExpr(op) {
      UnitStays(op, u);
    } else if IsOp(op, t) {
      LooseScan(op, S, x, y, t.left, u.left);
      LooseScan(op, S, x, EliminateTerms(op, y, u.left).0, t.right, u.right);
    } else if u == UnitExpr(op) {
      OperandUnit(op, y);
    } else {
      OperandPair(op, S, x, t);
    }
  }

  /** A solid operand against a tree without solid operands. */
  lemma {:induction false} SolidPasses(op: Op, S: set<Expr>, x: Expr, t: Expr, u: Expr)
    requires Isolated(op, S) && x in S && !IsOp(op, x) && Solid(op, x)
    requires Operands(op, t) <= S && Near(op, Cleared(op, t), u)
    ensures EliminateTerms(op, x, u) == (x, u)
    decreases t
  {
    if IsOp(op, t) {
      SolidPasses(op, S, x, t.left, u.left);
      SolidPasses(op, S, x, t.right, u.right);
    } else if u == UnitExpr(op) {
      OperandUnit(op, x);
    } else {
      OperandPair(op, S, x, t);
    }
  }

  // ---------- a tree against itself ----------

  /** The tree with the solid operands in front of the slot p replaced by the unit. */
  function ClearedBefore(op: Op, e: Expr, p: Path): Expr
    requires InTree(op, e, p)
  {
    if p == [] then e
    else if p[0] then Bin(op, Cleared(op, e.left), ClearedBefore(op, e.right, p[1..]))
    else Bin(op, ClearedBefore(op, e.left, p[1..]), e.right)
  }

  /** The same including those in the slot. */
  function ClearedThrough(op: Op, e: Expr, p: Path): Expr
    requires InTree(op, e, p)
  {
    if p == [] then Cleared(op, e)
    else if p[0] then Bin(op, Cleared(op, e.left), ClearedThrough(op, e.right, p[1..]))
    else Bin(op, ClearedThrough(op, e.left, p[1..]), e.right)
  }

  lemma {:induction false} ClearedSteps(op: Op, e: Expr, p: Path)
    requires InTree(op, e, p) && IsOp(op, At(op, e, p))
    ensures InTree(op, e, p + [false]) && InTree(op, e, p + [true])
    ensures ClearedBefore(op, e, p + [false]) == ClearedBefore(op, e, p)
    ensures ClearedThrough(op, e, p + [false]) == ClearedBefore(op, e, p + [true])
    ensures ClearedThrough(op, e, p + [true]) == ClearedThrough(op, e, p)
  {
    Descend(op, e, p, false);
    Descend(op, e, p, true);
    if p != [] {
      ClearedSteps(op, Child(e, p[0]), p[1..]);
      assert (p + [false])[1..] == p[1..] + [false] && (p + [true])[1..] == p[1..] + [true];
    }
  }

  /** An operand that is not solid makes no difference. */
  lemma {:induction false} ClearedLoose(op: Op, e: Expr, p: Path)
    requires InTree(op, e, p) && !IsOp(op, At(op, e, p)) && !Solid(op, At(op, e, p))
    ensures ClearedThrough(op, e, p) == ClearedBefore(op, e, p)
  {
    if p != [] {
      ClearedLoose(op, Child(e, p[0]), p[1..]);
    }
  }

  lemma {:induction false} ClearedOperands(op: Op, e: Expr, p: Path, S: set<Expr>)
    requires InTree(op, e, p) && Operands(op, e) <= S
    ensures Operands(op, At(op, e, p)) <= S
    ensures Operands(op, ClearedBefore(op, e, p)) <= S + {UnitExpr(op)}
  {
    if p != [] {
      ClearedOperands(op, Child(e, p[0]), p[1..], S);
      AllClearedOperands(op, e.left, S);
    }
  }

  lemma {:induction false} AllClearedOperands(op: Op, e: Expr, S: set<Expr>)
    requires Operands(op, e) <= S
    ensures Operands(op, Cleared(op, e)) <= S + {UnitExpr(op)}
  {
    if IsOp(op, e) {
      AllClearedOperands(op, e.left, S);
      AllClearedOperands(op, e.right, S);
    }
  }

  lemma IsolatedUnit(op: Op, S: set<Expr>)
    requires Isolated(op, S)
    ensures Isolated(op, S + {UnitExpr(op)})
  {
    var u := UnitExpr(op);
    forall h, z | h in S + {u} && z in S + {u} && Hard(op, h) ensures !ExprEq(h, z) && !ExprEq(z, h) {
      if z == u {
        ExprEqSymbol(h, u);
        ExprEqSymbol(u, h);
      }
    }
  }

  /** The solid operand at p is taken out against itself. */
  lemma {:induction false} SolidScan(op: Op, S: set<Expr>, e: Expr, p: Path, u: Expr)
    requires Isolated(op, S) && InTree(op, e, p) && Operands(op, e) <= S
    requires !IsOp(op, At(op, e, p)) && Solid(op, At(op, e, p)) && Near(op, ClearedBefore(op, e, p), u)
    ensures var d := EliminateTerms(op, At(op, e, p), u);
            d.0 == UnitExpr(op) && Near(op, ClearedThrough(op, e, p), d.1)
  {
    var x := At(op, e, p);
    if p != [] {
      ClearedOperands(op, e, p, S);
      if p[0] {
        SolidPasses(op, S, x, e.left, u.left);
        SolidScan(op, S, e.right, p[1..], u.right);
      } else {
        SolidScan(op, S, e.left, p[1..], u.left);
        UnitStays(op, u.right);
      }
    }
  }

  /** The operands below p against the tree, after those in front of p. */
  lemma {:induction false} Sweep(op: Op, S: set<Expr>, e: Expr, p: Path, u: Expr)
    requires Isolated(op, S) && InTree(op, e, p) && Operands(op, e) <= S && Near(op, ClearedBefore(op, e, p), u)
    ensures var d := EliminateTerms(op, At(op, e, p), u);
            Near(op, Cleared(op, At(op, e, p)), d.0) && Near(op, ClearedThrough(op, e, p), d.1)
    decreases At(op, e, p)
  {
    var t := At(op, e, p);
    if IsOp(op, t) {
      Descend(op, e, p, false);
      Descend(op, e, p, true);
      ClearedSteps(op, e, p);
      Sweep(op, S, e, p + [false], u);
      Sweep(op, S, e, p + [true], EliminateTerms(op, t.left, u).1);
    } else {
      ClearedOperands(op, e, p, S);
      if Solid(op, t) {
        SolidScan(op, S, e, p, u);
      } else {
        IsolatedUnit(op, S);
        ClearedLoose(op, e, p);
        LooseScan(op, S + {UnitExpr(op)}, t, t, ClearedBefore(op, e, p), u);
      }
    }
  }

  /** Compared with itself, a tree whose hard operands are equal to none keeps its residue on both sides. */
  lemma SelfCompared(e: Expr)
    requires e.Bin? && Isolated(e.op, Operands(e.op, e))
    ensures ExprEq(e, e) <==> EliminateYn(Residue(e.op, e)).Symbol?
  {
    var op, p: Path := e.op, [];
    NearRefl(op, e);
    Sweep(op, Operands(op, e), e, p, e);
    var d := EliminateTerms(op, e, e);
    NearYn(op, Cleared(op, e), d.0);
    NearYn(op, Cleared(op, e), d.1);
    ClearedResidue(op, e);
    OnePass(e, e);
  }

  // ---------- if the residue is a symbol ----------

  /** The constant that decides an `op` tree is among its operands. */
  predicate HasDecider(op: Op, e: Expr) {
    if IsOp(op, e) then HasDecider(op, e.left) || HasDecider(op, e.right) else e == UnitExpr(op.Dual())
  }

  lemma {:induction false} DeciderDecides(op: Op, e: Expr)
    requires HasDecider(op, e)
    ensures Decides(op, e)
  {
    if IsOp(op, e) {
      if HasDecider(op, e.left) { DeciderDecides(op, e.left); } else { DeciderDecides(op, e.right); }
    }
  }

  lemma {:induction false} DeciderStays(op: Op, a: Expr, b: Expr)
    ensures HasDecider(op, a) ==> HasDecider(op, EliminateTerms(op, a, b).0)
    ensures HasDecider(op, b) ==> HasDecider(op, EliminateTerms(op, a, b).1)
    decreases Size(a) + Size(b)
  {
    if IsOp(op, a) {
      DeciderStays(op, a.left, b);
      DeciderStays(op, a.right, EliminateTerms(op, a.left, b).1);
    } else if IsOp(op, b) {
      DeciderStays(op, a, b.left);
      DeciderStays(op, EliminateTerms(op, a, b.left).0, b.right);
    } else if a.Symbol? || b.Symbol? {
      ExprEqSymbol(a, b);
    }
  }

  /** What a tree comes down to, if it is not decided, its residue comes down to or to the unit. */
  lemma {:induction false} ResidueYn(op: Op, e: Expr)
    requires !Decides(op, e)
    ensures Vanishes(op, e) ==> Vanishes(op, Residue(op, e))
    ensures EliminateYn(e).Symbol? ==> EliminateYn(Residue(op, e)).Symbol? && !Decides(op, Residue(op, e))
  {
    if IsOp(op, e) {
      TreeYn(op, e.left, e.right);
      TreeYn(op, Residue(op, e.left), Residue(op, e.right));
      ResidueYn(op, e.left);
      ResidueYn(op, e.right);
    }
  }

  /** An expression whose residue comes down to a symbol is recognised as equal to itself. */
  lemma {:induction false} ResidueSymbol(e: Expr)
    requires e.Bin? && EliminateYn(Residue(e.op, e)).Symbol?
    ensures ExprEq(e, e)
    decreases Size(e), 2
  {
    var op := e.op;
    if Decides(op, Residue(op, e)) {
      ResidueDecides(op, e);
      DeciderStays(op, e, e);
      DeciderDecides(op, EliminateTerms(op, e, e).0);
      DeciderDecides(op, EliminateTerms(op, e, e).1);
      OnePass(e, e);
    } else {
      NoneHard(op, e);
      SelfCompared(e);
    }
  }

  /** An operand that comes down to a symbol, but is not decided itself, is recognised as equal to itself. */
  lemma {:induction false} OperandSymbol(o: Expr)
    requires EliminateYn(o).Symbol? && (o.Bin? ==> !Decides(o.op, o))
    ensures ExprEq(o, o)
    decreases Size(o), 3
  {
    if o.Bin? {
      ResidueYn(o.op, o);
      ResidueSymbol(o);
    }
  }

  /** If a residue is decided, then by an operand that is the deciding constant. */
  lemma {:induction false} ResidueDecides(op: Op, e: Expr)
    requires Decides(op, Residue(op, e))
    ensures HasDecider(op, e)
    decreases Size(e), if IsOp(op, e) then 1 else 4
  {
    if IsOp(op, e) {
      TreeYn(op, Residue(op, e.left), Residue(op, e.right));
      if Decides(op, Residue(op, e.left)) { ResidueDecides(op, e.left); } else { ResidueDecides(op, e.right); }
    } else if !Flagged(e) && !ExprEq(e, e) {
      OperandSymbol(e);
    }
  }

  /** If it comes down to another symbol, no operand is hard. */
  lemma {:induction false} NoneHard(op: Op, e: Expr)
    requires EliminateYn(Residue(op, e)).Symbol? && !Decides(op, Residue(op, e))
    ensures forall h :: h in Operands(op, e) ==> !Hard(op, h)
    decreases Size(e), if IsOp(op, e) then 1 else 4
  {
    if IsOp(op, e) {
      TreeYn(op, Residue(op, e.left), Residue(op, e.right));
      NoneHard(op, e.left);
      NoneHard(op, e.right);
    } else if Hard(op, e) {
      OperandSymbol(e);
    }
  }

  /** No quoted constant occurs as an operand of its own. */
  predicate NoQuoted(e: Expr) {
    match e
    case Symbol(s) => !s.ConstSym?
    case Not(a) => NoQuoted(a)
    case Bin(_, l, r) => NoQuoted(l) && NoQuoted(r)
    case _ => true
  }

  /** Every expression without quoted constants is recognised as equal to itself, with y, m and n anywhere. */
  lemma {:induction false} NoQuotedReflexive(e: Expr)
    requires NoQuoted(e)
    ensures ExprEq(e, e)
    decreases Size(e), 3
  {
    match e
    case Not(a) => NoQuotedReflexive(a);
    case Bin(op, _, _) =>
      NoQuotedResidue(op, e);
      ResidueSymbol(e);
    case _ =>
  }

  lemma {:induction false} NoQuotedResidue(op: Op, e: Expr)
    requires NoQuoted(e)
    ensures IsYn(EliminateYn(Residue(op, e)))
    decreases Size(e), if IsOp(op, e) then 1 else 4
  {
    if IsOp(op, e) {
      NoQuotedResidue(op, e.left);
      NoQuotedResidue(op, e.right);
    } else {
      NoQuotedReflexive(e);
    }
  }

  // ---------- the exact condition ----------

  /** What is negated is recognised as equal to itself. */
  predicate PlainNegations(e: Expr) {
    match e
    case Not(a) => ExprEq(a, a)
    case Bin(_, l, r) => PlainNegations(l) && PlainNegations(r)
    case _ => true
  }

  /** a' is a with some operands replaced by the unit that vanish or are recognised as equal to themselves. */
  predicate Thinned(op: Op, a: Expr, a': Expr) {
    if IsOp(op, a) then IsOp(op, a') && Thinned(op, a.left, a'.left) && Thinned(op, a.right, a'.right)
    else a' == a || (a' == UnitExpr(op) && !Flagged(a) && (Vanishes(op, a) || ExprEq(a, a)))
  }

  lemma {:induction false} ThinnedTrans(op: Op, a: Expr, b: Expr, c: Expr)
    requires Thinned(op, a, b) && Thinned(op, b, c)
    ensures Thinned(op, a, c)
  {
    if IsOp(op, a) {
      ThinnedTrans(op, a.left, b.left, c.left);
      ThinnedTrans(op, a.right, b.right, c.right);
    }
  }

  lemma {:induction false} ThinnedPlain(op: Op, a: Expr, b: Expr)
    requires Thinned(op, a, b) && PlainNegations(a)
    ensures PlainNegations(b)
  {
    if IsOp(op, a) {
      ThinnedPlain(op, a.left, b.left);
      ThinnedPlain(op, a.right, b.right);
    }
  }

  /** If a thinned tree comes down to a symbol without being decided, so does the residue. */
  lemma {:induction false} ThinnedResidue(op: Op, a: Expr, a': Expr)
    requires Thinned(op, a, a') && !Decides(op, a')
    ensures Vanishes(op, a') ==> Vanishes(op, Residue(op, a))
    ensures EliminateYn(a').Symbol? ==> EliminateYn(Residue(op, a)).Symbol? && !Decides(op, Residue(op, a))
  {
    if IsOp(op, a) {
      TreeYn(op, a'.left, a'.right);
      TreeYn(op, Residue(op, a.left), Residue(op, a.right));
      ThinnedResidue(op, a.left, a'.left);
      ThinnedResidue(op, a.right, a'.right);
    }
  }

  /** Whatever is recognised as equal to anything is so to itself, unless dropping y and n decides it. */
  lemma {:induction false} EqualSomething(a: Expr, b: Expr)
    requires PlainNegations(a) && (ExprEq(a, b) || ExprEq(b, a))
    ensures ExprEq(a, a) || (a.Bin? && Decides(a.op, a))
    decreases Size(a) + Size(b), 3
  {
    match a
    case Not(x) => assert ExprEq(x, x);
    case Bin(op, _, _) =>
      if ExprEq(a, b) {
        OnePass(a, b);
        TermsThin(op, a, b);
        TermsTraced(op, a, b);
        ThinnedSymbol(a, EliminateTerms(op, a, b).0);
      } else {
        OnePass(b, a);
        TermsThin(op, b, a);
        TermsTraced(op, b, a);
        ThinnedSymbol(a, EliminateTerms(op, b, a).1);
      }
    case _ =>
  }

  lemma ThinnedSymbol(a: Expr, a': Expr)
    requires a.Bin? && Thinned(a.op, a, a') && EliminateYn(a').Symbol? && (Decides(a.op, a') ==> Decides(a.op, a))
    ensures ExprEq(a, a) || Decides(a.op, a)
  {
    if !Decides(a.op, a') {
      ThinnedResidue(a.op, a, a');
      ResidueSymbol(a);
    }
  }

  /** A pass thins both sides. */
  lemma {:induction false} TermsThin(op: Op, a: Expr, b: Expr)
    ensures PlainNegations(a) ==> Thinned(op, a, EliminateTerms(op, a, b).0)
    ensures PlainNegations(b) ==> Thinned(op, b, EliminateTerms(op, a, b).1)
    decreases Size(a) + Size(b), if IsOp(op, a) || IsOp(op, b) then 1 else 4
  {
    if IsOp(op, a) {
      var d1 := EliminateTerms(op, a.left, b);
      TermsThin(op, a.left, b);
      TermsThin(op, a.right, d1.1);
      if PlainNegations(b) {
        ThinnedPlain(op, b, d1.1);
        ThinnedTrans(op, b, d1.1, EliminateTerms(op, a.right, d1.1).1);
      }
    } else if IsOp(op, b) {
      var d1 := EliminateTerms(op, a, b.left);
      TermsThin(op, a, b.left);
      TermsThin(op, d1.0, b.right);
      if PlainNegations(a) {
        ThinnedPlain(op, a, d1.0);
        ThinnedTrans(op, a, d1.0, EliminateTerms(op, d1.0, b.right).0);
      }
    } else if ExprEq(a, b) {
      if PlainNegations(a) { EqualSomething(a, b); }
      if PlainNegations(b) { EqualSomething(b, a); }
    }
  }

  lemma {:induction false} PlainOperands(op: Op, e: Expr)
    requires PlainNegations(e)
    ensures forall h :: h in Operands(op, e) ==> PlainNegations(h) && !IsOp(op, h)
  {
    if IsOp(op, e) {
      PlainOperands(op, e.left);
      PlainOperands(op, e.right);
    }
  }

  /** An AND or OR is recognised as equal to itself if and only if its residue comes down to a symbol. */
  lemma ReflexiveExact(e: Expr)
    requires e.Bin? && PlainNegations(e)
    ensures ExprEq(e, e) <==> EliminateYn(Residue(e.op, e)).Symbol?
  {
    var op := e.op;
    PlainOperands(op, e);
    forall h, z | h in Operands(op, e) && z in Operands(op, e) && Hard(op, h) ensures !ExprEq(h, z) && !ExprEq(z, h) {
      if ExprEq(h, z) || ExprEq(z, h) {
        EqualSomething(h, z);
      }
    }
    SelfCompared(e);
  }

  /** In negation normal form that is always so. */
  lemma {:induction false} NnfPlain(e: Expr)
    requires Nnf(e)
    ensures PlainNegations(e)
  {
    if e.Bin? {
      NnfPlain(e.left);
      NnfPlain(e.right);
    }
  }

  // ---------- what goes wrong ----------

  /** The tree x && y of two operands that are never taken out. */
  lemma FlaggedPair(op: Op, x: Expr, y: Expr)
    requires Flagged(x) && Flagged(y)
    ensures EliminateTerms(op, Bin(op, x, y), Bin(op, x, y)) == (Bin(op, x, y), Bin(op, x, y))
  {
    var e := Bin(op, x, y);
    FlaggedStays(op, x, e);
    FlaggedStays(op, y, e);
  }

  lemma {:induction false} FlaggedStays(op: Op, x: Expr, t: Expr)
    requires Flagged(x)
    ensures EliminateTerms(op, x, t) == (x, t)
  {
    if IsOp(op, t) {
      FlaggedStays(op, x, t.left);
      FlaggedStays(op, x, t.right);
    } else {
      ExprEqSymbol(x, t);
    }
  }

  /** A conjunction of two quoted constants is not recognised as equal to itself. */
  lemma QuotedNotReflexive(f: ConstText, g: ConstText)
    ensures var e := Bin(OpAnd, Symbol(ConstSym(f)), Symbol(ConstSym(g))); !ExprEq(e, e)
  {
    var x, y := Symbol(ConstSym(f)), Symbol(ConstSym(g));
    FlaggedPair(OpAnd, x, y);
    OnePass(Bin(OpAnd, x, y), Bin(OpAnd, x, y));
    assert EliminateYn(Bin(OpAnd, x, y)) == Bin(OpAnd, x, y);
  }

  /** n && n, to which every other conjunction is equal that comes down to n although none of its operands is n. */
  lemma EqualNo(x: Expr, z: Expr)
    requires x.Bin? && x.op == OpAnd && z == Bin(OpAnd, Symbol(NoSym), Symbol(NoSym))
    requires Symbol(NoSym) !in Operands(OpAnd, x) && IsNo(EliminateYn(x))
    ensures ExprEq(x, z) && ExprEq(z, x)
  {
    var n := Symbol(NoSym);
    BesideNo(x, n); BesideNo(x, z);
    FlaggedStays(OpAnd, n, x);
    assert EliminateTerms(OpAnd, z, x) == (z, x);
    OnePass(x, z); OnePass(z, x);
  }

  /** Nothing else is equal to n. */
  lemma {:induction false} BesideNo(x: Expr, z: Expr)
    requires Symbol(NoSym) !in Operands(OpAnd, x)
    requires z == Symbol(NoSym) || z == Bin(OpAnd, Symbol(NoSym), Symbol(NoSym))
    ensures EliminateTerms(OpAnd, x, z) == (x, z)
    decreases x
  {
    if IsOp(OpAnd, x) {
      BesideNo(x.left, z);
      BesideNo(x.right, z);
    } else {
      ExprEqSymbol(x, Symbol(NoSym));
      assert EliminateTerms(OpAnd, x, Symbol(NoSym)) == (x, Symbol(NoSym));
    }
  }

  /** n || n is equal to itself and comes down to n. */
  lemma NoOrNo()
    ensures var o := Bin(OpOr, Symbol(NoSym), Symbol(NoSym)); ExprEq(o, o) && IsNo(EliminateYn(o))
  {
    var n := Symbol(NoSym);
    FlaggedPair(OpOr, n, n);
    OnePass(Bin(OpOr, n, n), Bin(OpOr, n, n));
  }

  /** (n || n) && F is equal to n && n, which is equal to (n || n) && G, but these two are not equal to each other. */
  lemma NotTransitive(f: Expr, g: Expr)
    requires f.Symbol? && g.Symbol? && !Flagged(f) && !Flagged(g) && f != g
    ensures var n := Symbol(NoSym);
            var x, z, w := Bin(OpAnd, Bin(OpOr, n, n), f), Bin(OpAnd, n, n), Bin(OpAnd, Bin(OpOr, n, n), g);
            ExprEq(x, z) && ExprEq(z, w) && !ExprEq(x, w)
  {
    var n, y := Symbol(NoSym), Symbol(YesSym);
    var o, z := Bin(OpOr, n, n), Bin(OpAnd, n, n);
    var x, w := Bin(OpAnd, o, f), Bin(OpAnd, o, g);
    NoOrNo();
    EqualNo(x, z); EqualNo(w, z);
    ExprEqSymbol(f, y); ExprEqSymbol(f, g); ExprEqSymbol(y, g);
    UnitStays(OpAnd, g);
    assert EliminateTerms(OpAnd, o, w) == (y, Bin(OpAnd, y, g));
    assert EliminateTerms(OpAnd, f, Bin(OpAnd, y, g)) == (f, Bin(OpAnd, y, g));
    OnePass(x, w);
    assert EliminateYn(Bin(OpAnd, y, f)) == f && EliminateYn(Bin(OpAnd, y, g)) == g;
  }

  lemma SomeNotTransitive() returns (x: Expr, z: Expr, w: Expr)
    ensures NoQuoted(x) && NoQuoted(z) && NoQuoted(w) && ExprEq(x, z) && ExprEq(z, w) && !ExprEq(x, w)
  {
    var n, f, g := Symbol(NoSym), Symbol(NamedSym("F", Boolean)), Symbol(NamedSym("G", Boolean));
    assert "F"[0] != "G"[0];
    NotTransitive(f, g);
    x, z, w := Bin(OpAnd, Bin(OpOr, n, n), f), Bin(OpAnd, n, n), Bin(OpAnd, Bin(OpOr, n, n), g);
  }

  /** So with y or n as operands no form of expressions is the same exactly for those recognised as equal. */
  lemma NoCanonicalForm<T>(canon: Expr -> T)
    ensures exists a, b {:trigger ExprEq(a, b)} ::
              NoQuoted(a) && NoQuoted(b) && !(ExprEq(a, b) <==> canon(a) == canon(b))
  {
    var x, z, w := SomeNotTransitive();
    assert canon(x) == canon(z) && canon(z) == canon(w) ==> canon(x) == canon(w);
  }

  /** Where something negated is not equal to itself, an expression can be so although its residue is no symbol. */
  lemma NegationWitness(s: ConstText, t: ConstText)
    ensures var n := Symbol(NoSym);
            var x := Bin(OpAnd, Bin(OpAnd, Bin(OpOr, n, n), Symbol(ConstSym(s))), Symbol(ConstSym(t)));
            var e := Bin(OpOr, Not(x), Not(Bin(OpAnd, n, n)));
            !ExprEq(x, x) && ExprEq(e, e) && !EliminateYn(Residue(e.op, e)).Symbol?
  {
    var n, y := Symbol(NoSym), Symbol(YesSym);
    var a, b, o, z := Symbol(ConstSym(s)), Symbol(ConstSym(t)), Bin(OpOr, n, n), Bin(OpAnd, n, n);
    var x := Bin(OpAnd, Bin(OpAnd, o, a), b);
    NoOrNo();
    assert Operands(OpAnd, Bin(OpAnd, o, a)) == {o, a};
    assert IsNo(EliminateYn(Bin(OpAnd, o, a)));
    EqualNo(x, z);
    ReflexiveExact(x);
    assert Residue(OpAnd, Bin(OpAnd, o, a)) == Bin(OpAnd, y, a);
    assert EliminateYn(Bin(OpAnd, y, a)) == a;
    FlaggedPair(OpAnd, n, n);
    OnePass(z, z);
    NegationTerms(x, z);
  }

  lemma NegationTerms(x: Expr, z: Expr)
    requires !ExprEq(x, x) && ExprEq(x, z) && ExprEq(z, x) && ExprEq(z, z)
    ensures var e := Bin(OpOr, Not(x), Not(z)); ExprEq(e, e) && EliminateYn(Residue(OpOr, e)) == Not(x)
  {
    var n, p, q := Symbol(NoSym), Not(x), Not(z);
    var e := Bin(OpOr, p, q);
    assert ExprEq(p, q) && ExprEq(q, p) && ExprEq(q, q) && !ExprEq(p, p);
    UnitStays(OpOr, n);
    assert EliminateTerms(OpOr, p, e) == (n, Bin(OpOr, p, n));
    assert EliminateTerms(OpOr, q, Bin(OpOr, p, n)) == (n, Bin(OpOr, n, n));
    OnePass(e, e);
    assert IsNo(EliminateYn(Bin(OpOr, n, n)));
    assert Residue(OpOr, e) == Bin(OpOr, p, n);
  }
}
