/** What the elimination of duplicates leaves, in terms of the operands' forms. */
module Reduced {
  import opened Options
  import opened Tristate
  import opened Expressions
  import opened Equality
  import opened Joins
  import opened NormalForm
  import opened Extraction
  import opened Slots
  import opened Duplicates
  import opened Reflexive
  import opened Canonical

  // ---------- contradictions ----------

  /** Of operands that are no constants extraction takes out what cancelling does. */
  lemma {:induction false} ExtractCancels(op: Op, acc: Option<Expr>, a: Expr, b: Expr)
    requires PartlyEliminated(op, a) && PartlyEliminated(op, b)
    ensures var d := ExtractTerms(op, acc, a, b); (d.1, d.2) == EliminateTerms(op, a, b)
    decreases Size(a) + Size(b)
  {
    if IsOp(op, a) {
      var d1 := ExtractTerms(op, acc, a.left, b);
      ExtractCancels(op, acc, a.left, b);
      EliminateTermsDifference(op, a.left, b);
      ExtractCancels(op, d1.0, a.right, d1.2);
    } else if IsOp(op, b) {
      var d1 := ExtractTerms(op, acc, a, b.left);
      ExtractCancels(op, acc, a, b.left);
      EliminateTermsDifference(op, a, b.left);
      ExtractCancels(op, d1.0, d1.1, b.right);
    }
  }

  /** Without a common operand both sides stay as they are. */
  lemma {:induction false} ExtractNothing(op: Op, acc: Option<Expr>, a: Expr, b: Expr)
    ensures var d := ExtractTerms(op, acc, a, b); acc.Some? ==> d.0.Some?
    ensures var d := ExtractTerms(op, acc, a, b); d.0.None? ==> d.1 == a && d.2 == b
    decreases Size(a) + Size(b)
  {
    if IsOp(op, a) {
      var d1 := ExtractTerms(op, acc, a.left, b);
      ExtractNothing(op, acc, a.left, b);
      ExtractNothing(op, d1.0, a.right, d1.2);
    } else if IsOp(op, b) {
      var d1 := ExtractTerms(op, acc, a, b.left);
      ExtractNothing(op, acc, a, b.left);
      ExtractNothing(op, d1.0, d1.1, b.right);
    }
  }

  /** Nothing is left of a exactly if all its operands are operands of b. */
  lemma ExtractEqExact(op: Op, a: Expr, b: Expr)
    requires NoBareConst(a) && !Flagged(a) && NoBareConst(b) && !Flagged(b)
    ensures ExtractEq(op, a, b).1 == UnitExpr(op) <==> Terms(op, a) <= Terms(op, b)
  {
    var d := ExtractTerms(op, None, a, b);
    NoBareConstPartly(op, a);
    NoBareConstPartly(op, b);
    ExtractCancels(op, None, a, b);
    ExtractNothing(op, None, a, b);
    EliminateTermsDifference(op, a, b);
    EliminateYnSymbol(op, d.1);
    DifferenceEmpty(Terms(op, a), Terms(op, b));
    if d.0.None? {
      EliminateYnClean(a);
    }
  }

  /** Neither y, n nor a quoted constant is an operand, here or at the root. */
  predicate Clean(e: Expr) {
    Nnf(e) && NoQuoted(e) && NoBareConst(e) && !Flagged(e)
  }

  lemma {:induction false} PushedClean(e: Expr, negate: bool)
    requires Clean(e)
    ensures Clean(Pushed(e, negate))
  {
    match e
    case Not(a) =>
    case Bin(op, l, r) =>
      PushedClean(l, negate);
      PushedClean(r, negate);
    case _ =>
  }

  /** A contradiction is found exactly if all operands of the negation are operands of the other side. */
  lemma ContradictsExact(op: Op, a: Expr, b: Expr)
    requires Clean(a) && Clean(b)
    ensures Contradicts(op, a, b) <==> Terms(op, Pushed(a, true)) <= Terms(op, b)
  {
    TransformPushed(Not(a));
    PushedClean(a, true);
    ExtractEqExact(op, Pushed(a, true), b);
  }

  // ---------- at every depth ----------

  /** The slot holds an operand of the `op` tree. */
  predicate OperandAt(op: Op, t: Expr, u: Path) {
    InTree(op, t, u) && !IsOp(op, At(op, t, u))
  }

  /** No two operands are the same up to order and grouping, and none can be joined. */
  ghost predicate NoDuplicates(op: Op, t: Expr) {
    forall u, w {:trigger OperandAt(op, t, u), OperandAt(op, t, w)} ::
      OperandAt(op, t, u) && OperandAt(op, t, w) && u != w ==>
        Canon(At(op, t, u)) != Canon(At(op, t, w)) && Join(op, At(op, t, u), At(op, t, w)).None?
  }

  /** The negation of no operand has all its operands in another part of the tree. */
  ghost predicate NoContradictions(op: Op, t: Expr) {
    forall u, w {:trigger OperandAt(op, t, u), InTree(op, t, w)} ::
      OperandAt(op, t, u) && At(op, t, u).Bin? && InTree(op, t, w) && u != w ==>
        !(Terms(op, Pushed(At(op, t, u), true)) <= Terms(op, At(op, t, w)))
  }

  /** That is so of the tree, of its operands, of their operands and so on. */
  ghost predicate Irredundant(t: Expr)
    decreases Size(t)
  {
    t.Bin? ==>
      && NoDuplicates(t.op, t) && NoContradictions(t.op, t)
      && forall u {:trigger OperandAt(t.op, t, u)} ::
           OperandAt(t.op, t, u) ==> (SlotBelow(t, u); Irredundant(At(t.op, t, u)))
  }

  lemma SlotBelow(t: Expr, u: Path)
    requires t.Bin? && OperandAt(t.op, t, u)
    ensures u != [] && Size(At(t.op, t, u)) < Size(t)
  {
    SlotSmaller(t.op, t, u);
  }

  lemma {:induction false} CleanAt(op: Op, t: Expr, u: Path)
    requires Clean(t) && InTree(op, t, u)
    ensures Clean(At(op, t, u))
  {
    if u != [] {
      CleanAt(op, Child(t, u[0]), u[1..]);
    }
  }

  /** The first operand of the tree. */
  lemma {:induction false} FirstOperand(op: Op, t: Expr) returns (w: Path)
    ensures OperandAt(op, t, w)
  {
    if IsOp(op, t) {
      var w' := FirstOperand(op, t.left);
      w := [false] + w';
      assert w[1..] == w';
    } else {
      w := [];
    }
  }

  /** Every operand has another one beside it. */
  lemma OtherOperand(t: Expr, u: Path) returns (w: Path)
    requires t.Bin? && OperandAt(t.op, t, u)
    ensures OperandAt(t.op, t, w) && w != u
  {
    var w' := FirstOperand(t.op, Child(t, !u[0]));
    w := [!u[0]] + w';
    assert w[1..] == w' && w[0] != u[0];
  }

  lemma PassFindsNone(op: Op, t: Expr, u: Path, w: Path)
    requires Clean(t) && Dups1(op, t, [], []).1 == 0
    requires OperandAt(op, t, u) && OperandAt(op, t, w) && u != w
    ensures Canon(At(op, t, u)) != Canon(At(op, t, w)) && Join(op, At(op, t, u), At(op, t, w)).None?
  {
    Dups1Complete(op, t, [], [], u, w);
    CleanAt(op, t, u);
    CleanAt(op, t, w);
    ExprEqExact(At(op, t, u), At(op, t, w));
    if ExprEq(At(op, t, u), At(op, t, w)) {
      JoinEqual(op, At(op, t, u), At(op, t, w));
    }
  }

  lemma PassConsistent(op: Op, t: Expr, u: Path, w: Path)
    requires Clean(t) && Dups2(op, t, [], []).1 == 0
    requires OperandAt(op, t, u) && At(op, t, u).Bin? && InTree(op, t, w) && u != w
    ensures !(Terms(op, Pushed(At(op, t, u), true)) <= Terms(op, At(op, t, w)))
  {
    Dups2Complete(op, t, [], [], u, w);
    CleanAt(op, t, u);
    CleanAt(op, t, w);
    ContradictsExact(op, At(op, t, u), At(op, t, w));
  }

  /** A tree in which neither pass replaces anything is irredundant throughout. */
  lemma {:induction false} UnchangedIrredundant(t: Expr)
    requires Clean(t)
    requires t.Bin? ==> Dups1(t.op, t, [], []).1 == 0 && Dups2(t.op, t, [], []).1 == 0
    ensures Irredundant(t)
    decreases Size(t)
  {
    if t.Bin? {
      var op := t.op;
      forall u, w | OperandAt(op, t, u) && OperandAt(op, t, w) && u != w
        ensures Canon(At(op, t, u)) != Canon(At(op, t, w)) && Join(op, At(op, t, u), At(op, t, w)).None?
      {
        PassFindsNone(op, t, u, w);
      }
      forall u, w | OperandAt(op, t, u) && At(op, t, u).Bin? && InTree(op, t, w) && u != w
        ensures !(Terms(op, Pushed(At(op, t, u), true)) <= Terms(op, At(op, t, w)))
      {
        PassConsistent(op, t, u, w);
      }
      forall u | OperandAt(op, t, u) ensures Irredundant(At(op, t, u)) {
        OperandIrredundant(t, u);
      }
    }
  }

  lemma {:induction false} OperandIrredundant(t: Expr, u: Path)
    requires Clean(t) && t.Bin? && Dups1(t.op, t, [], []).1 == 0 && Dups2(t.op, t, [], []).1 == 0
    requires OperandAt(t.op, t, u)
    ensures Irredundant(At(t.op, t, u))
    decreases Size(t), 0
  {
    SlotBelow(t, u);
    CleanAt(t.op, t, u);
    var w := OtherOperand(t, u);
    Dups1Complete(t.op, t, [], [], u, w);
    if At(t.op, t, u).Bin? {
      Dups2Complete(t.op, t, [], [], u, w);
    }
    UnchangedIrredundant(At(t.op, t, u));
  }

  lemma JoinNoQuoted(op: Op, a: Expr, b: Expr)
    requires NoQuoted(a) && NoQuoted(b) && Join(op, a, b).Some?
    ensures NoQuoted(Join(op, a, b).value)
  {
  }

  lemma EliminateDupsNoQuoted(e: Expr)
    requires NoQuoted(e)
    ensures NoQuoted(EliminateDups(e))
  {
    var P := x => NoQuoted(x);
    forall op, a, b | P(a) && P(b) && Join(op, a, b).Some? ensures P(Join(op, a, b).value) {
      JoinNoQuoted(op, a, b);
    }
    EliminateDupsKeeps(P, e);
  }

  /** A y or n that is an operand stays one only if nothing is replaced. */
  lemma {:induction false} EliminateDupsYn(e: Expr)
    ensures HasYnOperand(EliminateDups(e)) ==> EliminateDups(e) == e
    decreases Size(e)
  {
    var r := DupsRound(e);
    RoundShrinks(e);
    if r.1 > 0 {
      EliminateYnShrinks(r.0);
      EliminateDupsYn(EliminateYn(r.0));
    }
  }

  lemma {:induction false} NormalisedClean(e: Expr)
    requires Nnf(e) && NoQuoted(e) && !HasYnOperand(e) && !IsYn(e)
    ensures Clean(e)
  {
    EliminateYnShrinks(e);
    EliminateYnNoBareConst(e);
  }

  /**
   * Of a normalised expression without quoted constants elimination leaves y, n, or an expression of which, at every
   * depth, no two operands are the same up to order and grouping or can be joined, and no operand is contradicted;
   * unless y or n is an operand and nothing is replaced.
   */
  lemma EliminateDupsIrredundant(e: Expr)
    requires Nnf(e) && NoQuoted(e)
    ensures var r := EliminateDups(e); IsYn(r) || Irredundant(r) || (HasYnOperand(e) && r == e)
  {
    var r := EliminateDups(e);
    EliminateDupsYn(e);
    if !HasYnOperand(r) && !IsYn(r) {
      EliminateDupsNnf(e);
      EliminateDupsNoQuoted(e);
      NormalisedClean(r);
      EliminateDupsFixpoint(e);
      if r.Bin? { Dups1Counted(r.op, r, [], []); }
      UnchangedIrredundant(r);
    }
  }

  // ---------- which one stays ----------

  predicate Named(e: Expr) {
    e.Symbol? && e.sym.NamedSym?
  }

  lemma NamedApart(op: Op, x: Expr, y: Expr)
    requires x.Symbol? && y.Symbol? && x != y
    ensures Join(op, x, y).None?
  {
  }

  /** The slots of the operands of a tree of three. */
  lemma ThreeSlots(op: Op, x: Expr, y: Expr, z: Expr, u: Path)
    requires !IsOp(op, x) && !IsOp(op, y) && !IsOp(op, z) && OperandAt(op, Bin(op, Bin(op, x, y), z), u)
    ensures var t := Bin(op, Bin(op, x, y), z);
            || (u == [false, false] && At(op, t, u) == x) || (u == [false, true] && At(op, t, u) == y)
            || (u == [true] && At(op, t, u) == z)
  {
    var w := NodeSlot(op, Bin(op, x, y), z, u);
    if u[0] {
      OperandOnly(op, z, w);
    } else {
      var w' := NodeSlot(op, x, y, w);
      OperandOnly(op, if w[0] then y else x, w');
      assert u == [false] + ([w[0]] + w');
    }
  }

  lemma ThreeUnchanged(op: Op, x: Expr, y: Expr, z: Expr, p: Path, q: Path)
    requires x.Symbol? && y.Symbol? && z.Symbol? && x != y && x != z && y != z
    requires var t := Bin(op, Bin(op, x, y), z); InTree(op, t, p) && InTree(op, t, q)
    ensures var t := Bin(op, Bin(op, x, y), z); Dups1(op, t, p, q) == (t, 0)
  {
    var t := Bin(op, Bin(op, x, y), z);
    forall u | OperandAt(op, t, u)
      ensures (u == [false, false] && At(op, t, u) == x) || (u == [false, true] && At(op, t, u) == y)
              || (u == [true] && At(op, t, u) == z)
    {
      ThreeSlots(op, x, y, z, u);
    }
    forall u, w ensures JoinlessAt(op, t, u, w) {
      if OperandAt(op, t, u) && OperandAt(op, t, w) && u != w {
        NamedApart(op, At(op, t, u), At(op, t, w));
      }
    }
    JoinlessUnchanged(op, t, p, q);
  }

  /** The step for a pair of symbols. */
  lemma SymbolPair(op: Op, t: Expr, p: Path, q: Path)
    requires InTree(op, t, p) && InTree(op, t, q) && p != q && At(op, t, p).Symbol? && At(op, t, q).Symbol?
    ensures At(op, t, p) != At(op, t, q) ==> Dups1(op, t, p, q) == (t, 0)
    ensures InTree(op, Put(op, t, p, UnitExpr(op)), q)
    ensures At(op, t, p) == At(op, t, q) ==>
              Dups1(op, t, p, q) == (Put(op, Put(op, t, p, UnitExpr(op)), q, At(op, t, q)), 1)
  {
    OperandsApart(op, t, p, q);
    PutSame(op, t, p);
    PutApart(op, t, p, q, UnitExpr(op));
    if At(op, t, p) != At(op, t, q) {
      NamedApart(op, At(op, t, p), At(op, t, q));
    }
  }

  /** The first symbol of (f op b) op f compared with the others: it is replaced by the unit, and the last one stays. */
  lemma FirstReplaced(op: Op, f: Expr, b: Expr, root: Path, l: Path, ll: Path, lr: Path, r: Path)
    requires Named(f) && Named(b) && f != b
    requires root == [] && l == [false] && ll == [false, false] && lr == [false, true] && r == [true]
    ensures var t := Bin(op, Bin(op, f, b), f);
            InTree(op, t, ll) && Dups1(op, t, ll, root) == (Bin(op, Bin(op, UnitExpr(op), b), f), 1)
  {
    var t := Bin(op, Bin(op, f, b), f);
    var t' := Bin(op, Bin(op, UnitExpr(op), b), f);
    assert root + [false] == l && root + [true] == r && l + [false] == ll && l + [true] == lr;
    Descend(op, t, root, false); Descend(op, t, root, true);
    Descend(op, t, l, false); Descend(op, t, l, true);
    SymbolPair(op, t, ll, lr);
    assert Dups1(op, t, ll, ll) == (t, 0);
    assert Dups1(op, t, ll, l) == (t, 0);
    SymbolPair(op, t, ll, r);
    assert Put(op, t, ll, UnitExpr(op)) == t' by {
      assert ll[1..] == [false] && ll[1..][1..] == [];
    }
    assert Put(op, t', r, f) == t' by {
      assert r[1..] == [];
    }
  }

  lemma RoundReplaces(op: Op, f: Expr, b: Expr, root: Path, l: Path, ll: Path, lr: Path, r: Path)
    requires Named(f) && Named(b) && f != b
    requires root == [] && l == [false] && ll == [false, false] && lr == [false, true] && r == [true]
    ensures DupsRound(Bin(op, Bin(op, f, b), f)) == (Bin(op, Bin(op, UnitExpr(op), b), f), 1)
  {
    var t := Bin(op, Bin(op, f, b), f);
    var t' := Bin(op, Bin(op, UnitExpr(op), b), f);
    FirstReplaced(op, f, b, root, l, ll, lr, r);
    assert root + [false] == l && root + [true] == r && l + [false] == ll && l + [true] == lr;
    Descend(op, t', root, false); Descend(op, t', root, true); Descend(op, t', l, true);
    Descend(op, t, root, false); Descend(op, t, l, false);
    ThreeUnchanged(op, UnitExpr(op), b, f, lr, root);
    ThreeUnchanged(op, UnitExpr(op), b, f, r, root);
    assert Dups1(op, t, l, root) == (t', 1);
    assert Dups1(op, t, root, root) == (t', 1);
    AtomsConsistent(op, t', root, root);
  }

  lemma UnitDropped(op: Op, f: Expr, b: Expr)
    requires Named(f) && Named(b)
    ensures EliminateYn(Bin(op, Bin(op, UnitExpr(op), b), f)) == Bin(op, b, f)
  {
    EliminateYnClean(f);
    EliminateYnClean(b);
    assert EliminateYn(Bin(op, UnitExpr(op), b)) == b;
  }

  /** Of operands that are the same the last one stays. */
  lemma LastStays(op: Op, f: Expr, b: Expr)
    requires Named(f) && Named(b) && f != b
    ensures EliminateDups(Bin(op, Bin(op, f, b), f)) == Bin(op, b, f)
  {
    RoundReplaces(op, f, b, [], [false], [false, false], [false, true], [true]);
    var e := Bin(op, b, f);
    UnitDropped(op, f, b);
    NamedApart(op, b, f);
    NamedApart(op, f, b);
    TwoJoinless(op, b, f);
    AtomsConsistent(op, e, [], []);
    assert EliminateDups(e) == e;
  }
}
