/** Elimination of duplicate and contradictory operands from AND and OR trees. */
module Duplicates {
  import opened Options
  import opened Tristate
  import opened Expressions
  import opened Equality
  import opened Joins
  import opened NormalForm
  import opened Extraction
  import opened Slots

  /**
   * Joins pairs of operands of the `op` tree t, one below slot p and one below slot q. The first operand of a
   * joined pair becomes the unit of `op`, the second the join. Returns the tree and the number of replacements.
   */
  function Dups1(op: Op, t: Expr, p: Path, q: Path): (r: (Expr, nat))
    requires InTree(op, t, p) && InTree(op, t, q)
    ensures SameSpine(op, t, r.0) && Size(r.0) <= Size(t)
    decreases Size(t), 1, Spine(op, At(op, t, p)) + Spine(op, At(op, t, q))
  {
    var a, b := At(op, t, p), At(op, t, q);
    if IsOp(op, a) then
      Descend(op, t, p, false);
      var r1 := Dups1(op, t, p + [false], q);
      Descend(op, t, p, true); SameSpineAt(op, t, r1.0, p + [true]); SameSpineAt(op, t, r1.0, q);
      var r2 := Dups1(op, r1.0, p + [true], q);
      SameSpineTrans(op, t, r1.0, r2.0);
      (r2.0, r1.1 + r2.1)
    else if IsOp(op, b) then
      Descend(op, t, q, false);
      var r1 := Dups1(op, t, p, q + [false]);
      Descend(op, t, q, true); SameSpineAt(op, t, r1.0, q + [true]); SameSpineAt(op, t, r1.0, p);
      var r2 := Dups1(op, r1.0, p, q + [true]);
      SameSpineTrans(op, t, r1.0, r2.0);
      (r2.0, r1.1 + r2.1)
    else
      SameSpineRefl(op, t);
      if p == q then (t, 0)
      else
        OperandsApart(op, t, p, q);
        var r1 := Inner1(op, t, p);
        var t1 := Put(op, t, p, r1.0);
        PutSpine(op, t, p, r1.0); PutApart(op, t, p, q, r1.0);
        var j := Join(op, r1.0, b);
        if j.None? then (t1, r1.1)
        else
          JoinOperand(op, r1.0, b);
          PutSpine(op, t1, p, UnitExpr(op)); PutApart(op, t1, p, q, UnitExpr(op));
          var t2 := Put(op, t1, p, UnitExpr(op));
          PutSpine(op, t2, q, j.value);
          SameSpineTrans(op, t, t1, t2); SameSpineTrans(op, t, t2, Put(op, t2, q, j.value));
          (Put(op, t2, q, j.value), r1.1 + 1)
  }

  /** The pass over the operands of a single operand, which is a tree of the other connective. */
  function Inner1(op: Op, t: Expr, p: Path): (r: (Expr, nat))
    requires InTree(op, t, p) && p != [] && !IsOp(op, At(op, t, p))
    ensures !IsOp(op, r.0) && Size(r.0) <= Size(At(op, t, p))
    decreases Size(t), 0, 0
  {
    var a := At(op, t, p);
    SlotSmaller(op, t, p);
    if a.Bin? then Dups1(a.op, a, [], []) else (a, 0)
  }

  lemma {:induction false} SlotSmaller(op: Op, t: Expr, p: Path)
    requires InTree(op, t, p) && p != []
    ensures Size(At(op, t, p)) < Size(t)
  {
    if |p| > 1 {
      SlotSmaller(op, Child(t, p[0]), p[1..]);
    }
  }

  lemma JoinOperand(op: Op, a: Expr, b: Expr)
    requires Join(op, a, b).Some? && !IsOp(op, a)
    ensures !IsOp(op, Join(op, a, b).value) && Size(Join(op, a, b).value) <= Size(a)
  {
    JoinSmall(op, a, b);
  }

  /** Joining keeps the value of the tree in the full three-valued logic. */
  lemma {:induction false} Dups1Exact(op: Op, t: Expr, p: Path, q: Path, v: Valuation)
    requires InTree(op, t, p) && InTree(op, t, q)
    ensures Eval(Dups1(op, t, p, q).0, v) == Eval(t, v)
    decreases Size(t), 1, Spine(op, At(op, t, p)) + Spine(op, At(op, t, q)), 1
  {
    var a, b := At(op, t, p), At(op, t, q);
    if IsOp(op, a) {
      Descend(op, t, p, false);
      var r1 := Dups1(op, t, p + [false], q);
      Dups1Exact(op, t, p + [false], q, v);
      Descend(op, t, p, true); SameSpineAt(op, t, r1.0, p + [true]); SameSpineAt(op, t, r1.0, q);
      Dups1Exact(op, r1.0, p + [true], q, v);
    } else if IsOp(op, b) {
      Descend(op, t, q, false);
      var r1 := Dups1(op, t, p, q + [false]);
      Dups1Exact(op, t, p, q + [false], v);
      Descend(op, t, q, true); SameSpineAt(op, t, r1.0, q + [true]); SameSpineAt(op, t, r1.0, p);
      Dups1Exact(op, r1.0, p, q + [true], v);
    } else {
      Dups1PairExact(op, t, p, q, v);
    }
  }

  lemma {:induction false} Dups1PairExact(op: Op, t: Expr, p: Path, q: Path, v: Valuation)
    requires InTree(op, t, p) && InTree(op, t, q) && !IsOp(op, At(op, t, p)) && !IsOp(op, At(op, t, q))
    ensures Eval(Dups1(op, t, p, q).0, v) == Eval(t, v)
    decreases Size(t), 1, 0, 0
  {
    if p != q {
      var a, b := At(op, t, p), At(op, t, q);
      OperandsApart(op, t, p, q);
      var r1 := Inner1(op, t, p);
      var t1 := Put(op, t, p, r1.0);
      SlotSmaller(op, t, p);
      if a.Bin? {
        Dups1Exact(a.op, a, [], [], v);
      }
      var r := EvalPut(op, t, p, r1.0, v);
      PutApart(op, t, p, q, r1.0);
      var j := Join(op, r1.0, b);
      if j.Some? {
        JoinExact(op, r1.0, b, v);
        EvalPutTwo(op, t1, p, q, UnitExpr(op), j.value, v);
      }
    }
  }

  /**
   * Looks for an operand a below p whose negation, in normal form, has all its operands among those below q: such an
   * operand becomes the constant that decides the tree. The slot q may be the tree that contains the slot p.
   */
  function Dups2(op: Op, t: Expr, p: Path, q: Path): (r: (Expr, nat))
    requires InTree(op, t, p) && InTree(op, t, q)
    ensures SameSpine(op, t, r.0) && Size(r.0) <= Size(t)
    decreases Size(t), 1, Spine(op, At(op, t, p)) + Spine(op, At(op, t, q))
  {
    var a, b := At(op, t, p), At(op, t, q);
    if IsOp(op, a) then
      Descend(op, t, p, false);
      var r1 := Dups2(op, t, p + [false], q);
      Descend(op, t, p, true); SameSpineAt(op, t, r1.0, p + [true]); SameSpineAt(op, t, r1.0, q);
      var r2 := Dups2(op, r1.0, p + [true], q);
      SameSpineTrans(op, t, r1.0, r2.0);
      (r2.0, r1.1 + r2.1)
    else if IsOp(op, b) then
      Descend(op, t, q, false);
      var r1 := Dups2(op, t, p, q + [false]);
      Descend(op, t, q, true); SameSpineAt(op, t, r1.0, q + [true]); SameSpineAt(op, t, r1.0, p);
      var r2 := Dups2(op, r1.0, p, q + [true]);
      SameSpineTrans(op, t, r1.0, r2.0); SameSpineAt(op, t, r2.0, p); SameSpineAt(op, t, r2.0, q);
      var r3 := Contradict(op, r2.0, p, q);
      SameSpineTrans(op, t, r2.0, r3.0);
      (r3.0, r1.1 + r2.1 + r3.1)
    else
      Contradict(op, t, p, q)
  }

  /** The step for one operand a at slot p and the operand or tree at slot q. */
  function Contradict(op: Op, t: Expr, p: Path, q: Path): (r: (Expr, nat))
    requires InTree(op, t, p) && InTree(op, t, q) && !IsOp(op, At(op, t, p))
    ensures SameSpine(op, t, r.0) && Size(r.0) <= Size(t)
    decreases Size(t), 0, 1
  {
    SameSpineRefl(op, t);
    if p == q then (t, 0)
    else
      var r1 := Inner2(op, t, p);
      var t1 := Put(op, t, p, r1.0);
      PutSpine(op, t, p, r1.0); SameSpineAt(op, t, t1, q);
      if r1.0.Bin? && Contradicts(op, r1.0, At(op, t1, q)) then
        PutSpine(op, t1, p, UnitExpr(op.Dual()));
        SameSpineTrans(op, t, t1, Put(op, t1, p, UnitExpr(op.Dual())));
        (Put(op, t1, p, UnitExpr(op.Dual())), r1.1 + 1)
      else (t1, r1.1)
  }

  /** Every operand of the negation of a is an operand of b. */
  predicate Contradicts(op: Op, a: Expr, b: Expr) {
    ExtractEq(op, Transform(Not(a)), b).1 == UnitExpr(op)
  }

  function Inner2(op: Op, t: Expr, p: Path): (r: (Expr, nat))
    requires InTree(op, t, p) && p != [] && !IsOp(op, At(op, t, p))
    ensures !IsOp(op, r.0) && Size(r.0) <= Size(At(op, t, p))
    decreases Size(t), 0, 0
  {
    var a := At(op, t, p);
    SlotSmaller(op, t, p);
    if a.Bin? then Dups2(a.op, a, [], []) else (a, 0)
  }

  /** An operand together with everything its negation consists of is n in an AND and y in an OR, or m. */
  lemma ContradictionSettles(op: Op, t: Expr, p: Path, q: Path, v: Valuation)
    requires InTree(op, t, p) && InTree(op, t, q)
    requires Contradicts(op, At(op, t, p), At(op, t, q))
    ensures Eval(Put(op, t, p, UnitExpr(op.Dual())), v) == op.Dual().Unit()
    ensures Eval(t, v) == MOD || Eval(t, v) == op.Dual().Unit()
  {
    var a, b := At(op, t, p), At(op, t, q);
    TransformExact(Not(a), v);
    ExtractEqCovers(op, Transform(Not(a)), b, v);
    EvalBound(op, t, p, v);
    EvalBound(op, t, q, v);
    var r := EvalPut(op, t, p, UnitExpr(op.Dual()), v);
  }

  /** The replacement keeps the value of the tree exactly where that value was not m. */
  lemma ContradictionExact(op: Op, t: Expr, p: Path, q: Path, v: Valuation)
    requires InTree(op, t, p) && InTree(op, t, q)
    requires Contradicts(op, At(op, t, p), At(op, t, q))
    ensures Eval(Put(op, t, p, UnitExpr(op.Dual())), v) == Eval(t, v) <==> Eval(t, v) != MOD
  {
    ContradictionSettles(op, t, p, q, v);
  }

  /** Removing contradictions can only settle an m: it never changes a y or an n. */
  lemma {:induction false} Dups2Settles(op: Op, t: Expr, p: Path, q: Path, v: Valuation)
    requires InTree(op, t, p) && InTree(op, t, q)
    ensures Settles(Eval(t, v), Eval(Dups2(op, t, p, q).0, v))
    decreases Size(t), 1, Spine(op, At(op, t, p)) + Spine(op, At(op, t, q))
  {
    var a, b := At(op, t, p), At(op, t, q);
    if IsOp(op, a) {
      Descend(op, t, p, false);
      var r1 := Dups2(op, t, p + [false], q);
      Dups2Settles(op, t, p + [false], q, v);
      Descend(op, t, p, true); SameSpineAt(op, t, r1.0, p + [true]); SameSpineAt(op, t, r1.0, q);
      Dups2Settles(op, r1.0, p + [true], q, v);
    } else if IsOp(op, b) {
      Descend(op, t, q, false);
      var r1 := Dups2(op, t, p, q + [false]);
      Dups2Settles(op, t, p, q + [false], v);
      Descend(op, t, q, true); SameSpineAt(op, t, r1.0, q + [true]); SameSpineAt(op, t, r1.0, p);
      var r2 := Dups2(op, r1.0, p, q + [true]);
      Dups2Settles(op, r1.0, p, q + [true], v);
      SameSpineTrans(op, t, r1.0, r2.0); SameSpineAt(op, t, r2.0, p); SameSpineAt(op, t, r2.0, q);
      ContradictSettles(op, r2.0, p, q, v);
    } else {
      ContradictSettles(op, t, p, q, v);
    }
  }

  lemma {:induction false} ContradictSettles(op: Op, t: Expr, p: Path, q: Path, v: Valuation)
    requires InTree(op, t, p) && InTree(op, t, q) && !IsOp(op, At(op, t, p))
    ensures Settles(Eval(t, v), Eval(Contradict(op, t, p, q).0, v))
    decreases Size(t), 0, 1
  {
    if p != q {
      var a := At(op, t, p);
      var r1 := Inner2(op, t, p);
      var t1 := Put(op, t, p, r1.0);
      SlotSmaller(op, t, p);
      if a.Bin? {
        Dups2Settles(a.op, a, [], [], v);
      }
      var r := EvalPut(op, t, p, r1.0, v);
      SettlesMonotone(op, Eval(a, v), Eval(r1.0, v), r);
      SameSpineRefl(op, t); PutSpine(op, t, p, r1.0); SameSpineAt(op, t, t1, q);
      if r1.0.Bin? && Contradicts(op, r1.0, At(op, t1, q)) {
        ContradictionSettles(op, t1, p, q, v);
      }
    }
  }

  /** One round over the whole tree. */
  function DupsRound(e: Expr): (r: (Expr, nat))
    ensures Size(r.0) <= Size(e)
  {
    if e.Bin? then
      var r1 := Dups1(e.op, e, [], []);
      var r2 := Dups2(e.op, r1.0, [], []);
      (r2.0, r1.1 + r2.1)
    else (e, 0)
  }

  /** A pass over atoms finds no contradiction. */
  lemma {:induction false} AtomsConsistent(op: Op, t: Expr, p: Path, q: Path)
    requires InTree(op, t, p) && InTree(op, t, q) && Atomic(op, t)
    ensures Dups2(op, t, p, q) == (t, 0)
    decreases Spine(op, At(op, t, p)) + Spine(op, At(op, t, q))
  {
    AtomicAt(op, t, p);
    if IsOp(op, At(op, t, p)) {
      Descend(op, t, p, false); Descend(op, t, p, true);
      AtomsConsistent(op, t, p + [false], q);
      AtomsConsistent(op, t, p + [true], q);
    } else {
      PutSame(op, t, p);
      if IsOp(op, At(op, t, q)) {
        Descend(op, t, q, false); Descend(op, t, q, true);
        AtomsConsistent(op, t, p, q + [false]);
        AtomsConsistent(op, t, p, q + [true]);
      }
      assert Contradict(op, t, p, q) == (t, 0);
    }
  }

  /** No operand of the `op` tree is itself a tree. */
  predicate Atomic(op: Op, t: Expr) {
    if IsOp(op, t) then Atomic(op, t.left) && Atomic(op, t.right) else !t.Bin?
  }

  lemma {:induction false} AtomicAt(op: Op, t: Expr, p: Path)
    requires InTree(op, t, p) && Atomic(op, t)
    ensures Atomic(op, At(op, t, p))
  {
    if p != [] { AtomicAt(op, Child(t, p[0]), p[1..]); }
  }

  /** Operands at u and w cannot be joined, and the operands of the one at u are left alone. */
  ghost predicate JoinlessAt(op: Op, t: Expr, u: Path, w: Path) {
    InTree(op, t, u) && InTree(op, t, w) && u != w && !IsOp(op, At(op, t, u)) && !IsOp(op, At(op, t, w)) ==>
      Join(op, At(op, t, u), At(op, t, w)).None? && (u != [] ==> Inner1(op, t, u) == (At(op, t, u), 0))
  }

  /** No two operands of the `op` tree can be joined, and the operands of each operand are left alone. */
  ghost predicate Joinless(op: Op, t: Expr) {
    forall u, w {:trigger JoinlessAt(op, t, u, w)} :: JoinlessAt(op, t, u, w)
  }

  /** Such a tree is left alone by the joining pass. */
  lemma {:induction false} JoinlessUnchanged(op: Op, t: Expr, p: Path, q: Path)
    requires InTree(op, t, p) && InTree(op, t, q) && Joinless(op, t)
    ensures Dups1(op, t, p, q) == (t, 0)
    decreases Spine(op, At(op, t, p)) + Spine(op, At(op, t, q))
  {
    if IsOp(op, At(op, t, p)) {
      Descend(op, t, p, false); Descend(op, t, p, true);
      JoinlessUnchanged(op, t, p + [false], q);
      JoinlessUnchanged(op, t, p + [true], q);
    } else if IsOp(op, At(op, t, q)) {
      Descend(op, t, q, false); Descend(op, t, q, true);
      JoinlessUnchanged(op, t, p, q + [false]);
      JoinlessUnchanged(op, t, p, q + [true]);
    } else {
      JoinlessPair(op, t, p, q);
    }
  }

  lemma JoinlessPair(op: Op, t: Expr, p: Path, q: Path)
    requires InTree(op, t, p) && InTree(op, t, q) && Joinless(op, t)
    requires !IsOp(op, At(op, t, p)) && !IsOp(op, At(op, t, q))
    ensures Dups1(op, t, p, q) == (t, 0)
  {
    if p != q {
      OperandsApart(op, t, p, q);
      PutSame(op, t, p);
      assert JoinlessAt(op, t, p, q);
    }
  }

  /** The operands of (f || b) && (!f && !b) cannot be joined. */
  lemma WitnessJoinless(f: Expr, b: Expr)
    requires f.Symbol? && b.Symbol? && f != b
    ensures var t := Bin(OpAnd, Bin(OpOr, f, b), Bin(OpAnd, Not(f), Not(b))); Dups1(OpAnd, t, [], []) == (t, 0)
  {
    var a, n := Bin(OpOr, f, b), Bin(OpAnd, Not(f), Not(b));
    var t := Bin(OpAnd, a, n);
    TwoJoinless(OpOr, f, b);
    assert Join(OpAnd, a, Not(f)).None? && Join(OpAnd, Not(f), a).None? && Join(OpAnd, a, Not(b)).None?;
    assert Join(OpAnd, Not(b), a).None? && Join(OpAnd, Not(f), Not(b)).None? && Join(OpAnd, Not(b), Not(f)).None?;
    forall u | InTree(OpAnd, t, u) && !IsOp(OpAnd, At(OpAnd, t, u))
      ensures (u == [false] && At(OpAnd, t, u) == a) || (u == [true, false] && At(OpAnd, t, u) == Not(f))
              || (u == [true, true] && At(OpAnd, t, u) == Not(b))
    {
      WitnessSlots(a, Not(f), Not(b), u);
    }
    forall u, w ensures JoinlessAt(OpAnd, t, u, w) {
    }
    JoinlessUnchanged(OpAnd, t, [], []);
  }

  lemma OperandOnly(op: Op, t: Expr, u: Path)
    requires !IsOp(op, t) && InTree(op, t, u)
    ensures u == []
  {
  }

  lemma WitnessSlots(x: Expr, y: Expr, z: Expr, u: Path)
    requires !IsOp(OpAnd, x) && !IsOp(OpAnd, y) && !IsOp(OpAnd, z)
    requires var t := Bin(OpAnd, x, Bin(OpAnd, y, z)); InTree(OpAnd, t, u) && !IsOp(OpAnd, At(OpAnd, t, u))
    ensures var t := Bin(OpAnd, x, Bin(OpAnd, y, z));
            || (u == [false] && At(OpAnd, t, u) == x) || (u == [true, false] && At(OpAnd, t, u) == y)
            || (u == [true, true] && At(OpAnd, t, u) == z)
  {
    var n := Bin(OpAnd, y, z);
    var w := NodeSlot(OpAnd, x, n, u);
    if u[0] {
      var w' := NodeSlot(OpAnd, y, z, w);
      OperandOnly(OpAnd, if w[0] then z else y, w');
      assert u == [true] + ([w[0]] + w');
    } else {
      OperandOnly(OpAnd, x, w);
    }
  }

  /** Below the root of a tree a slot is one of an operand. */
  lemma NodeSlot(op: Op, l: Expr, r: Expr, u: Path) returns (w: Path)
    requires InTree(op, Bin(op, l, r), u) && !IsOp(op, At(op, Bin(op, l, r), u))
    ensures u != [] && u == [u[0]] + w
    ensures var c := if u[0] then r else l; InTree(op, c, w) && At(op, Bin(op, l, r), u) == At(op, c, w)
  {
    w := u[1..];
  }

  lemma TwoJoinless(op: Op, x: Expr, y: Expr)
    requires !x.Bin? && !y.Bin? && Join(op, x, y).None? && Join(op, y, x).None?
    ensures Dups1(op, Bin(op, x, y), [], []) == (Bin(op, x, y), 0)
  {
    var t := Bin(op, x, y);
    forall u | InTree(op, t, u) && !IsOp(op, At(op, t, u))
      ensures (u == [false] && At(op, t, u) == x) || (u == [true] && At(op, t, u) == y)
    {
      var w := NodeSlot(op, x, y, u);
      OperandOnly(op, if u[0] then y else x, w);
    }
    forall u, w ensures JoinlessAt(op, t, u, w) {
    }
    JoinlessUnchanged(op, t, [], []);
  }

  /** The step for an operand whose own operands are left alone. */
  lemma ContradictOnce(op: Op, t: Expr, p: Path, q: Path)
    requires InTree(op, t, p) && InTree(op, t, q) && !IsOp(op, At(op, t, p)) && p != q
    requires At(op, t, p).Bin? ==> Dups2(At(op, t, p).op, At(op, t, p), [], []) == (At(op, t, p), 0)
    ensures Contradict(op, t, p, q) ==
              if At(op, t, p).Bin? && Contradicts(op, At(op, t, p), At(op, t, q))
              then (Put(op, t, p, UnitExpr(op.Dual())), 1) else (t, 0)
  {
    PutSame(op, t, p);
  }

  lemma WitnessTree(a: Expr, x: Expr, y: Expr, p: Path, q: Path)
    requires !IsOp(OpAnd, a) && !IsOp(OpAnd, x) && !IsOp(OpAnd, y) && p == [false] && q == [true]
    ensures var n := Bin(OpAnd, x, y);
            var t := Bin(OpAnd, a, n);
            && InTree(OpAnd, t, p) && InTree(OpAnd, t, q) && At(OpAnd, t, p) == a && At(OpAnd, t, q) == n
            && InTree(OpAnd, t, q + [false]) && At(OpAnd, t, q + [false]) == x
            && InTree(OpAnd, t, q + [true]) && At(OpAnd, t, q + [true]) == y
            && Put(OpAnd, t, p, Symbol(NoSym)) == Bin(OpAnd, Symbol(NoSym), n)
  {
    var t := Bin(OpAnd, a, Bin(OpAnd, x, y));
    Descend(OpAnd, t, [], false); Descend(OpAnd, t, [], true);
    assert [] + p == p && [] + q == q;
    Descend(OpAnd, t, q, false); Descend(OpAnd, t, q, true);
  }

  /** In (f || b) && (!f && !b) the right operand is found to contradict the left one, but neither half of it. */
  lemma WitnessSteps(f: Expr, b: Expr, p: Path, q: Path)
    requires f.Symbol? && b.Symbol? && f != b && !f.sym.IsBuiltin() && !b.sym.IsBuiltin()
    requires p == [false] && q == [true]
    ensures var a, n := Bin(OpOr, f, b), Bin(OpAnd, Not(f), Not(b));
            var t, t' := Bin(OpAnd, a, n), Bin(OpAnd, Symbol(NoSym), n);
            && InTree(OpAnd, t, p) && InTree(OpAnd, t, q) && At(OpAnd, t, p) == a && At(OpAnd, t, q) == n
            && InTree(OpAnd, t', p) && InTree(OpAnd, t', q)
            && Dups2(OpAnd, t, p, q) == (t', 1)
  {
    var a, n := Bin(OpOr, f, b), Bin(OpAnd, Not(f), Not(b));
    var t := Bin(OpAnd, a, n);
    WitnessTree(a, Not(f), Not(b), p, q);
    WitnessTree(Symbol(NoSym), Not(f), Not(b), p, q);
    AtomsConsistent(OpOr, a, [], []);
    WitnessExtract(f, b);
    ContradictOnce(OpAnd, t, p, q + [false]); ContradictOnce(OpAnd, t, p, q + [true]); ContradictOnce(OpAnd, t, p, q);
  }

  /** Compared with the whole tree the left operand is replaced once. */
  lemma WitnessLeft(f: Expr, b: Expr, root: Path, p: Path, q: Path)
    requires f.Symbol? && b.Symbol? && f != b && !f.sym.IsBuiltin() && !b.sym.IsBuiltin()
    requires root == [] && p == [false] && q == [true]
    ensures var n := Bin(OpAnd, Not(f), Not(b));
            var t := Bin(OpAnd, Bin(OpOr, f, b), n);
            InTree(OpAnd, t, p) && Dups2(OpAnd, t, p, root) == (Bin(OpAnd, Symbol(NoSym), n), 1)
  {
    var a, n := Bin(OpOr, f, b), Bin(OpAnd, Not(f), Not(b));
    var t, t' := Bin(OpAnd, a, n), Bin(OpAnd, Symbol(NoSym), n);
    assert root + [false] == p && root + [true] == q;
    WitnessSteps(f, b, p, q);
    assert Dups2(OpAnd, t, p, p) == (t, 0);
    ContradictOnce(OpAnd, t', p, root);
  }

  /** The pass over (f || b) && (!f && !b) replaces the first operand with n and nothing else. */
  lemma WitnessRound(f: Expr, b: Expr)
    requires f.Symbol? && b.Symbol? && f != b && !f.sym.IsBuiltin() && !b.sym.IsBuiltin()
    ensures var n := Bin(OpAnd, Not(f), Not(b));
            DupsRound(Bin(OpAnd, Bin(OpOr, f, b), n)) == (Bin(OpAnd, Symbol(NoSym), n), 1)
  {
    var n := Bin(OpAnd, Not(f), Not(b));
    var t' := Bin(OpAnd, Symbol(NoSym), n);
    WitnessJoinless(f, b);
    var root: Path, p: Path, q: Path := [], [false], [true];
    assert root + [false] == p && root + [true] == q;
    WitnessLeft(f, b, root, p, q);
    AtomsConsistent(OpAnd, t', q, root);
  }

  /** What (f || b) is contradicted by. */
  lemma WitnessExtract(f: Expr, b: Expr)
    requires f.Symbol? && b.Symbol? && f != b && !f.sym.IsBuiltin() && !b.sym.IsBuiltin()
    ensures var a, n := Bin(OpOr, f, b), Bin(OpAnd, Not(f), Not(b));
            !Contradicts(OpAnd, a, Not(f)) && !Contradicts(OpAnd, a, Not(b)) && Contradicts(OpAnd, a, n)
  {
    var a, n := Bin(OpOr, f, b), Bin(OpAnd, Not(f), Not(b));
    NnfFixed(a); NnfFixed(n);
    assert Transform(Not(a)) == Transform(Negated(OpOr, f, b)) == n;
    assert !ExprEq(f, b) && !ExprEq(b, f) && ExprEq(f, f) && ExprEq(b, b);
    TwoOperandsExtract(Not(f), Not(b));
  }

  /** What is left of x && y beside one of the two, and beside both. */
  lemma TwoOperandsExtract(x: Expr, y: Expr)
    requires x.Not? && y.Not? && !ExprEq(x, y) && !ExprEq(y, x) && ExprEq(x, x) && ExprEq(y, y)
    ensures var n := Bin(OpAnd, x, y);
            ExtractEq(OpAnd, n, x).1 == y && ExtractEq(OpAnd, n, y).1 == x && IsYes(ExtractEq(OpAnd, n, n).1)
  {
    var n, u := Bin(OpAnd, x, y), UnitExpr(OpAnd);
    OperandsExtract(None, x, x); OperandsExtract(None, x, y); OperandsExtract(None, y, y);
    OperandsExtract(Some(x), y, u); OperandsExtract(Some(x), y, y);
    assert ExtractTerms(OpAnd, None, n, x) == (Some(x), Bin(OpAnd, u, y), u);
    assert ExtractTerms(OpAnd, None, n, y) == (Some(y), Bin(OpAnd, x, u), u);
    OperandsExtract(Some(x), u, y);
    assert EliminateYn(x) == x && EliminateYn(y) == y && EliminateYn(u) == u;
    assert EliminateYn(Bin(OpAnd, x, u)) == x && IsYes(EliminateYn(Bin(OpAnd, u, u)));
    assert ExtractTerms(OpAnd, None, x, n) == (Some(x), u, Bin(OpAnd, u, y));
    assert ExtractTerms(OpAnd, Some(x), y, Bin(OpAnd, u, y)) == (Some(n), u, Bin(OpAnd, u, u));
    assert ExtractTerms(OpAnd, None, n, n).1 == Bin(OpAnd, u, u);
  }

  lemma OperandsExtract(acc: Option<Expr>, x: Expr, y: Expr)
    requires !x.Bin? && !y.Bin?
    ensures ExtractTerms(OpAnd, acc, x, y) ==
              if ExprEq(x, y)
              then (Some(if acc.Some? then Bin(OpAnd, acc.value, x) else x), Symbol(YesSym), Symbol(YesSym))
              else (acc, x, y)
    ensures x.Symbol? && y.Not? ==> !ExprEq(x, y) && !ExprEq(y, x)
  {
  }

  /**
   * What a count of replacements says about a pass from t to r.0: none means that nothing changed, and any leaves
   * a y or n operand behind. Such operands are never lost.
   */
  predicate Counted(t: Expr, r: (Expr, nat)) {
    && (r.1 == 0 ==> r.0 == t)
    && (r.1 > 0 || HasYnOperand(t) ==> HasYnOperand(r.0))
  }

  lemma CountedTrans(t: Expr, r1: (Expr, nat), r2: (Expr, nat))
    requires Counted(t, r1) && Counted(r1.0, r2)
    ensures Counted(t, (r2.0, r1.1 + r2.1))
  {
  }

  /** A counted change of one operand is a counted change of the tree. */
  lemma CountedPut(op: Op, t: Expr, p: Path, r: (Expr, nat))
    requires InTree(op, t, p) && p != [] && Counted(At(op, t, p), r) && (IsYn(At(op, t, p)) ==> IsYn(r.0))
    ensures Counted(t, (Put(op, t, p, r.0), r.1))
  {
    PutSame(op, t, p);
    if HasYnOperand(t) { PutKeepsYn(op, t, p, r.0); }
    if HasYnOperand(r.0) { YnSlot(op, Put(op, t, p, r.0), p); }
  }

  lemma {:induction false} Dups1Counted(op: Op, t: Expr, p: Path, q: Path)
    requires InTree(op, t, p) && InTree(op, t, q)
    ensures Counted(t, Dups1(op, t, p, q))
    decreases Size(t), 1, Spine(op, At(op, t, p)) + Spine(op, At(op, t, q)), 1
  {
    var a, b := At(op, t, p), At(op, t, q);
    if IsOp(op, a) {
      Descend(op, t, p, false);
      var r1 := Dups1(op, t, p + [false], q);
      Dups1Counted(op, t, p + [false], q);
      Descend(op, t, p, true); SameSpineAt(op, t, r1.0, p + [true]); SameSpineAt(op, t, r1.0, q);
      Dups1Counted(op, r1.0, p + [true], q);
      CountedTrans(t, r1, Dups1(op, r1.0, p + [true], q));
    } else if IsOp(op, b) {
      Descend(op, t, q, false);
      var r1 := Dups1(op, t, p, q + [false]);
      Dups1Counted(op, t, p, q + [false]);
      Descend(op, t, q, true); SameSpineAt(op, t, r1.0, q + [true]); SameSpineAt(op, t, r1.0, p);
      Dups1Counted(op, r1.0, p, q + [true]);
      CountedTrans(t, r1, Dups1(op, r1.0, p, q + [true]));
    } else {
      Dups1PairCounted(op, t, p, q);
    }
  }

  lemma {:induction false} Dups1PairCounted(op: Op, t: Expr, p: Path, q: Path)
    requires InTree(op, t, p) && InTree(op, t, q) && !IsOp(op, At(op, t, p)) && !IsOp(op, At(op, t, q))
    ensures Counted(t, Dups1(op, t, p, q))
    decreases Size(t), 1, 0, 0
  {
    if p != q {
      var a, b := At(op, t, p), At(op, t, q);
      OperandsApart(op, t, p, q);
      var r1 := Inner1(op, t, p);
      SlotSmaller(op, t, p);
      if a.Bin? {
        Dups1Counted(a.op, a, [], []);
      }
      CountedPut(op, t, p, r1);
      PutApart(op, t, p, q, r1.0);
      if Join(op, r1.0, b).Some? {
        JoinedCounted(op, Put(op, t, p, r1.0), p, q, Join(op, r1.0, b).value);
      }
    }
  }

  /** After a join the first slot holds a y or an n. */
  lemma JoinedCounted(op: Op, t: Expr, p: Path, q: Path, j: Expr)
    requires InTree(op, t, p) && InTree(op, t, q) && Apart(p, q)
    ensures InTree(op, Put(op, t, p, UnitExpr(op)), q)
    ensures HasYnOperand(Put(op, Put(op, t, p, UnitExpr(op)), q, j))
  {
    PutApart(op, t, p, q, UnitExpr(op));
    var t2 := Put(op, t, p, UnitExpr(op));
    ApartSymmetric(p, q);
    PutApart(op, t2, q, p, j);
    YnSlot(op, Put(op, t2, q, j), p);
  }

  lemma {:induction false} ApartSymmetric(p: Path, q: Path)
    requires Apart(p, q)
    ensures Apart(q, p)
  {
    if p[0] == q[0] {
      ApartSymmetric(p[1..], q[1..]);
    }
  }

  lemma {:induction false} Dups2Counted(op: Op, t: Expr, p: Path, q: Path)
    requires InTree(op, t, p) && InTree(op, t, q)
    ensures Counted(t, Dups2(op, t, p, q))
    decreases Size(t), 1, Spine(op, At(op, t, p)) + Spine(op, At(op, t, q))
  {
    var a, b := At(op, t, p), At(op, t, q);
    if IsOp(op, a) {
      Descend(op, t, p, false);
      var r1 := Dups2(op, t, p + [false], q);
      Dups2Counted(op, t, p + [false], q);
      Descend(op, t, p, true); SameSpineAt(op, t, r1.0, p + [true]); SameSpineAt(op, t, r1.0, q);
      Dups2Counted(op, r1.0, p + [true], q);
      CountedTrans(t, r1, Dups2(op, r1.0, p + [true], q));
    } else if IsOp(op, b) {
      Descend(op, t, q, false);
      var r1 := Dups2(op, t, p, q + [false]);
      Dups2Counted(op, t, p, q + [false]);
      Descend(op, t, q, true); SameSpineAt(op, t, r1.0, q + [true]); SameSpineAt(op, t, r1.0, p);
      var r2 := Dups2(op, r1.0, p, q + [true]);
      Dups2Counted(op, r1.0, p, q + [true]);
      CountedTrans(t, r1, r2);
      SameSpineTrans(op, t, r1.0, r2.0); SameSpineAt(op, t, r2.0, p); SameSpineAt(op, t, r2.0, q);
      ContradictCounted(op, r2.0, p, q);
      CountedTrans(t, (r2.0, r1.1 + r2.1), Contradict(op, r2.0, p, q));
    } else {
      ContradictCounted(op, t, p, q);
    }
  }

  lemma {:induction false} ContradictCounted(op: Op, t: Expr, p: Path, q: Path)
    requires InTree(op, t, p) && InTree(op, t, q) && !IsOp(op, At(op, t, p))
    ensures Counted(t, Contradict(op, t, p, q))
    decreases Size(t), 0, 1
  {
    if p != q {
      var a := At(op, t, p);
      var r1 := Inner2(op, t, p);
      var t1 := Put(op, t, p, r1.0);
      SlotSmaller(op, t, p);
      if a.Bin? {
        Dups2Counted(a.op, a, [], []);
      }
      CountedPut(op, t, p, r1);
      SameSpineRefl(op, t); PutSpine(op, t, p, r1.0); SameSpineAt(op, t, t1, q);
      YnSlot(op, Put(op, t1, p, UnitExpr(op.Dual())), p);
    }
  }

  /** A round that replaced something, followed by the removal of y and n operands, shrinks the expression. */
  lemma RoundShrinks(e: Expr)
    ensures Counted(e, DupsRound(e))
    ensures DupsRound(e).1 > 0 ==> Size(EliminateYn(DupsRound(e).0)) < Size(e)
  {
    if e.Bin? {
      var r1 := Dups1(e.op, e, [], []);
      Dups1Counted(e.op, e, [], []);
      Dups2Counted(e.op, r1.0, [], []);
      CountedTrans(e, r1, Dups2(e.op, r1.0, [], []));
    }
    EliminateYnShrinks(DupsRound(e).0);
  }

  /** Rounds until one replaces nothing. */
  function EliminateDups(e: Expr): Expr
    decreases Size(e)
  {
    var r := DupsRound(e);
    if r.1 == 0 then r.0
    else
      RoundShrinks(e);
      EliminateDups(EliminateYn(r.0))
  }

  lemma WitnessEliminated(f: Expr, b: Expr)
    requires f.Symbol? && b.Symbol? && f != b && !f.sym.IsBuiltin() && !b.sym.IsBuiltin()
    ensures EliminateDups(Bin(OpAnd, Bin(OpOr, f, b), Bin(OpAnd, Not(f), Not(b)))) == Symbol(NoSym)
  {
    WitnessRound(f, b);
    assert EliminateYn(Bin(OpAnd, Symbol(NoSym), Bin(OpAnd, Not(f), Not(b)))) == Symbol(NoSym);
    assert EliminateDups(Symbol(NoSym)) == Symbol(NoSym);
  }

  /** With F = m and B = n, elimination turns (F || B) && !F && !B from m into n. */
  lemma ExcludedMiddleWitness(v: Valuation)
    requires v.tri(NamedSym("F", SymType.Tristate)) == MOD && v.tri(NamedSym("B", SymType.Tristate)) == NO
    ensures var f, b := Symbol(NamedSym("F", SymType.Tristate)), Symbol(NamedSym("B", SymType.Tristate));
            var e := Bin(OpAnd, Bin(OpOr, f, b), Bin(OpAnd, Not(f), Not(b)));
            Eval(e, v) == MOD && Eval(EliminateDups(e), v) == NO
  {
    assert "F"[0] != "B"[0];
    WitnessSettled(NamedSym("F", SymType.Tristate), NamedSym("B", SymType.Tristate), v);
  }

  lemma WitnessSettled(s: Sym, t: Sym, v: Valuation)
    requires s != t && !s.IsBuiltin() && !t.IsBuiltin() && SymTri(v, s) == MOD && SymTri(v, t) == NO
    ensures var f, b := Symbol(s), Symbol(t);
            var e := Bin(OpAnd, Bin(OpOr, f, b), Bin(OpAnd, Not(f), Not(b)));
            Eval(e, v) == MOD && Eval(EliminateDups(e), v) == NO
  {
    WitnessEliminated(Symbol(s), Symbol(t));
    WitnessValue(Symbol(s), Symbol(t), v);
  }

  lemma WitnessValue(f: Expr, b: Expr, v: Valuation)
    requires Eval(f, v) == MOD && Eval(b, v) == NO
    ensures Eval(Bin(OpAnd, Bin(OpOr, f, b), Bin(OpAnd, Not(f), Not(b))), v) == MOD
  {
    assert Eval(Bin(OpOr, f, b), v) == MOD && Eval(Not(f), v) == MOD && Eval(Not(b), v) == YES;
    assert Eval(Bin(OpAnd, Not(f), Not(b)), v) == MOD;
  }

  lemma RoundSettles(e: Expr, v: Valuation)
    ensures Settles(Eval(e, v), Eval(DupsRound(e).0, v))
  {
    if e.Bin? {
      var r1 := Dups1(e.op, e, [], []);
      Dups1Exact(e.op, e, [], [], v);
      Dups2Settles(e.op, r1.0, [], [], v);
    }
  }

  /** In every valuation, three-valued or not, a value other than m survives. */
  lemma {:induction false} EliminateDupsSettles(e: Expr, v: Valuation)
    ensures Settles(Eval(e, v), Eval(EliminateDups(e), v))
    decreases Size(e)
  {
    var r := DupsRound(e);
    RoundSettles(e, v);
    if r.1 > 0 {
      RoundShrinks(e);
      EliminateYnExact(r.0, v);
      EliminateDupsSettles(EliminateYn(r.0), v);
    }
  }

  /** No round finds a contradiction. */
  predicate FindsNone(e: Expr)
    decreases Size(e)
  {
    var r := DupsRound(e);
    && (e.Bin? ==> Dups2(e.op, Dups1(e.op, e, [], []).0, [], []).1 == 0)
    && (r.1 == 0 ||
        (RoundShrinks(e);
         FindsNone(EliminateYn(r.0))))
  }

  /** Then every value survives, m as well. */
  lemma {:induction false} EliminateDupsSame(e: Expr, v: Valuation)
    requires FindsNone(e)
    ensures Eval(EliminateDups(e), v) == Eval(e, v)
    decreases Size(e)
  {
    var r := DupsRound(e);
    if e.Bin? {
      var r1 := Dups1(e.op, e, [], []);
      Dups1Exact(e.op, e, [], [], v);
      Dups2Counted(e.op, r1.0, [], []);
    }
    if r.1 > 0 {
      RoundShrinks(e);
      EliminateYnExact(r.0, v);
      EliminateDupsSame(EliminateYn(r.0), v);
    }
  }

  /** Without m, neither as a symbol's value nor as an operand, the value is always kept. */
  lemma EliminateDupsExact(e: Expr, v: Valuation)
    requires TwoValued(v) && NoBareMod(e)
    ensures Eval(EliminateDups(e), v) == Eval(e, v)
  {
    TwoValuedEval(e, v);
    EliminateDupsSettles(e, v);
  }

  /** The result is a fixpoint: no round would change it, so eliminating again returns it. */
  lemma {:induction false} EliminateDupsFixpoint(e: Expr)
    ensures DupsRound(EliminateDups(e)) == (EliminateDups(e), 0)
    ensures EliminateDups(EliminateDups(e)) == EliminateDups(e)
    ensures Size(EliminateDups(e)) <= Size(e)
    decreases Size(e)
  {
    RoundShrinks(e);
    var r := DupsRound(e);
    if r.1 > 0 {
      EliminateDupsFixpoint(EliminateYn(r.0));
    }
  }

  /** If a pass replaced nothing, neither did its two halves. */
  lemma Dups1Halves(op: Op, t: Expr, p: Path, q: Path, b: bool)
    requires InTree(op, t, p) && InTree(op, t, q) && Dups1(op, t, p, q).1 == 0
    ensures IsOp(op, At(op, t, p)) ==> InTree(op, t, p + [b]) && Dups1(op, t, p + [b], q).1 == 0
    ensures !IsOp(op, At(op, t, p)) && IsOp(op, At(op, t, q)) ==>
              InTree(op, t, q + [b]) && Dups1(op, t, p, q + [b]).1 == 0
  {
    assert [b] == [true] || [b] == [false];
    if IsOp(op, At(op, t, p)) {
      Descend(op, t, p, false); Descend(op, t, p, true);
      Dups1Counted(op, t, p + [false], q);
    } else if IsOp(op, At(op, t, q)) {
      Descend(op, t, q, false); Descend(op, t, q, true);
      Dups1Counted(op, t, p, q + [false]);
    }
  }

  /** A pass over what is below p and q that replaced nothing found no pair of operands u, w there to join. */
  lemma {:induction false} Dups1Complete(op: Op, t: Expr, p: Path, q: Path, u: Path, w: Path)
    requires InTree(op, t, p) && InTree(op, t, q) && Dups1(op, t, p, q).1 == 0
    requires p <= u && InTree(op, t, u) && !IsOp(op, At(op, t, u))
    requires q <= w && InTree(op, t, w) && !IsOp(op, At(op, t, w)) && u != w
    ensures Join(op, At(op, t, u), At(op, t, w)).None?
    ensures var a := At(op, t, u); a.Bin? ==> Dups1(a.op, a, [], []).1 == 0
    decreases |u| - |p| + |w| - |q|
  {
    if IsOp(op, At(op, t, p)) {
      BelowChild(p, u);
      Dups1Halves(op, t, p, q, u[|p|]);
      Dups1Complete(op, t, p + [u[|p|]], q, u, w);
    } else {
      OperandEnds(op, t, p, u);
      if IsOp(op, At(op, t, q)) {
        BelowChild(q, w);
        Dups1Halves(op, t, p, q, w[|q|]);
        Dups1Complete(op, t, p, q + [w[|q|]], u, w);
      } else {
        OperandEnds(op, t, q, w);
        Dups1PairComplete(op, t, p, q);
      }
    }
  }

  lemma Dups1PairComplete(op: Op, t: Expr, p: Path, q: Path)
    requires InTree(op, t, p) && InTree(op, t, q) && Dups1(op, t, p, q).1 == 0 && p != q
    requires !IsOp(op, At(op, t, p)) && !IsOp(op, At(op, t, q))
    ensures Join(op, At(op, t, p), At(op, t, q)).None?
    ensures var a := At(op, t, p); a.Bin? ==> Dups1(a.op, a, [], []).1 == 0
  {
    var a := At(op, t, p);
    OperandsApart(op, t, p, q);
    SlotSmaller(op, t, p);
    if a.Bin? { Dups1Counted(a.op, a, [], []); }
    assert Inner1(op, t, p).1 == 0;
  }

  /** Below an operand of the tree there are no further slots. */
  lemma {:induction false} OperandEnds(op: Op, t: Expr, p: Path, u: Path)
    requires p <= u && InTree(op, t, u) && InTree(op, t, p) && !IsOp(op, At(op, t, p))
    ensures u == p
  {
    if p != [] {
      OperandEnds(op, Child(t, p[0]), p[1..], u[1..]);
      assert p == [p[0]] + p[1..] && u == [u[0]] + u[1..];
    }
  }

  /** If a pass replaced nothing, neither did its halves nor the comparison with the tree as a whole. */
  lemma Dups2Halves(op: Op, t: Expr, p: Path, q: Path, b: bool)
    requires InTree(op, t, p) && InTree(op, t, q) && Dups2(op, t, p, q).1 == 0
    ensures IsOp(op, At(op, t, p)) ==> InTree(op, t, p + [b]) && Dups2(op, t, p + [b], q).1 == 0
    ensures !IsOp(op, At(op, t, p)) && IsOp(op, At(op, t, q)) ==>
              InTree(op, t, q + [b]) && Dups2(op, t, p, q + [b]).1 == 0
    ensures !IsOp(op, At(op, t, p)) ==> Contradict(op, t, p, q).1 == 0
  {
    assert [b] == [true] || [b] == [false];
    if IsOp(op, At(op, t, p)) {
      Descend(op, t, p, false); Descend(op, t, p, true);
      Dups2Counted(op, t, p + [false], q);
    } else if IsOp(op, At(op, t, q)) {
      Descend(op, t, q, false); Descend(op, t, q, true);
      Dups2Counted(op, t, p, q + [false]);
      Dups2Counted(op, t, p, q + [true]);
    }
  }

  /** A pass that replaced nothing found no operand u contradicted by another operand or by a subtree around it. */
  lemma {:induction false} Dups2Complete(op: Op, t: Expr, p: Path, q: Path, u: Path, w: Path)
    requires InTree(op, t, p) && InTree(op, t, q) && Dups2(op, t, p, q).1 == 0
    requires p <= u && InTree(op, t, u) && At(op, t, u).Bin? && !IsOp(op, At(op, t, u))
    requires q <= w && InTree(op, t, w) && u != w
    ensures !Contradicts(op, At(op, t, u), At(op, t, w))
    ensures var a := At(op, t, u); Dups2(a.op, a, [], []).1 == 0
    decreases |u| - |p| + |w| - |q|
  {
    if IsOp(op, At(op, t, p)) {
      BelowChild(p, u);
      Dups2Halves(op, t, p, q, u[|p|]);
      Dups2Complete(op, t, p + [u[|p|]], q, u, w);
    } else {
      OperandEnds(op, t, p, u);
      if w == q {
        Dups2Halves(op, t, p, q, false);
        ContradictComplete(op, t, p, q);
      } else if IsOp(op, At(op, t, q)) {
        BelowChild(q, w);
        Dups2Halves(op, t, p, q, w[|q|]);
        Dups2Complete(op, t, p, q + [w[|q|]], u, w);
      } else {
        OperandEnds(op, t, q, w);
      }
    }
  }

  lemma ContradictComplete(op: Op, t: Expr, p: Path, q: Path)
    requires InTree(op, t, p) && InTree(op, t, q) && p != q
    requires At(op, t, p).Bin? && !IsOp(op, At(op, t, p)) && Contradict(op, t, p, q).1 == 0
    ensures !Contradicts(op, At(op, t, p), At(op, t, q))
    ensures var a := At(op, t, p); Dups2(a.op, a, [], []).1 == 0
  {
    var a := At(op, t, p);
    SlotSmaller(op, t, p);
    Dups2Counted(a.op, a, [], []);
    PutSame(op, t, p);
  }

  /** In what elimination leaves, no two operands of the tree can be joined. */
  lemma EliminateDupsJoined(e: Expr, p: Path, q: Path)
    requires EliminateDups(e).Bin?
    requires var r := EliminateDups(e); InTree(r.op, r, p) && !IsOp(r.op, At(r.op, r, p))
    requires var r := EliminateDups(e); InTree(r.op, r, q) && !IsOp(r.op, At(r.op, r, q)) && p != q
    ensures var r := EliminateDups(e); Join(r.op, At(r.op, r, p), At(r.op, r, q)).None?
  {
    var r := EliminateDups(e);
    EliminateDupsFixpoint(e);
    Dups1Counted(r.op, r, [], []);
    Dups1Complete(r.op, r, [], [], p, q);
  }

  /** And no operand is contradicted by another slot of the tree, be it an operand or a subtree around it. */
  lemma EliminateDupsConsistent(e: Expr, p: Path, q: Path)
    requires EliminateDups(e).Bin?
    requires var r := EliminateDups(e);
             InTree(r.op, r, p) && At(r.op, r, p).Bin? && !IsOp(r.op, At(r.op, r, p))
    requires var r := EliminateDups(e); InTree(r.op, r, q) && p != q
    ensures var r := EliminateDups(e); !Contradicts(r.op, At(r.op, r, p), At(r.op, r, q))
  {
    var r := EliminateDups(e);
    EliminateDupsFixpoint(e);
    Dups1Counted(r.op, r, [], []);
    Dups2Complete(r.op, r, [], [], p, q);
  }

  /** A property of expressions that depends on their operands only and that joining two operands keeps. */
  ghost predicate Kept(P: Expr -> bool) {
    && P(Symbol(YesSym)) && P(Symbol(NoSym))
    && (forall op, l, r :: P(Bin(op, l, r)) <==> P(l) && P(r))
    && (forall op, a, b :: P(a) && P(b) && Join(op, a, b).Some? ==> P(Join(op, a, b).value))
  }

  lemma {:induction false} KeptAt(P: Expr -> bool, op: Op, t: Expr, p: Path)
    requires Kept(P) && P(t) && InTree(op, t, p)
    ensures P(At(op, t, p))
  {
    if p != [] {
      assert t == Bin(op, t.left, t.right);
      KeptAt(P, op, Child(t, p[0]), p[1..]);
    }
  }

  lemma {:induction false} KeptPut(P: Expr -> bool, op: Op, t: Expr, p: Path, x: Expr)
    requires Kept(P) && P(t) && InTree(op, t, p) && P(x)
    ensures P(Put(op, t, p, x))
  {
    if p != [] {
      assert t == Bin(op, t.left, t.right);
      KeptPut(P, op, Child(t, p[0]), p[1..], x);
    }
  }

  lemma {:induction false} KeptYn(P: Expr -> bool, e: Expr)
    requires Kept(P) && P(e)
    ensures P(EliminateYn(e))
  {
    if e.Bin? {
      assert e == Bin(e.op, e.left, e.right);
      KeptYn(P, e.left);
      KeptYn(P, e.right);
    }
  }

  lemma {:induction false} Dups1Keeps(P: Expr -> bool, op: Op, t: Expr, p: Path, q: Path)
    requires Kept(P) && P(t) && InTree(op, t, p) && InTree(op, t, q)
    ensures P(Dups1(op, t, p, q).0)
    decreases Size(t), 1, Spine(op, At(op, t, p)) + Spine(op, At(op, t, q)), 1
  {
    var a, b := At(op, t, p), At(op, t, q);
    if IsOp(op, a) {
      Descend(op, t, p, false);
      var r1 := Dups1(op, t, p + [false], q);
      Dups1Keeps(P, op, t, p + [false], q);
      Descend(op, t, p, true); SameSpineAt(op, t, r1.0, p + [true]); SameSpineAt(op, t, r1.0, q);
      Dups1Keeps(P, op, r1.0, p + [true], q);
    } else if IsOp(op, b) {
      Descend(op, t, q, false);
      var r1 := Dups1(op, t, p, q + [false]);
      Dups1Keeps(P, op, t, p, q + [false]);
      Descend(op, t, q, true); SameSpineAt(op, t, r1.0, q + [true]); SameSpineAt(op, t, r1.0, p);
      Dups1Keeps(P, op, r1.0, p, q + [true]);
    } else {
      Dups1PairKeeps(P, op, t, p, q);
    }
  }

  lemma {:induction false} Dups1PairKeeps(P: Expr -> bool, op: Op, t: Expr, p: Path, q: Path)
    requires Kept(P) && P(t) && InTree(op, t, p) && InTree(op, t, q)
    requires !IsOp(op, At(op, t, p)) && !IsOp(op, At(op, t, q))
    ensures P(Dups1(op, t, p, q).0)
    decreases Size(t), 1, 0, 0
  {
    if p != q {
      var a, b := At(op, t, p), At(op, t, q);
      OperandsApart(op, t, p, q);
      var r1 := Inner1(op, t, p);
      var t1 := Put(op, t, p, r1.0);
      SlotSmaller(op, t, p);
      KeptAt(P, op, t, p); KeptAt(P, op, t, q);
      if a.Bin? {
        Dups1Keeps(P, a.op, a, [], []);
      }
      KeptPut(P, op, t, p, r1.0);
      PutApart(op, t, p, q, r1.0);
      var j := Join(op, r1.0, b);
      if j.Some? {
        PutApart(op, t1, p, q, UnitExpr(op));
        KeptPut(P, op, t1, p, UnitExpr(op));
        KeptPut(P, op, Put(op, t1, p, UnitExpr(op)), q, j.value);
      }
    }
  }

  lemma {:induction false} Dups2Keeps(P: Expr -> bool, op: Op, t: Expr, p: Path, q: Path)
    requires Kept(P) && P(t) && InTree(op, t, p) && InTree(op, t, q)
    ensures P(Dups2(op, t, p, q).0)
    decreases Size(t), 1, Spine(op, At(op, t, p)) + Spine(op, At(op, t, q))
  {
    var a, b := At(op, t, p), At(op, t, q);
    if IsOp(op, a) {
      Descend(op, t, p, false);
      var r1 := Dups2(op, t, p + [false], q);
      Dups2Keeps(P, op, t, p + [false], q);
      Descend(op, t, p, true); SameSpineAt(op, t, r1.0, p + [true]); SameSpineAt(op, t, r1.0, q);
      Dups2Keeps(P, op, r1.0, p + [true], q);
    } else if IsOp(op, b) {
      Descend(op, t, q, false);
      var r1 := Dups2(op, t, p, q + [false]);
      Dups2Keeps(P, op, t, p, q + [false]);
      Descend(op, t, q, true); SameSpineAt(op, t, r1.0, q + [true]); SameSpineAt(op, t, r1.0, p);
      var r2 := Dups2(op, r1.0, p, q + [true]);
      Dups2Keeps(P, op, r1.0, p, q + [true]);
      SameSpineTrans(op, t, r1.0, r2.0); SameSpineAt(op, t, r2.0, p); SameSpineAt(op, t, r2.0, q);
      ContradictKeeps(P, op, r2.0, p, q);
    } else {
      ContradictKeeps(P, op, t, p, q);
    }
  }

  lemma {:induction false} ContradictKeeps(P: Expr -> bool, op: Op, t: Expr, p: Path, q: Path)
    requires Kept(P) && P(t) && InTree(op, t, p) && InTree(op, t, q) && !IsOp(op, At(op, t, p))
    ensures P(Contradict(op, t, p, q).0)
    decreases Size(t), 0, 1
  {
    if p != q {
      var a := At(op, t, p);
      var r1 := Inner2(op, t, p);
      SlotSmaller(op, t, p);
      KeptAt(P, op, t, p);
      if a.Bin? {
        Dups2Keeps(P, a.op, a, [], []);
      }
      KeptPut(P, op, t, p, r1.0);
      KeptPut(P, op, Put(op, t, p, r1.0), p, UnitExpr(op.Dual()));
    }
  }

  /** Elimination keeps every such property. */
  lemma {:induction false} EliminateDupsKeeps(P: Expr -> bool, e: Expr)
    requires Kept(P) && P(e)
    ensures P(EliminateDups(e))
    decreases Size(e)
  {
    var r := DupsRound(e);
    if e.Bin? {
      Dups1Keeps(P, e.op, e, [], []);
      Dups2Keeps(P, e.op, Dups1(e.op, e, [], []).0, [], []);
    }
    if r.1 > 0 {
      RoundShrinks(e);
      KeptYn(P, r.0);
      EliminateDupsKeeps(P, EliminateYn(r.0));
    }
  }

  lemma JoinNnf(op: Op, a: Expr, b: Expr)
    requires Nnf(a) && Nnf(b) && Join(op, a, b).Some?
    ensures Nnf(Join(op, a, b).value)
  {
  }

  /** Negation normal form survives elimination. */
  lemma EliminateDupsNnf(e: Expr)
    requires Nnf(e)
    ensures Nnf(EliminateDups(e))
  {
    var P := x => Nnf(x);
    forall op, a, b | P(a) && P(b) && Join(op, a, b).Some? ensures P(Join(op, a, b).value) {
      JoinNnf(op, a, b);
    }
    EliminateDupsKeeps(P, e);
  }

  lemma JoinNoBareMod(op: Op, a: Expr, b: Expr)
    requires NoBareMod(a) && NoBareMod(b) && Join(op, a, b).Some?
    ensures NoBareMod(Join(op, a, b).value)
  {
  }

  /** No operand m appears. */
  lemma EliminateDupsNoBareMod(e: Expr)
    requires NoBareMod(e)
    ensures NoBareMod(EliminateDups(e))
  {
    var P := x => NoBareMod(x);
    forall op, a, b | P(a) && P(b) && Join(op, a, b).Some? ensures P(Join(op, a, b).value) {
      JoinNoBareMod(op, a, b);
    }
    EliminateDupsKeeps(P, e);
  }
}
