/** The eliminators as they run: updating the tree slot by slot and counting in `trans_count`. */
module Rewriter {
  import opened Options
  import opened Tristate
  import opened Expressions
  import opened Equality
  import opened Joins
  import opened NormalForm
  import opened Extraction
  import opened Slots
  import opened Duplicates

  class ExprRewriter {
    /** The file-level counter `trans_count`. */
    var transCount: nat

    constructor ()
      ensures transCount == 0
    {
      transCount := 0;
    }

    /** Both pointers point into t; the new contents of the tree is returned. */
    method EliminateDups1(op: Op, t: Expr, p: Path, q: Path) returns (t': Expr)
      requires InTree(op, t, p) && InTree(op, t, q)
      modifies this`transCount
      ensures t' == Dups1(op, t, p, q).0
      ensures transCount == old(transCount) + Dups1(op, t, p, q).1
      decreases Size(t), 1, Spine(op, At(op, t, p)) + Spine(op, At(op, t, q)), 1
    {
      t' := t;
      if IsOp(op, At(op, t, p)) {
        Descend(op, t, p, false); Descend(op, t, p, true);
        t' := EliminateDups1(op, t', p + [false], q);
        SameSpineAt(op, t, t', p + [true]); SameSpineAt(op, t, t', q);
        t' := EliminateDups1(op, t', p + [true], q);
        return;
      }
      if IsOp(op, At(op, t, q)) {
        Descend(op, t, q, false); Descend(op, t, q, true);
        t' := EliminateDups1(op, t', p, q + [false]);
        SameSpineAt(op, t, t', q + [true]); SameSpineAt(op, t, t', p);
        t' := EliminateDups1(op, t', p, q + [true]);
        return;
      }
      t' := EliminatePair(op, t, p, q);
    }

    /** The rest of the step, for an operand at p and one at q. */
    method EliminatePair(op: Op, t: Expr, p: Path, q: Path) returns (t': Expr)
      requires InTree(op, t, p) && InTree(op, t, q) && !IsOp(op, At(op, t, p)) && !IsOp(op, At(op, t, q))
      modifies this`transCount
      ensures t' == Dups1(op, t, p, q).0
      ensures transCount == old(transCount) + Dups1(op, t, p, q).1
      decreases Size(t), 1, 0, 0
    {
      t' := t;
      if p == q {
        return;
      }
      OperandsApart(op, t, p, q);
      SlotSmaller(op, t, p);
      var a := At(op, t, p);
      PutSame(op, t, p);
      if a.Bin? {
        a := EliminateDups1(a.op, a, [], []);
        t' := Put(op, t', p, a);
      }
      PutApart(op, t, p, q, a);
      var tmp := Join(op, a, At(op, t', q));
      if tmp.Some? {
        PutApart(op, t', p, q, UnitExpr(op));
        t' := Put(op, t', p, UnitExpr(op));
        t' := Put(op, t', q, tmp.value);
        transCount := transCount + 1;
      }
    }

    method EliminateDups2(op: Op, t: Expr, p: Path, q: Path) returns (t': Expr)
      requires InTree(op, t, p) && InTree(op, t, q)
      modifies this`transCount
      ensures t' == Dups2(op, t, p, q).0
      ensures transCount == old(transCount) + Dups2(op, t, p, q).1
      decreases Size(t), 1, Spine(op, At(op, t, p)) + Spine(op, At(op, t, q))
    {
      t' := t;
      if IsOp(op, At(op, t, p)) {
        Descend(op, t, p, false); Descend(op, t, p, true);
        t' := EliminateDups2(op, t', p + [false], q);
        SameSpineAt(op, t, t', p + [true]); SameSpineAt(op, t, t', q);
        t' := EliminateDups2(op, t', p + [true], q);
        return;
      }
      if IsOp(op, At(op, t, q)) {
        Descend(op, t, q, false); Descend(op, t, q, true);
        t' := EliminateDups2(op, t', p, q + [false]);
        SameSpineAt(op, t, t', q + [true]); SameSpineAt(op, t, t', p);
        ghost var t1 := t';
        t' := EliminateDups2(op, t', p, q + [true]);
        SameSpineTrans(op, t, t1, t'); SameSpineAt(op, t, t', p); SameSpineAt(op, t, t', q);
        // no return: the operand is compared with the whole tree at q as well
      }
      t' := EliminateContradiction(op, t', p, q);
    }

    /** The rest of the step, for an operand at p and whatever is at q. */
    method EliminateContradiction(op: Op, t: Expr, p: Path, q: Path) returns (t': Expr)
      requires InTree(op, t, p) && InTree(op, t, q) && !IsOp(op, At(op, t, p))
      modifies this`transCount
      ensures t' == Contradict(op, t, p, q).0
      ensures transCount == old(transCount) + Contradict(op, t, p, q).1
      decreases Size(t), 0, 1
    {
      t' := t;
      if p == q {
        return;
      }
      SlotSmaller(op, t, p);
      var a := At(op, t, p);
      PutSame(op, t, p);
      if a.Bin? {
        a := EliminateDups2(a.op, a, [], []);
        t' := Put(op, t, p, a);
        SameSpineRefl(op, t); PutSpine(op, t, p, a); SameSpineAt(op, t, t', q);
        var tmp1 := ExtractEq(op, Transform(Not(a)), At(op, t', q)).1;
        if tmp1 == UnitExpr(op) {
          t' := Put(op, t', p, UnitExpr(op.Dual()));
          transCount := transCount + 1;
        }
      }
    }

    /** A null expression is returned as it is; the counter is restored. */
    method EliminateDupsLoop(e: Option<Expr>) returns (r: Option<Expr>)
      modifies this`transCount
      ensures r == if e.None? then None else Some(EliminateDups(e.value))
      ensures transCount == old(transCount)
    {
      if e.None? {
        return e;
      }
      var oldcount := transCount;
      var cur := e.value;
      while true
        invariant EliminateDups(cur) == EliminateDups(e.value)
        decreases Size(cur)
      {
        transCount := 0;
        RoundShrinks(cur);
        ghost var before := cur;
        if cur.Bin? {
          var op := cur.op;
          cur := EliminateDups1(op, cur, [], []);
          cur := EliminateDups2(op, cur, [], []);
        }
        if transCount == 0 {
          break;
        }
        cur := EliminateYn(cur);
      }
      transCount := oldcount;
      r := Some(cur);
    }
  }
}
