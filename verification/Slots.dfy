/**
 * Pointers into one expression tree. The eliminators of duplicates walk two `struct expr **` that both point into
 * the same tree; such a pointer is modelled as the path from the tree's root to the slot it points to, so that two
 * pointers are the same exactly when their paths are.
 */
module Slots {
  import opened Tristate
  import opened Expressions
  import opened Equality

  /** A path from the root: false goes left, true goes right. */
  type Path = seq<bool>

  function Child(t: Expr, b: bool): Expr
    requires t.Bin?
  {
    if b then t.right else t.left
  }

  /** All nodes above the slot are `op` nodes. */
  predicate InTree(op: Op, t: Expr, p: Path) {
    p == [] || (IsOp(op, t) && InTree(op, Child(t, p[0]), p[1..]))
  }

  function At(op: Op, t: Expr, p: Path): Expr
    requires InTree(op, t, p)
  {
    if p == [] then t else At(op, Child(t, p[0]), p[1..])
  }

  function Put(op: Op, t: Expr, p: Path, x: Expr): (t': Expr)
    requires InTree(op, t, p)
    ensures InTree(op, t', p) && At(op, t', p) == x
    ensures Size(t') == Size(t) - Size(At(op, t, p)) + Size(x)
  {
    if p == [] then x
    else if p[0] then Bin(op, t.left, Put(op, t.right, p[1..], x))
    else Bin(op, Put(op, t.left, p[1..], x), t.right)
  }

  lemma {:induction false} PutSame(op: Op, t: Expr, p: Path)
    requires InTree(op, t, p)
    ensures Put(op, t, p, At(op, t, p)) == t
  {
    if p != [] {
      PutSame(op, Child(t, p[0]), p[1..]);
    }
  }

  /** Neither slot lies within the other. */
  predicate Apart(p: Path, q: Path) {
    p != [] && q != [] && (p[0] != q[0] || Apart(p[1..], q[1..]))
  }

  /** The number of `op` nodes reachable from the root through `op` nodes only. */
  function Spine(op: Op, t: Expr): nat {
    if IsOp(op, t) then 1 + Spine(op, t.left) + Spine(op, t.right) else 0
  }

  /** The two trees have `op` nodes in the same places. */
  predicate SameSpine(op: Op, t: Expr, t': Expr)
    ensures SameSpine(op, t, t') ==> Spine(op, t) == Spine(op, t')
  {
    if IsOp(op, t) then IsOp(op, t') && SameSpine(op, t.left, t'.left) && SameSpine(op, t.right, t'.right)
    else !IsOp(op, t')
  }

  lemma {:induction false} SameSpineRefl(op: Op, t: Expr)
    ensures SameSpine(op, t, t)
  {
    if IsOp(op, t) {
      SameSpineRefl(op, t.left);
      SameSpineRefl(op, t.right);
    }
  }

  lemma {:induction false} SameSpineTrans(op: Op, t: Expr, t': Expr, t'': Expr)
    requires SameSpine(op, t, t') && SameSpine(op, t', t'')
    ensures SameSpine(op, t, t'')
  {
    if IsOp(op, t) {
      SameSpineTrans(op, t.left, t'.left, t''.left);
      SameSpineTrans(op, t.right, t'.right, t''.right);
    }
  }

  /** A slot of one tree is a slot of every tree with the same spine. */
  lemma {:induction false} SameSpineAt(op: Op, t: Expr, t': Expr, p: Path)
    requires SameSpine(op, t, t') && InTree(op, t, p)
    ensures InTree(op, t', p) && SameSpine(op, At(op, t, p), At(op, t', p))
  {
    if p != [] {
      SameSpineAt(op, Child(t, p[0]), Child(t', p[0]), p[1..]);
    }
  }

  lemma {:induction false} PutSpine(op: Op, t: Expr, p: Path, x: Expr)
    requires InTree(op, t, p) && SameSpine(op, At(op, t, p), x)
    ensures SameSpine(op, t, Put(op, t, p, x))
  {
    if p != [] {
      PutSpine(op, Child(t, p[0]), p[1..], x);
      SameSpineRefl(op, Child(t, !p[0]));
    }
  }

  /** A slot strictly below p is below one of p's two children. */
  lemma BelowChild(p: Path, u: Path)
    requires p <= u && p != u
    ensures |p| < |u| && p + [u[|p|]] <= u
  {
    assert u == u[..|p|] + u[|p|..];
  }

  /** Going one level down from an `op` node. */
  lemma {:induction false} Descend(op: Op, t: Expr, p: Path, b: bool)
    requires InTree(op, t, p) && IsOp(op, At(op, t, p))
    ensures InTree(op, t, p + [b]) && At(op, t, p + [b]) == Child(At(op, t, p), b)
  {
    if p == [] {
      assert (p + [b])[1..] == [];
    } else {
      assert (p + [b])[1..] == p[1..] + [b];
      Descend(op, Child(t, p[0]), p[1..], b);
    }
  }

  /** Distinct operands of the tree lie apart. */
  lemma {:induction false} OperandsApart(op: Op, t: Expr, p: Path, q: Path)
    requires InTree(op, t, p) && InTree(op, t, q) && p != q
    requires !IsOp(op, At(op, t, p)) && !IsOp(op, At(op, t, q))
    ensures Apart(p, q)
  {
    if p != [] && q != [] && p[0] == q[0] {
      assert p == [p[0]] + p[1..] && q == [q[0]] + q[1..];
      OperandsApart(op, Child(t, p[0]), p[1..], q[1..]);
    }
  }

  /** Writing one slot leaves every slot apart from it alone. */
  lemma {:induction false} PutApart(op: Op, t: Expr, p: Path, q: Path, x: Expr)
    requires InTree(op, t, p) && InTree(op, t, q) && Apart(p, q)
    ensures InTree(op, Put(op, t, p, x), q) && At(op, Put(op, t, p, x), q) == At(op, t, q)
  {
    if p[0] == q[0] {
      PutApart(op, Child(t, p[0]), p[1..], q[1..], x);
    }
  }

  /** The tree's value is the slot's value combined with a rest that does not depend on the slot's contents. */
  lemma {:induction false} EvalPut(op: Op, t: Expr, p: Path, x: Expr, v: Valuation) returns (r: Tri)
    requires InTree(op, t, p)
    ensures Eval(t, v) == op.Apply(Eval(At(op, t, p), v), r)
    ensures Eval(Put(op, t, p, x), v) == op.Apply(Eval(x, v), r)
  {
    if p == [] {
      r := op.Unit();
    } else {
      var r' := EvalPut(op, Child(t, p[0]), p[1..], x, v);
      var s := Eval(Child(t, !p[0]), v);
      r := op.Apply(r', s);
      Associative(op, Eval(At(op, t, p), v), r', s);
      Associative(op, Eval(x, v), r', s);
      Commutative(op, Eval(Child(t, p[0]), v), s);
      Commutative(op, op.Apply(Eval(x, v), r'), s);
    }
  }

  /** An AND tree is below each of its slots, an OR tree above. */
  lemma EvalBound(op: Op, t: Expr, p: Path, v: Valuation)
    requires InTree(op, t, p)
    ensures op.Apply(Eval(t, v), Eval(At(op, t, p), v)) == Eval(t, v)
  {
    var r := EvalPut(op, t, p, t, v);
  }

  /** Rewriting two operands into two others with the same combined value keeps the value of the tree. */
  lemma {:induction false} EvalPutTwo(op: Op, t: Expr, p: Path, q: Path, x: Expr, y: Expr, v: Valuation)
    requires InTree(op, t, p) && InTree(op, t, q) && Apart(p, q)
    requires op.Apply(Eval(At(op, t, p), v), Eval(At(op, t, q), v)) == op.Apply(Eval(x, v), Eval(y, v))
    ensures InTree(op, Put(op, t, p, x), q)
    ensures Eval(Put(op, Put(op, t, p, x), q, y), v) == Eval(t, v)
  {
    PutApart(op, t, p, q, x);
    if p[0] == q[0] {
      EvalPutTwo(op, Child(t, p[0]), p[1..], q[1..], x, y, v);
    } else {
      var r := EvalPut(op, Child(t, p[0]), p[1..], x, v);
      var s := EvalPut(op, Child(t, q[0]), q[1..], y, v);
      RegroupTwo(op, Eval(At(op, t, p), v), Eval(At(op, t, q), v), Eval(x, v), Eval(y, v), r, s);
    }
  }

  lemma RegroupTwo(op: Op, a: Tri, b: Tri, x: Tri, y: Tri, r: Tri, s: Tri)
    requires op.Apply(a, b) == op.Apply(x, y)
    ensures op.Apply(op.Apply(a, r), op.Apply(b, s)) == op.Apply(op.Apply(x, r), op.Apply(y, s))
    ensures op.Apply(op.Apply(b, s), op.Apply(a, r)) == op.Apply(op.Apply(y, s), op.Apply(x, r))
  {
    Interchange(op, a, r, b, s);
    Interchange(op, x, r, y, s);
    Commutative(op, op.Apply(a, r), op.Apply(b, s));
    Commutative(op, op.Apply(x, r), op.Apply(y, s));
  }

  lemma Interchange(op: Op, a: Tri, r: Tri, b: Tri, s: Tri)
    ensures op.Apply(op.Apply(a, r), op.Apply(b, s)) == op.Apply(op.Apply(a, b), op.Apply(r, s))
  {
    if op.OpOr? {
      assert forall x: Tri, y: Tri :: op.Apply(x, y) == TriOr(x, y);
    }
  }

  /** A y or n in an operand slot below the root is a y/n operand of the tree. */
  lemma {:induction false} YnSlot(op: Op, t: Expr, p: Path)
    requires InTree(op, t, p) && p != []
    requires IsYn(At(op, t, p)) || HasYnOperand(At(op, t, p))
    ensures HasYnOperand(t)
  {
    if |p| > 1 {
      YnSlot(op, Child(t, p[0]), p[1..]);
    }
  }

  /** Replacing a slot keeps the y/n operands of the tree if it keeps those of the slot. */
  lemma {:induction false} PutKeepsYn(op: Op, t: Expr, p: Path, x: Expr)
    requires InTree(op, t, p) && HasYnOperand(t)
    requires IsYn(At(op, t, p)) ==> IsYn(x)
    requires HasYnOperand(At(op, t, p)) ==> HasYnOperand(x)
    ensures HasYnOperand(Put(op, t, p, x))
  {
    if p != [] && HasYnOperand(Child(t, p[0])) {
      PutKeepsYn(op, Child(t, p[0]), p[1..], x);
    }
  }
}
