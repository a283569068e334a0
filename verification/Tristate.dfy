/** The three-valued logic of the configuration language: n < m < y. */
module Tristate {

  /** The values of `enum tristate`: no, mod and yes, in that order. */
  type Tri = t: int | 0 <= t <= 2 witness 0

  const NO: Tri := 0
  const MOD: Tri := 1
  const YES: Tri := 2

  function TriAnd(a: Tri, b: Tri): Tri {
    if a < b then a else b
  }

  function TriOr(a: Tri, b: Tri): Tri {
    if a > b then a else b
  }

  function TriNot(a: Tri): Tri {
    2 - a
  }

  /** The two associative connectives of an expression tree. */
  datatype Op = OpOr | OpAnd {
    /** The connective De Morgan's laws exchange this one with. */
    function Dual(): Op {
      if OpOr? then OpAnd else OpOr
    }

    function Apply(a: Tri, b: Tri): Tri {
      if OpOr? then TriOr(a, b) else TriAnd(a, b)
    }

    /** The value that leaves the other operand unchanged. */
    function Unit(): Tri {
      if OpOr? then NO else YES
    }
  }

  function TriString(t: Tri): string {
    if t == NO then "n" else if t == MOD then "m" else "y"
  }

  /**
   * The information order: m carries no information, n and y carry all of it.
   * A rewrite that relies on the law of the excluded middle can only move a value up in this order.
   */
  predicate Settles(before: Tri, after: Tri) {
    before == MOD || before == after
  }

  lemma SettlesMonotone(op: Op, a: Tri, a': Tri, r: Tri)
    requires Settles(a, a')
    ensures Settles(op.Apply(a, r), op.Apply(a', r))
  {
  }

  lemma Associative(op: Op, a: Tri, b: Tri, c: Tri)
    ensures op.Apply(op.Apply(a, b), c) == op.Apply(a, op.Apply(b, c))
  {
  }

  lemma Commutative(op: Op, a: Tri, b: Tri)
    ensures op.Apply(a, b) == op.Apply(b, a)
  {
  }
}
