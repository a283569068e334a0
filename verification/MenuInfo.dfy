/** The contents of menu entries and the inheritance of conditions. */
module MenuInfo {
  import opened Options
  import opened Tristate
  import opened Expressions
  import opened NormalForm
  import opened Duplicates
  import opened Comparisons
  import opened Configuration
  import opened MenuLinks

  /** An entry's symbol, its condition, the properties declared at it, and which of them is its prompt. */
  datatype Info = Info(sym: Option<Sym>, dep: Option<Expr>, props: seq<Prop>, prompt: Option<nat>) {
    predicate Ok() {
      prompt.Some? ==> prompt.value < |props|
    }

    /** The condition of the prompt; y if there is none. */
    function PromptCondition(): Option<Expr>
      requires Ok()
    {
      if prompt.Some? then props[prompt.value].visible else None
    }

    /** What entries below inherit: the condition of the prompt, or of the entry itself if it has none. */
    function Condition(): Option<Expr>
      requires Ok()
    {
      if prompt.Some? then props[prompt.value].visible else dep
    }
  }

  /** c is what decides whether the entry is shown: the condition of its prompt, or its own if it has no prompt. */
  predicate HasCondition(i: Info, c: Option<Expr>) {
    && (i.prompt.Some? ==> i.prompt.value < |i.props| && c == i.props[i.prompt.value].visible)
    && (i.prompt.None? ==> c == i.dep)
  }

  /** b is the condition of the entry's prompt, or none if it has no prompt. */
  predicate HasPromptCondition(i: Info, b: Option<Expr>) {
    && (i.prompt.Some? ==> i.prompt.value < |i.props| && b == i.props[i.prompt.value].visible)
    && (i.prompt.None? ==> b.None?)
  }

  function AllocAnd(e1: Option<Expr>, e2: Option<Expr>): Option<Expr> {
    if e1.None? then e2 else if e2.None? then e1 else Some(Bin(OpAnd, e1.value, e2.value))
  }

  function EliminateDupsOpt(e: Option<Expr>): Option<Expr> {
    if e.None? then None else Some(EliminateDups(e.value))
  }

  /** A condition joined with the inherited one. */
  function Inherit(inherited: Option<Expr>, own: Option<Expr>): Option<Expr> {
    EliminateDupsOpt(AllocAnd(inherited, TransformOpt(own)))
  }

  /** The new condition of a property of an entry with the given symbol. */
  function InheritProp(sym: Option<Sym>, inherited: Option<Expr>, p: Prop): Prop {
    var d := Inherit(inherited, p.visible);
    p.(visible := if sym.Some? && sym.value.Type() != SymType.Tristate && d.Some? then Some(TransBool(d.value)) else d)
  }

  /** The entry after inheriting a condition. */
  function Propagated(inherited: Option<Expr>, i: Info): (r: Info)
    ensures r.sym == i.sym && r.prompt == i.prompt && |r.props| == |i.props|
  {
    var dep := Inherit(inherited, i.dep);
    i.(dep := dep, props := seq(|i.props|, k requires 0 <= k < |i.props| => InheritProp(i.sym, dep, i.props[k])))
  }

  predicate OptNoBareMod(e: Option<Expr>) {
    e.Some? ==> NoBareMod(e.value)
  }

  /** In three-valued logic an inherited condition settles the conjunction of the two. */
  lemma InheritSettles(inherited: Option<Expr>, own: Option<Expr>, v: Valuation)
    ensures Settles(TriAnd(EvalOpt(inherited, v), EvalOpt(own, v)), EvalOpt(Inherit(inherited, own), v))
  {
    TransformOptExact(own, v);
    var c := AllocAnd(inherited, TransformOpt(own));
    if c.Some? { EliminateDupsSettles(c.value, v); }
  }

  /** Without m it is the conjunction of the two. */
  lemma InheritExact(inherited: Option<Expr>, own: Option<Expr>, v: Valuation)
    requires TwoValued(v) && OptNoBareMod(inherited) && OptNoBareMod(own)
    ensures EvalOpt(Inherit(inherited, own), v) == TriAnd(EvalOpt(inherited, v), EvalOpt(own, v))
    ensures OptNoBareMod(Inherit(inherited, own))
  {
    InheritSettles(inherited, own, v);
    if inherited.Some? { TwoValuedEval(inherited.value, v); }
    if own.Some? { TwoValuedEval(own.value, v); TransformNoBareMod(own.value); }
    var c := AllocAnd(inherited, TransformOpt(own));
    if c.Some? { EliminateDupsNoBareMod(c.value); }
  }

  lemma {:induction false} TransBoolTwoValued(e: Expr, v: Valuation)
    requires TwoValued(v) && NoBareMod(e)
    ensures Eval(TransBool(e), v) == Eval(e, v) && NoBareMod(TransBool(e))
  {
    match e
    case Bin(_, l, r) => TransBoolTwoValued(l, v); TransBoolTwoValued(r, v);
    case Not(a) => TransBoolTwoValued(a, v);
    case Unequal(l, r) =>
      if l.Type() == SymType.Tristate {
        BuiltinCompare(l, v);
        assert SymTri(v, l) != MOD;
      }
    case _ =>
  }

  ghost predicate InfoNoBareMod(i: Info) {
    OptNoBareMod(i.dep) && forall k :: 0 <= k < |i.props| ==> OptNoBareMod(i.props[k].visible)
  }

  /** Without m, an entry's condition and those of its properties are conjunctions with what is inherited. */
  lemma PropagatedExact(inherited: Option<Expr>, i: Info, v: Valuation)
    requires TwoValued(v) && OptNoBareMod(inherited) && InfoNoBareMod(i)
    ensures var r := Propagated(inherited, i);
            && EvalOpt(r.dep, v) == TriAnd(EvalOpt(inherited, v), EvalOpt(i.dep, v))
            && forall k :: 0 <= k < |i.props| ==>
                 EvalOpt(r.props[k].visible, v) == TriAnd(EvalOpt(r.dep, v), EvalOpt(i.props[k].visible, v))
    ensures InfoNoBareMod(Propagated(inherited, i))
  {
    InheritExact(inherited, i.dep, v);
    var r := Propagated(inherited, i);
    forall k | 0 <= k < |i.props|
      ensures EvalOpt(r.props[k].visible, v) == TriAnd(EvalOpt(r.dep, v), EvalOpt(i.props[k].visible, v))
      ensures OptNoBareMod(r.props[k].visible)
    {
      var d := Inherit(r.dep, i.props[k].visible);
      InheritExact(r.dep, i.props[k].visible, v);
      if d.Some? { TransBoolTwoValued(d.value, v); }
    }
  }

  // ---------- normal form ----------

  predicate OptNnf(e: Option<Expr>) {
    e.Some? ==> Nnf(e.value)
  }

  ghost predicate InfoNnf(i: Info) {
    OptNnf(i.dep) && forall k :: 0 <= k < |i.props| ==> OptNnf(i.props[k].visible)
  }

  /** Whatever a condition was written like, joined with an inherited one in normal form it is in normal form. */
  lemma InheritNnf(inherited: Option<Expr>, own: Option<Expr>)
    requires OptNnf(inherited)
    ensures OptNnf(Inherit(inherited, own))
  {
    if own.Some? { TransformNnf(own.value); }
    var c := AllocAnd(inherited, TransformOpt(own));
    if c.Some? { EliminateDupsNnf(c.value); }
  }

  /** So the conditions that are rewritten are in normal form, and so are all conditions of the entry afterwards. */
  lemma PropagatedNnf(inherited: Option<Expr>, i: Info)
    requires OptNnf(inherited)
    ensures InfoNnf(Propagated(inherited, i))
    ensures forall k :: 0 <= k < |i.props| ==> OptNnf(Inherit(Propagated(inherited, i).dep, i.props[k].visible))
  {
    InheritNnf(inherited, i.dep);
    var r := Propagated(inherited, i);
    forall k | 0 <= k < |i.props|
      ensures OptNnf(Inherit(r.dep, i.props[k].visible)) && OptNnf(r.props[k].visible)
    {
      InheritNnf(r.dep, i.props[k].visible);
      var d := Inherit(r.dep, i.props[k].visible);
      if d.Some? { TransBoolVisible(d.value, Valuation(_ => NO, _ => "")); }
    }
  }

  /** Hence rewriting makes no condition of a property n, nor any that is n something else, in three-valued logic. */
  lemma PropagatedVisible(inherited: Option<Expr>, i: Info, k: nat, v: Valuation)
    requires OptNnf(inherited) && k < |i.props|
    ensures var r := Propagated(inherited, i);
            EvalOpt(r.props[k].visible, v) == NO <==> EvalOpt(Inherit(r.dep, i.props[k].visible), v) == NO
  {
    PropagatedNnf(inherited, i);
    var d := Inherit(Propagated(inherited, i).dep, i.props[k].visible);
    if d.Some? { TransBoolVisible(d.value, v); }
  }

  // ---------- selects ----------

  function AllocOr(e1: Option<Expr>, e2: Option<Expr>): Option<Expr> {
    if e1.None? then e2 else if e2.None? then e1 else Some(Bin(OpOr, e1.value, e2.value))
  }

  /** What a symbol is selected under: nothing selects it if there is no expression. */
  function EvalRev(e: Option<Expr>, v: Valuation): Tri {
    if e.None? then NO else Eval(e.value, v)
  }

  /** The reverse dependency of a symbol that `sym` selects under a condition. */
  function AddSelect(rev: Option<Expr>, sym: Sym, condition: Option<Expr>): Option<Expr> {
    AllocOr(rev, AllocAnd(Some(Symbol(sym)), condition))
  }

  lemma AddSelectValue(rev: Option<Expr>, sym: Sym, condition: Option<Expr>, v: Valuation)
    ensures EvalRev(AddSelect(rev, sym, condition), v) ==
              TriOr(EvalRev(rev, v), TriAnd(SymTri(v, sym), EvalOpt(condition, v)))
  {
    var x := AllocAnd(Some(Symbol(sym)), condition).value;
    assert Eval(Symbol(sym), v) == SymTri(v, sym);
    assert Eval(x, v) == TriAnd(SymTri(v, sym), EvalOpt(condition, v));
  }

  /** The reverse dependency of `target` after the properties of an entry for `sym` in order. */
  function AddSelects(rev: Option<Expr>, sym: Sym, props: seq<Prop>, target: Sym): Option<Expr> {
    if props == [] then rev
    else
      var last := props[|props| - 1];
      var init := AddSelects(rev, sym, props[..|props| - 1], target);
      if Selects(last, target) then AddSelect(init, sym, last.visible) else init
  }

  predicate Selects(p: Prop, target: Sym) {
    p.kind.Select? && p.NamedSymbol() == Some(target)
  }

  /** A symbol is selected as much as `sym` and the best condition of the selects, or as it was before. */
  lemma {:induction false} AddSelectsExact(rev: Option<Expr>, sym: Sym, props: seq<Prop>, target: Sym, v: Valuation)
    ensures var r := EvalRev(AddSelects(rev, sym, props, target), v);
            && EvalRev(rev, v) <= r
            && (forall p :: p in props && Selects(p, target) ==> TriAnd(SymTri(v, sym), EvalOpt(p.visible, v)) <= r)
            && (r == EvalRev(rev, v) ||
                exists p :: p in props && Selects(p, target) && r == TriAnd(SymTri(v, sym), EvalOpt(p.visible, v)))
  {
    if props != [] {
      var init, last := props[..|props| - 1], props[|props| - 1];
      AddSelectsExact(rev, sym, init, target, v);
      assert props == init + [last];
      AddSelectValue(AddSelects(rev, sym, init, target), sym, last.visible, v);
    }
  }

  lemma RevTriOf(s: Sym, def: Def, rev: Option<Expr>, mods: Tri, v: Valuation)
    ensures RevTri(s, def.(revDep := rev), mods, v) ==
              if EvalRev(rev, v) == MOD && EffectiveType(s, mods) == Boolean then YES else EvalRev(rev, v)
  {
  }

  /**
   * The select of a symbol that is never m keeps its effect if its condition is rewritten, except that it selects m
   * instead of y where the rewritten condition is m, the target may be m, and nothing else selects y.
   */
  lemma SelectRewritten(s: Sym, def: Def, mods: Tri, sym: Sym, e: Expr, v: Valuation)
    requires Nnf(e) && sym.Type() != SymType.Tristate && !sym.IsBuiltin()
    ensures var written := RevTri(s, def.(revDep := AddSelect(def.revDep, sym, Some(e))), mods, v);
            var rewritten := RevTri(s, def.(revDep := AddSelect(def.revDep, sym, Some(TransBool(e)))), mods, v);
            && (rewritten == written <==>
                  || EffectiveType(s, mods) == Boolean || SymTri(v, sym) != YES || EvalRev(def.revDep, v) == YES
                  || Eval(e, v) != YES || FirmlyTrue(e, v))
            && (rewritten != written ==> written == YES && rewritten == MOD)
  {
    TransBoolExact(e, v);
    assert SymTri(v, sym) != MOD;
    AddSelectValue(def.revDep, sym, Some(e), v);
    AddSelectValue(def.revDep, sym, Some(TransBool(e)), v);
    RevTriOf(s, def, AddSelect(def.revDep, sym, Some(e)), mods, v);
    RevTriOf(s, def, AddSelect(def.revDep, sym, Some(TransBool(e))), mods, v);
  }

  /** With S = y and FOO = m, a select of a tristate under FOO!=n by the boolean S selects m instead of y. */
  lemma SelectLowered(mods: Tri, v: Valuation)
    requires mods != NO && v.tri(NamedSym("S", Boolean)) == YES && v.tri(NamedSym("FOO", SymType.Tristate)) == MOD
    ensures var s, t := NamedSym("S", Boolean), NamedSym("T", SymType.Tristate);
            var p := Prop(Select, Some(Unequal(NamedSym("FOO", SymType.Tristate), NoSym)), Some(Symbol(t)));
            var def := Def([], None, false, NO, "");
            && RevTri(t, def.(revDep := AddSelects(None, s, [p], t)), mods, v) == YES
            && RevTri(t, def.(revDep := AddSelects(None, s, [InheritProp(Some(s), None, p)], t)), mods, v) == MOD
  {
    var s, t, foo := NamedSym("S", Boolean), NamedSym("T", SymType.Tristate), NamedSym("FOO", SymType.Tristate);
    var e := Unequal(foo, NoSym);
    var p := Prop(Select, Some(e), Some(Symbol(t)));
    var p' := InheritProp(Some(s), None, p);
    assert EliminateDups(Transform(e)) == e;
    assert p' == p.(visible := Some(Symbol(foo)));
    assert AddSelects(None, s, [p], t) == AddSelect(None, s, Some(e));
    assert AddSelects(None, s, [p'], t) == AddSelect(None, s, Some(Symbol(foo)));
    BuiltinCompare(foo, v);
    SelectRewritten(t, Def([], None, false, NO, ""), mods, s, e, v);
  }

  // ---------- inheritance through a forest ----------

  /** Every entry below t has inherited from its parent exactly once: `before` and `after` are the entries' contents. */
  ghost predicate Inherited(before: map<nat, Info>, after: map<nat, Info>, ts: seq<Tree>)
    decreases ts
  {
    ts == [] ||
    (&& KidsInherited(before, after, ts[0])
     && Inherited(before, after, ts[0].kids) && Inherited(before, after, ts[1..]))
  }

  ghost predicate KidsInherited(before: map<nat, Info>, after: map<nat, Info>, t: Tree) {
    && t.id in after && after[t.id].Ok()
    && forall i :: 0 <= i < |t.kids| ==>
         var k := t.kids[i].id;
         k in before && k in after && after[k] == Propagated(after[t.id].Condition(), before[k])
  }

  /** All entries of a forest. */
  function IdSet(ts: seq<Tree>): set<nat> {
    set x | x in Ids(ts)
  }

  /** The entries of a forest that have their parent in it. */
  function KidSet(ts: seq<Tree>): set<nat> {
    if ts == [] then {} else IdSet(ts[0].kids) + KidSet(ts[1..])
  }

  lemma IdSetFirst(ts: seq<Tree>)
    requires ts != []
    ensures IdSet(ts) == {ts[0].id} + IdSet(ts[0].kids) + IdSet(ts[1..])
  {
    var h, k, r := [ts[0].id], Ids(ts[0].kids), Ids(ts[1..]);
    assert Ids(ts) == h + k + r;
    forall x ensures x in h + k + r <==> x in h || x in k || x in r {
    }
  }

  lemma IdSetAppend(a: seq<Tree>, b: seq<Tree>)
    ensures IdSet(a + b) == IdSet(a) + IdSet(b)
  {
    IdsAppend(a, b);
    var x, y := Ids(a), Ids(b);
    forall i ensures i in x + y <==> i in x || i in y {
    }
  }

  lemma {:induction false} KidSetIn(ts: seq<Tree>)
    ensures KidSet(ts) <= IdSet(ts)
  {
    if ts != [] {
      KidSetIn(ts[1..]);
      IdSetFirst(ts);
    }
  }

  /** Inheritance concerns the entries of the forest, and what those with a parent were before. */
  lemma {:induction false} InheritedFrame(b: map<nat, Info>, a: map<nat, Info>, b': map<nat, Info>, a': map<nat, Info>,
                                          ts: seq<Tree>)
    requires Inherited(b, a, ts)
    requires forall x :: x in KidSet(ts) && x in b ==> x in b' && b'[x] == b[x]
    requires forall x :: x in IdSet(ts) && x in a ==> x in a' && a'[x] == a[x]
    ensures Inherited(b', a', ts)
    decreases ts
  {
    if ts != [] {
      IdSetFirst(ts);
      KidSetIn(ts[0].kids);
      assert ts[0].id in IdSet(ts);
      forall i | 0 <= i < |ts[0].kids| ensures ts[0].kids[i].id in IdSet(ts[0].kids) {
        RootIn(ts[0].kids, i);
      }
      InheritedFrame(b, a, b', a', ts[0].kids);
      InheritedFrame(b, a, b', a', ts[1..]);
    }
  }

  lemma {:induction false} InheritedAppend(b: map<nat, Info>, a: map<nat, Info>, s: seq<Tree>, t: seq<Tree>)
    ensures Inherited(b, a, s + t) <==> Inherited(b, a, s) && Inherited(b, a, t)
    decreases s
  {
    if s == [] {
      assert s + t == t;
    } else {
      assert (s + t)[1..] == s[1..] + t;
      InheritedAppend(b, a, s[1..], t);
    }
  }

  /** Without m, a child's condition is the conjunction of its own and of what decides whether its parent is shown. */
  lemma ChildInherits(before: map<nat, Info>, after: map<nat, Info>, t: Tree, i: nat, c: Option<Expr>, v: Valuation)
    requires KidsInherited(before, after, t) && i < |t.kids| && HasCondition(after[t.id], c)
    requires TwoValued(v) && OptNoBareMod(c) && InfoNoBareMod(before[t.kids[i].id])
    ensures var k := t.kids[i].id;
            EvalOpt(after[k].dep, v) == TriAnd(EvalOpt(c, v), EvalOpt(before[k].dep, v))
  {
    PropagatedExact(c, before[t.kids[i].id], v);
  }

  /** Without m, an entry is visible only while every entry it was written below is. */
  lemma {:induction false} InheritedImplies(before: map<nat, Info>, after: map<nat, Info>, t: Tree, x: nat,
                                            v: Valuation)
    requires Inherited(before, after, [t]) && x in Ids(t.kids)
    requires TwoValued(v) && t.id in after && InfoNoBareMod(after[t.id])
    requires forall y :: y in before ==> InfoNoBareMod(before[y]) && before[y].Ok()
    ensures x in after && after[x].Ok() && after[t.id].Ok()
    ensures HasCondition(after[x], after[x].Condition()) && HasCondition(after[t.id], after[t.id].Condition())
    ensures EvalOpt(after[x].Condition(), v) <= EvalOpt(after[t.id].Condition(), v)
    decreases t
  {
    assert KidsInherited(before, after, t);
    KidOf(t.kids, x);
    var i :| 0 <= i < |t.kids| && (x == t.kids[i].id || x in Ids(t.kids[i].kids));
    var k := t.kids[i];
    PropagatedExact(after[t.id].Condition(), before[k.id], v);
    InheritedAt(before, after, t.kids, i);
    if x != k.id {
      InheritedImplies(before, after, k, x, v);
    }
  }

  /** All entries below one whose condition is in normal form have all their conditions in normal form. */
  lemma {:induction false} InheritedNnf(before: map<nat, Info>, after: map<nat, Info>, t: Tree, x: nat)
    requires Inherited(before, after, [t]) && x in Ids(t.kids)
    requires t.id in after && after[t.id].Ok() && OptNnf(after[t.id].Condition())
    requires forall y :: y in before ==> before[y].Ok()
    ensures x in after && InfoNnf(after[x])
    decreases t
  {
    assert KidsInherited(before, after, t);
    KidOf(t.kids, x);
    var i :| 0 <= i < |t.kids| && (x == t.kids[i].id || x in Ids(t.kids[i].kids));
    var k := t.kids[i];
    PropagatedNnf(after[t.id].Condition(), before[k.id]);
    InheritedAt(before, after, t.kids, i);
    if x != k.id {
      InheritedNnf(before, after, k, x);
    }
  }

  lemma {:induction false} InheritedAt(before: map<nat, Info>, after: map<nat, Info>, ts: seq<Tree>, i: nat)
    requires Inherited(before, after, ts) && i < |ts|
    ensures Inherited(before, after, [ts[i]])
    decreases ts
  {
    assert [ts[i]][1..] == [];
    if i > 0 {
      InheritedAt(before, after, ts[1..], i - 1);
    }
  }

  lemma {:induction false} KidOf(ts: seq<Tree>, x: nat)
    requires x in Ids(ts)
    ensures exists i :: 0 <= i < |ts| && (x == ts[i].id || x in Ids(ts[i].kids))
    decreases ts
  {
    if x != ts[0].id && x !in Ids(ts[0].kids) {
      KidOf(ts[1..], x);
      var i :| 0 <= i < |ts[1..]| && (x == ts[1..][i].id || x in Ids(ts[1..][i].kids));
      assert ts[1..][i] == ts[i + 1];
    }
  }
}
