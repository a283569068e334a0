/** The search for recursive dependencies. */
module CycleCheck {
  import opened Options
  import opened Tristate
  import opened Expressions
  import opened Configuration

  // ---------- paths ----------

  /** Consecutive symbols are joined by dependency edges. */
  ghost predicate IsPath(cfg: Config, p: seq<Sym>) {
    p != [] && forall i :: 0 <= i < |p| - 1 ==> p[i + 1] in Edges(cfg, p[i])
  }

  ghost predicate PathFromTo(cfg: Config, p: seq<Sym>, s: Sym, t: Sym) {
    IsPath(cfg, p) && p[0] == s && p[|p| - 1] == t
  }

  ghost predicate Reaches(cfg: Config, s: Sym, t: Sym) {
    exists p :: PathFromTo(cfg, p, s, t)
  }

  /** s depends on itself, directly or through others. */
  ghost predicate OnCycle(cfg: Config, s: Sym) {
    exists d :: d in Edges(cfg, s) && Reaches(cfg, d, s)
  }

  ghost predicate ReachesCycle(cfg: Config, s: Sym) {
    exists t :: Reaches(cfg, s, t) && OnCycle(cfg, t)
  }

  lemma ReachesSelf(cfg: Config, s: Sym)
    ensures Reaches(cfg, s, s)
  {
    assert PathFromTo(cfg, [s], s, s);
  }

  lemma ReachesTrans(cfg: Config, s: Sym, t: Sym, u: Sym)
    requires Reaches(cfg, s, t) && Reaches(cfg, t, u)
    ensures Reaches(cfg, s, u)
  {
    var p :| PathFromTo(cfg, p, s, t);
    var q :| PathFromTo(cfg, q, t, u);
    var r := p + q[1..];
    forall i | 0 <= i < |r| - 1 ensures r[i + 1] in Edges(cfg, r[i]) {
      if i >= |p| - 1 {
        assert r[i + 1] == q[i - |p| + 2] && r[i] == q[i - |p| + 1];
      }
    }
    assert PathFromTo(cfg, r, s, u);
  }

  lemma EdgeReaches(cfg: Config, s: Sym, d: Sym)
    requires d in Edges(cfg, s)
    ensures Reaches(cfg, s, d)
  {
    assert PathFromTo(cfg, [s, d], s, d);
  }

  /** A nontrivial path starts with an edge. */
  lemma ReachesFirst(cfg: Config, s: Sym, t: Sym) returns (d: Sym)
    requires Reaches(cfg, s, t) && s != t
    ensures d in Edges(cfg, s) && Reaches(cfg, d, t)
  {
    var p :| PathFromTo(cfg, p, s, t);
    d := p[1];
    var q := p[1..];
    forall i | 0 <= i < |q| - 1 ensures q[i + 1] in Edges(cfg, q[i]) {
      assert p[i + 2] in Edges(cfg, p[i + 1]);
    }
    assert PathFromTo(cfg, q, d, t);
  }

  /** A symbol reaches a cycle exactly through one of its dependencies. */
  lemma ReachesCycleStep(cfg: Config, s: Sym)
    ensures ReachesCycle(cfg, s) <==> exists d :: d in Edges(cfg, s) && ReachesCycle(cfg, d)
  {
    if ReachesCycle(cfg, s) {
      var t :| Reaches(cfg, s, t) && OnCycle(cfg, t);
      if s == t {
        var d :| d in Edges(cfg, s) && Reaches(cfg, d, s);
        assert ReachesCycle(cfg, d);
      } else {
        var d := ReachesFirst(cfg, s, t);
        assert ReachesCycle(cfg, d);
      }
    }
    forall d | d in Edges(cfg, s) && ReachesCycle(cfg, d) ensures ReachesCycle(cfg, s) {
      var t :| Reaches(cfg, d, t) && OnCycle(cfg, t);
      EdgeReaches(cfg, s, d);
      ReachesTrans(cfg, s, d, t);
    }
  }

  /** So a select makes no cycle and breaks none: only what it adds to the target's reverse dependency can. */
  lemma SelectNoCycle(cfg: Config, s: Sym, i: nat, p: Prop, t: Sym)
    requires s in cfg.defs && i <= |cfg.defs[s].props| && p.kind.Select?
    ensures ReachesCycle(WithProp(cfg, s, i, p), t) <==> ReachesCycle(cfg, t)
  {
    var cfg' := WithProp(cfg, s, i, p);
    forall u ensures Edges(cfg', u) == Edges(cfg, u) {
      SelectNoEdge(cfg, s, i, p, u);
    }
    SameEdges(cfg, cfg', t);
    SameEdges(cfg', cfg, t);
  }

  lemma SameEdges(cfg: Config, cfg': Config, s: Sym)
    requires forall u :: Edges(cfg', u) == Edges(cfg, u)
    ensures ReachesCycle(cfg, s) ==> ReachesCycle(cfg', s)
  {
    forall a, b | Reaches(cfg, a, b) ensures Reaches(cfg', a, b) {
      var p :| PathFromTo(cfg, p, a, b);
      assert PathFromTo(cfg', p, a, b);
    }
    if ReachesCycle(cfg, s) {
      var t :| Reaches(cfg, s, t) && OnCycle(cfg, t);
      var d :| d in Edges(cfg, t) && Reaches(cfg, d, t);
      assert OnCycle(cfg', t);
    }
  }

  // ---------- the search ----------

  class DepChecker {
    const cfg: Config
    /** The symbols with SYMBOL_CHECK set: those the search is inside of. */
    var check: set<Sym>
    /** The symbols with SYMBOL_CHECKED set: those the search has come to. */
    var checked: set<Sym>
    /** The symbols with SYMBOL_CHECK_DONE set. */
    var done: set<Sym>

    constructor (cfg: Config)
      ensures this.cfg == cfg && check == {} && checked == {} && done == {}
    {
      this.cfg := cfg;
      check, checked, done := {}, {}, {};
    }

    /** The symbols marked as done depend on no cycle. */
    ghost predicate DoneSound()
      reads this
    {
      forall t :: t in done ==> !ReachesCycle(cfg, t)
    }

    /** All newly checked symbols depend on no cycle. */
    twostate predicate NewlyCheckedSound()
      reads this
    {
      forall t :: t in checked && t !in old(checked) ==> !ReachesCycle(cfg, t)
    }

    /**
     * Returns a symbol on a cycle if s depends on one, and nothing otherwise. The stack of symbols is as it was.
     * The search ends because it never enters a symbol it is already inside of.
     */
    method CheckDeps(s: Sym) returns (found: Option<Sym>)
      requires LeadsTo(cfg, check, s)
      modifies this`check, this`checked
      ensures check == old(check) && checked >= old(checked)
      ensures found.Some? ==> OnCycle(cfg, found.value) && Reaches(cfg, s, found.value)
      ensures found.None? && DoneSound() ==> !ReachesCycle(cfg, s) && NewlyCheckedSound()
      ensures s in checked || s in done || found.Some?
      decreases cfg.defs.Keys - check, 0, 0
    {
      if s in done {
        return None;
      }
      if s in check {
        ReachesSelf(cfg, s);
        return Some(s);
      }
      checked := checked + {s};
      ReachesCycleStep(cfg, s);
      if s !in cfg.defs {
        return None;
      }
      check := check + {s};
      found := CheckDefinition(s);
      check := check - {s};
    }

    /** Follows the edges of a symbol on the stack: rev_dep first, then the properties in order. */
    method CheckDefinition(s: Sym) returns (found: Option<Sym>)
      requires s in check && s in cfg.defs && LeadsTo(cfg, check - {s}, s)
      modifies this`check, this`checked
      ensures check == old(check) && checked >= old(checked)
      ensures found.Some? ==> OnCycle(cfg, found.value) && Reaches(cfg, s, found.value)
      ensures found.None? && DoneSound() ==> NoCycleFrom(cfg, Edges(cfg, s)) && NewlyCheckedSound()
      decreases cfg.defs.Keys - check, 2, 0
    {
      var def := cfg.defs[s];
      found := CheckOptDeps(def.revDep, s);
      var i := 0;
      while found.None? && i < |def.props|
        invariant 0 <= i <= |def.props|
        invariant check == old(check) && checked >= old(checked)
        invariant found.Some? ==> OnCycle(cfg, found.value) && Reaches(cfg, s, found.value)
        invariant found.None? && DoneSound() ==> NewlyCheckedSound() && NoCycleFrom(cfg, OptSyms(def.revDep))
        invariant found.None? && DoneSound() ==> forall k :: 0 <= k < i ==> NoCycleFrom(cfg, PropSyms(def.props[k]))
      {
        var p := def.props[i];
        PropSymsIn(def.props, i);
        if !p.kind.Select? {
          found := CheckOptDeps(p.visible, s);
          if found.None? && p.kind.Default? {
            found := CheckOptDeps(p.expr, s);
          }
        }
        i := i + 1;
      }
      if found.None? {
        NoCycleFromProps(cfg, def.props);
      }
    }

    method CheckOptDeps(e: Option<Expr>, s: Sym) returns (found: Option<Sym>)
      requires s in check && LeadsTo(cfg, check - {s}, s) && OptSyms(e) <= Edges(cfg, s)
      modifies this`check, this`checked
      ensures check == old(check) && checked >= old(checked)
      ensures found.Some? ==> OnCycle(cfg, found.value) && Reaches(cfg, s, found.value)
      ensures found.None? && DoneSound() ==> NoCycleFrom(cfg, OptSyms(e)) && NewlyCheckedSound()
      decreases cfg.defs.Keys - check, 1, if e.None? then 0 else 1 + Size(e.value)
    {
      if e.None? {
        return None;
      }
      found := CheckExprDeps(e.value, s);
    }

    /** Follows the edges to the symbols of an expression, left to right. */
    method CheckExprDeps(e: Expr, s: Sym) returns (found: Option<Sym>)
      requires s in check && LeadsTo(cfg, check - {s}, s) && Syms(e) <= Edges(cfg, s)
      modifies this`check, this`checked
      ensures check == old(check) && checked >= old(checked)
      ensures found.Some? ==> OnCycle(cfg, found.value) && Reaches(cfg, s, found.value)
      ensures found.None? && DoneSound() ==> NoCycleFrom(cfg, Syms(e)) && NewlyCheckedSound()
      decreases cfg.defs.Keys - check, 1, Size(e)
    {
      match e
      case Bin(_, left, right) =>
        found := CheckExprDeps(left, s);
        if found.None? {
          found := CheckExprDeps(right, s);
        }
      case Not(a) =>
        found := CheckExprDeps(a, s);
      case Equal(left, right) =>
        found := CheckEdge(s, left);
        if found.None? {
          found := CheckEdge(s, right);
        }
      case Unequal(left, right) =>
        found := CheckEdge(s, left);
        if found.None? {
          found := CheckEdge(s, right);
        }
      case Symbol(d) =>
        found := CheckEdge(s, d);
    }

    method CheckEdge(s: Sym, d: Sym) returns (found: Option<Sym>)
      requires s in check && LeadsTo(cfg, check - {s}, s) && d in Edges(cfg, s)
      modifies this`check, this`checked
      ensures check == old(check) && checked >= old(checked)
      ensures found.Some? ==> OnCycle(cfg, found.value) && Reaches(cfg, s, found.value)
      ensures found.None? && DoneSound() ==> !ReachesCycle(cfg, d) && NewlyCheckedSound()
      decreases cfg.defs.Keys - check, 0, 1
    {
      LeadsOn(cfg, check, s, d);
      found := CheckDeps(d);
      if found.Some? {
        EdgeReaches(cfg, s, d);
        ReachesTrans(cfg, s, d, found.value);
      }
    }

    /**
     * The check of the whole configuration after parsing: symbols already come to are taken as done, and so is every
     * symbol whose own check finds nothing. The symbols reported are returned in order.
     */
    method CheckAll(symbols: seq<Sym>) returns (reported: seq<Sym>)
      requires check == {} && checked == {} && done == {}
      modifies this
      ensures check == {}
      ensures forall s :: s in reported ==> s in symbols && ReachesCycle(cfg, s)
      ensures reported == [] <==> forall s :: s in symbols ==> !ReachesCycle(cfg, s)
    {
      reported := [];
      var i := 0;
      while i < |symbols|
        invariant 0 <= i <= |symbols| && check == {}
        invariant forall s :: s in reported ==> s in symbols && ReachesCycle(cfg, s)
        invariant reported == [] ==> DoneSound() && forall t :: t in checked ==> !ReachesCycle(cfg, t)
        invariant reported == [] ==> forall k :: 0 <= k < i ==> !ReachesCycle(cfg, symbols[k])
      {
        var s := symbols[i];
        var found: Option<Sym> := None;
        if s !in checked {
          found := CheckDeps(s);
        }
        if found.Some? {
          assert ReachesCycle(cfg, s);
          reported := reported + [s];
          assert s in reported;
        } else {
          done := done + {s};
        }
        i := i + 1;
      }
      if reported != [] {
        assert reported[0] in reported;
      }
    }
  }

  /** Every symbol of ss depends, directly or through others, on s. */
  ghost predicate LeadsTo(cfg: Config, ss: set<Sym>, s: Sym) {
    forall t :: t in ss ==> exists d :: d in Edges(cfg, t) && Reaches(cfg, d, s)
  }

  ghost predicate NoCycleFrom(cfg: Config, ss: set<Sym>) {
    forall d :: d in ss ==> !ReachesCycle(cfg, d)
  }

  lemma LeadsOn(cfg: Config, check: set<Sym>, s: Sym, d: Sym)
    requires LeadsTo(cfg, check - {s}, s) && d in Edges(cfg, s)
    ensures LeadsTo(cfg, check, d)
  {
    ReachesSelf(cfg, d);
    EdgeReaches(cfg, s, d);
    forall t | t in check ensures exists e :: e in Edges(cfg, t) && Reaches(cfg, e, d) {
      if t != s {
        assert t in check - {s};
        var e :| e in Edges(cfg, t) && Reaches(cfg, e, s);
        ReachesTrans(cfg, e, s, d);
      }
    }
  }

  lemma {:induction false} NoCycleFromProps(cfg: Config, props: seq<Prop>)
    ensures (forall k :: 0 <= k < |props| ==> NoCycleFrom(cfg, PropSyms(props[k]))) ==>
              NoCycleFrom(cfg, AllPropSyms(props))
  {
    if props != [] && forall k :: 0 <= k < |props| ==> NoCycleFrom(cfg, PropSyms(props[k])) {
      forall k | 0 <= k < |props[1..]| ensures NoCycleFrom(cfg, PropSyms(props[1..][k])) {
        assert props[1..][k] == props[k + 1];
      }
      NoCycleFromProps(cfg, props[1..]);
      assert NoCycleFrom(cfg, PropSyms(props[0]));
    }
  }

  // ---------- no cycles: the evaluator's layering exists ----------

  /** The symbols that s depends on, among those of a universe. */
  ghost function Beyond(cfg: Config, universe: set<Sym>, s: Sym): set<Sym> {
    set t | t in universe && exists d :: d in Edges(cfg, s) && Reaches(cfg, d, t)
  }

  /** The defined symbols and all symbols their definitions mention. */
  function Universe(cfg: Config): set<Sym> {
    set s, d | s in cfg.defs && d in Edges(cfg, s) :: d
  }

  ghost function DependencyCount(cfg: Config): Sym -> nat {
    s => |Beyond(cfg, Universe(cfg), s)|
  }

  lemma BeyondEdge(cfg: Config, s: Sym, d: Sym)
    requires d in Edges(cfg, s)
    ensures Beyond(cfg, Universe(cfg), d) <= Beyond(cfg, Universe(cfg), s)
    ensures d in Beyond(cfg, Universe(cfg), s)
  {
    assert s in cfg.defs;
    assert d in Universe(cfg);
    ReachesSelf(cfg, d);
    forall t | t in Beyond(cfg, Universe(cfg), d) ensures t in Beyond(cfg, Universe(cfg), s) {
      var e :| e in Edges(cfg, d) && Reaches(cfg, e, t);
      EdgeReaches(cfg, d, e);
      ReachesTrans(cfg, d, e, t);
    }
  }

  lemma BeyondShrinks(cfg: Config, s: Sym, d: Sym)
    requires d in Edges(cfg, s) && !ReachesCycle(cfg, s)
    ensures Beyond(cfg, Universe(cfg), d) < Beyond(cfg, Universe(cfg), s)
  {
    BeyondEdge(cfg, s, d);
    EdgeReaches(cfg, s, d);
    assert d in Beyond(cfg, Universe(cfg), d) ==> OnCycle(cfg, d);
    assert OnCycle(cfg, d) ==> ReachesCycle(cfg, s);
  }

  /** If no symbol depends on a cycle, counting the symbols it depends on is a layering. */
  lemma NoCyclesLayered(cfg: Config)
    requires forall s :: s in cfg.defs ==> !ReachesCycle(cfg, s)
    ensures Layered(cfg, DependencyCount(cfg))
  {
    var rank := DependencyCount(cfg);
    forall s, d | d in Edges(cfg, s) ensures rank(d) < rank(s) {
      assert s in cfg.defs;
      BeyondShrinks(cfg, s, d);
      ProperSubsetSmaller(Beyond(cfg, Universe(cfg), d), Beyond(cfg, Universe(cfg), s));
    }
  }

  lemma {:induction false} RankAlongPath(cfg: Config, rank: Sym -> nat, p: seq<Sym>)
    requires Layered(cfg, rank) && IsPath(cfg, p)
    ensures rank(p[|p| - 1]) <= rank(p[0])
  {
    if |p| > 1 {
      var q := p[..|p| - 1];
      RankAlongPath(cfg, rank, q);
      assert p[|p| - 2 + 1] in Edges(cfg, p[|p| - 2]);
    }
  }

  /** Conversely, where there is a layering nothing depends on a cycle. */
  lemma LayeredNoCycles(cfg: Config, rank: Sym -> nat, s: Sym)
    requires Layered(cfg, rank)
    ensures !ReachesCycle(cfg, s)
  {
    forall t, d | d in Edges(cfg, t) ensures !Reaches(cfg, d, t) {
      forall p | PathFromTo(cfg, p, d, t) ensures false {
        RankAlongPath(cfg, rank, p);
      }
    }
  }

  lemma ProperSubsetSmaller<T>(a: set<T>, b: set<T>)
    requires a < b
    ensures |a| < |b|
  {
    var x :| x in b && x !in a;
    SubsetSmaller(a, b - {x});
  }

  lemma {:induction false} SubsetSmaller<T>(a: set<T>, b: set<T>)
    requires a <= b
    ensures |a| <= |b|
  {
    if a != {} {
      var x :| x in a;
      SubsetSmaller(a - {x}, b - {x});
    }
  }

  /** So a configuration the check reports nothing for has a solution, under either value of the modules symbol. */
  lemma NoCyclesSolvable(cfg: Config, mods: Tri)
    requires forall s :: s in cfg.defs ==> !ReachesCycle(cfg, s)
    ensures exists v :: Solution(cfg, mods, v)
  {
    NoCyclesLayered(cfg);
    RecursiveSolves(cfg, mods, DependencyCount(cfg));
  }
}
