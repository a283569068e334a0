/** Symbol definitions, and what it means for values to solve them. */
module Configuration {
  import opened Options
  import opened Tristate
  import opened Expressions
  import opened NormalForm

  datatype PropKind = Prompt | Comment | Menu | Default | Select | Range

  /** A property: its condition, and the value of a default or the target of a select. */
  datatype Prop = Prop(kind: PropKind, visible: Option<Expr>, expr: Option<Expr>) {
    /** Prompts, comments and menus carry a text. */
    predicate HasText() {
      kind.Prompt? || kind.Comment? || kind.Menu?
    }

    /** The symbol a default or select names when its expression is just a symbol. */
    function NamedSymbol(): Option<Sym> {
      if expr.Some? && expr.value.Symbol? then Some(expr.value.sym) else None
    }
  }

  /** A symbol's properties in order, what other symbols select it under, and the value the user gave it, if any. */
  datatype Def = Def(props: seq<Prop>, revDep: Option<Expr>, hasValue: bool, userTri: Tri, userText: string)

  /** The defined symbols; the symbol whose value says whether m exists. */
  datatype Config = Config(defs: map<Sym, Def>, modules: Option<Sym>)

  /** Symbols of the value types have a computed value; a symbol without definition has no properties. */
  predicate Valued(s: Sym) {
    s.NamedSym? && s.Type() != Unknown && s.Type() != Other
  }

  function DefOf(cfg: Config, s: Sym): Def {
    if s in cfg.defs then cfg.defs[s] else Def([], None, false, NO, "")
  }

  /** Without modules a tristate counts as a boolean. */
  function EffectiveType(s: Sym, mods: Tri): SymType {
    if s.Type() == SymType.Tristate && mods == NO then Boolean else s.Type()
  }

  datatype Value = Value(text: string, tri: Tri)

  /** All that evaluating one symbol computes. */
  datatype Computation = Computation(value: Value, visible: Tri, revTri: Tri)

  // ---------- one symbol, given the values of the others ----------

  /** The best condition among the texts. */
  function BestPrompt(props: seq<Prop>, v: Valuation): Tri {
    if props == [] then NO
    else
      var best, p := BestPrompt(props[..|props| - 1], v), props[|props| - 1];
      if p.HasText() then TriOr(best, EvalOpt(p.visible, v)) else best
  }

  /** The first default whose condition is not n. */
  function ActiveDefault(props: seq<Prop>, v: Valuation): Option<Prop> {
    if props == [] then None
    else if props[0].kind.Default? && EvalOpt(props[0].visible, v) != NO then Some(props[0])
    else ActiveDefault(props[1..], v)
  }

  function DefaultTri(props: seq<Prop>, v: Valuation): Tri {
    var d := ActiveDefault(props, v);
    if d.None? then NO else EvalOpt(d.value.expr, v)
  }

  /** The `val` field of a symbol: it is never updated for logical symbols. */
  function RawText(v: Valuation, s: Sym): string {
    if s.IsLogical() then "n" else SymText(v, s)
  }

  function DefaultText(props: seq<Prop>, v: Valuation): string {
    var d := ActiveDefault(props, v);
    if d.None? || d.value.NamedSymbol().None? then "" else RawText(v, d.value.NamedSymbol().value)
  }

  function VisibleTri(s: Sym, def: Def, mods: Tri, v: Valuation): Tri {
    var t := BestPrompt(def.props, v);
    if t == MOD && (s.Type() != SymType.Tristate || mods == NO) then YES else t
  }

  function RevTri(s: Sym, def: Def, mods: Tri, v: Valuation): Tri {
    var t := if def.revDep.None? then NO else Eval(def.revDep.value, v);
    if t == MOD && EffectiveType(s, mods) == Boolean then YES else t
  }

  function LogicalTri(s: Sym, def: Def, mods: Tri, v: Valuation): Tri {
    var vis, rev := VisibleTri(s, def, mods, v), RevTri(s, def, mods, v);
    var t :=
      if TriOr(vis, rev) != NO then
        TriOr(TriAnd(if def.hasValue then def.userTri else DefaultTri(def.props, v), vis), rev)
      else DefaultTri(def.props, v);
    if t == MOD && EffectiveType(s, mods) == Boolean then YES else t
  }

  function PlainText(s: Sym, def: Def, mods: Tri, v: Valuation): string {
    if VisibleTri(s, def, mods, v) != NO && def.hasValue then def.userText else DefaultText(def.props, v)
  }

  function Local(s: Sym, def: Def, mods: Tri, v: Valuation): Computation {
    Computation(
      if s.IsLogical() then Value("n", LogicalTri(s, def, mods, v)) else Value(PlainText(s, def, mods, v), NO),
      VisibleTri(s, def, mods, v), RevTri(s, def, mods, v))
  }

  /** v gives s the value its definition calls for under v itself. */
  predicate Solves(cfg: Config, mods: Tri, v: Valuation, s: Sym) {
    var c := Local(s, DefOf(cfg, s), mods, v);
    SymTri(v, s) == c.value.tri && RawText(v, s) == c.value.text
  }

  /** v gives every valued symbol the value its definition calls for under v itself. */
  ghost predicate Solution(cfg: Config, mods: Tri, v: Valuation) {
    forall s: Sym :: Valued(s) ==> Solves(cfg, mods, v, s)
  }

  // ---------- dependencies ----------

  function Syms(e: Expr): set<Sym> {
    match e
    case Symbol(s) => {s}
    case Not(a) => Syms(a)
    case Bin(_, l, r) => Syms(l) + Syms(r)
    case Equal(l, r) => {l, r}
    case Unequal(l, r) => {l, r}
  }

  function OptSyms(e: Option<Expr>): set<Sym> {
    if e.None? then {} else Syms(e.value)
  }

  /** The symbols a property makes its owner depend on. */
  function PropSyms(p: Prop): set<Sym> {
    if p.kind.Select? then {}
    else OptSyms(p.visible) + if p.kind.Default? then OptSyms(p.expr) else {}
  }

  function AllPropSyms(props: seq<Prop>): set<Sym> {
    if props == [] then {} else PropSyms(props[0]) + AllPropSyms(props[1..])
  }

  /** The symbols that s depends on: along rev_dep, conditions and defaults. */
  function Edges(cfg: Config, s: Sym): set<Sym> {
    OptSyms(DefOf(cfg, s).revDep) + AllPropSyms(DefOf(cfg, s).props)
  }

  lemma {:induction false} PropSymsIn(props: seq<Prop>, i: nat)
    requires i < |props|
    ensures PropSyms(props[i]) <= AllPropSyms(props)
  {
    if i > 0 {
      PropSymsIn(props[1..], i - 1);
    }
  }

  lemma {:induction false} PropSymsFrom(props: seq<Prop>, d: Sym)
    requires d in AllPropSyms(props)
    ensures exists i :: 0 <= i < |props| && d in PropSyms(props[i])
  {
    if d in PropSyms(props[0]) {
      assert 0 < |props|;
    } else {
      PropSymsFrom(props[1..], d);
      var i :| 0 <= i < |props[1..]| && d in PropSyms(props[1..][i]);
      assert props[i + 1] == props[1..][i];
    }
  }

  /** The property p makes its owner depend on d: by its condition, unless it is a select, or by a default's value. */
  predicate Mentions(p: Prop, d: Sym) {
    || (!p.kind.Select? && p.visible.Some? && d in Syms(p.visible.value))
    || (p.kind.Default? && p.expr.Some? && d in Syms(p.expr.value))
  }

  /** A symbol depends on those of its reverse dependency and those its properties mention, and on no others. */
  lemma EdgesExact(cfg: Config, s: Sym, d: Sym)
    ensures var def := DefOf(cfg, s);
            d in Edges(cfg, s) <==>
            || (def.revDep.Some? && d in Syms(def.revDep.value))
            || exists i :: 0 <= i < |def.props| && Mentions(def.props[i], d)
  {
    var def := DefOf(cfg, s);
    forall i | 0 <= i < |def.props| && Mentions(def.props[i], d) ensures d in Edges(cfg, s) {
      assert d in PropSyms(def.props[i]);
      PropSymsIn(def.props, i);
    }
    if d in AllPropSyms(def.props) {
      PropSymsFrom(def.props, d);
      var i :| 0 <= i < |def.props| && d in PropSyms(def.props[i]);
      assert Mentions(def.props[i], d);
    }
  }

  /** The configuration with one more property of s, in front of its i-th. */
  function WithProp(cfg: Config, s: Sym, i: nat, p: Prop): Config
    requires s in cfg.defs && i <= |cfg.defs[s].props|
  {
    var def := cfg.defs[s];
    cfg.(defs := cfg.defs[s := def.(props := def.props[..i] + [p] + def.props[i..])])
  }

  /** A select adds no dependency to the symbol it is a property of. */
  lemma SelectNoEdge(cfg: Config, s: Sym, i: nat, p: Prop, t: Sym)
    requires s in cfg.defs && i <= |cfg.defs[s].props| && p.kind.Select?
    ensures Edges(WithProp(cfg, s, i, p), t) == Edges(cfg, t)
  {
    var cfg' := WithProp(cfg, s, i, p);
    if s == t {
      var props, props' := cfg.defs[s].props, cfg'.defs[s].props;
      forall d ensures d in Edges(cfg', s) <==> d in Edges(cfg, s) {
        EdgesExact(cfg, s, d);
        EdgesExact(cfg', s, d);
        if k :| 0 <= k < |props| && Mentions(props[k], d) {
          assert Mentions(props'[if k < i then k else k + 1], d);
        }
        if k :| 0 <= k < |props'| && Mentions(props'[k], d) {
          assert k != i;
          assert Mentions(props[if k < i then k else k - 1], d);
        }
      }
    }
  }

  /** The dependencies go down in rank. */
  ghost predicate Layered(cfg: Config, rank: Sym -> nat) {
    forall s, d :: d in Edges(cfg, s) ==> rank(d) < rank(s)
  }

  /** v and w agree on a set of symbols. */
  ghost predicate AgreeOn(v: Valuation, w: Valuation, ss: set<Sym>) {
    forall s :: s in ss ==> SymTri(v, s) == SymTri(w, s) && SymText(v, s) == SymText(w, s)
  }

  lemma {:induction false} EvalAgree(e: Expr, v: Valuation, w: Valuation)
    requires AgreeOn(v, w, Syms(e))
    ensures Eval(e, v) == Eval(e, w)
  {
    match e
    case Not(a) => EvalAgree(a, v, w);
    case Bin(_, l, r) => EvalAgree(l, v, w); EvalAgree(r, v, w);
    case Symbol(s) => assert s in Syms(e);
    case Equal(l, r) => assert l in Syms(e) && r in Syms(e);
    case Unequal(l, r) => assert l in Syms(e) && r in Syms(e);
  }

  lemma PropAgree(p: Prop, v: Valuation, w: Valuation)
    requires AgreeOn(v, w, PropSyms(p)) && !p.kind.Select?
    ensures EvalOpt(p.visible, v) == EvalOpt(p.visible, w)
    ensures p.kind.Default? ==> EvalOpt(p.expr, v) == EvalOpt(p.expr, w)
    ensures p.kind.Default? && p.NamedSymbol().Some? ==>
              RawText(v, p.NamedSymbol().value) == RawText(w, p.NamedSymbol().value)
  {
    if p.visible.Some? { EvalAgree(p.visible.value, v, w); }
    if p.kind.Default? && p.expr.Some? {
      EvalAgree(p.expr.value, v, w);
      if p.NamedSymbol().Some? { assert p.NamedSymbol().value in Syms(p.expr.value); }
    }
  }

  lemma {:induction false} BestPromptAgree(props: seq<Prop>, v: Valuation, w: Valuation)
    requires AgreeOn(v, w, AllPropSyms(props))
    ensures BestPrompt(props, v) == BestPrompt(props, w)
  {
    if props != [] {
      var n := |props| - 1;
      PropSymsIn(props, n);
      InitPropSyms(props);
      BestPromptAgree(props[..n], v, w);
      if props[n].HasText() { PropAgree(props[n], v, w); }
    }
  }

  lemma {:induction false} InitPropSyms(props: seq<Prop>)
    requires props != []
    ensures AllPropSyms(props[..|props| - 1]) <= AllPropSyms(props)
  {
    if |props| > 1 {
      InitPropSyms(props[1..]);
      assert props[..|props| - 1][1..] == props[1..][..|props| - 2];
    }
  }

  lemma {:induction false} DefaultAgree(props: seq<Prop>, v: Valuation, w: Valuation)
    requires AgreeOn(v, w, AllPropSyms(props))
    ensures ActiveDefault(props, v) == ActiveDefault(props, w)
    ensures DefaultTri(props, v) == DefaultTri(props, w)
    ensures DefaultText(props, v) == DefaultText(props, w)
  {
    if props != [] {
      if props[0].kind.Default? { PropAgree(props[0], v, w); }
      DefaultAgree(props[1..], v, w);
    }
  }

  /** The value of a symbol depends on the values of the symbols it has edges to only. */
  lemma LocalAgree(cfg: Config, s: Sym, mods: Tri, v: Valuation, w: Valuation)
    requires AgreeOn(v, w, Edges(cfg, s))
    ensures Local(s, DefOf(cfg, s), mods, v) == Local(s, DefOf(cfg, s), mods, w)
  {
    var def := DefOf(cfg, s);
    BestPromptAgree(def.props, v, w);
    DefaultAgree(def.props, v, w);
    if def.revDep.Some? { EvalAgree(def.revDep.value, v, w); }
  }

  // ---------- without cycles there is exactly one solution ----------

  /** The values of the symbols of rank below n, by plain recursion over the definitions. */
  ghost function Below(cfg: Config, mods: Tri, rank: Sym -> nat, n: nat): Valuation
    decreases n
  {
    Valuation(
      s => if rank(s) < n && Valued(s) then
             Local(s, DefOf(cfg, s), mods, Below(cfg, mods, rank, rank(s))).value.tri
           else NO,
      s => if rank(s) < n && Valued(s) then
             Local(s, DefOf(cfg, s), mods, Below(cfg, mods, rank, rank(s))).value.text
           else "")
  }

  /** The recursive definition of every symbol's value. */
  ghost function Recursive(cfg: Config, mods: Tri, rank: Sym -> nat): Valuation {
    Valuation(
      s => if Valued(s) then Local(s, DefOf(cfg, s), mods, Below(cfg, mods, rank, rank(s))).value.tri else NO,
      s => if Valued(s) then Local(s, DefOf(cfg, s), mods, Below(cfg, mods, rank, rank(s))).value.text else "")
  }

  lemma BelowAgrees(cfg: Config, mods: Tri, rank: Sym -> nat, n: nat, d: Sym)
    requires rank(d) < n
    ensures SymTri(Below(cfg, mods, rank, n), d) == SymTri(Recursive(cfg, mods, rank), d)
    ensures SymText(Below(cfg, mods, rank, n), d) == SymText(Recursive(cfg, mods, rank), d)
  {
    assert Below(cfg, mods, rank, n).tri(d) == Recursive(cfg, mods, rank).tri(d);
    assert Below(cfg, mods, rank, n).text(d) == Recursive(cfg, mods, rank).text(d);
  }

  lemma RecursiveSolvesAt(cfg: Config, mods: Tri, rank: Sym -> nat, s: Sym)
    requires Layered(cfg, rank) && Valued(s)
    ensures Solves(cfg, mods, Recursive(cfg, mods, rank), s)
  {
    var v := Recursive(cfg, mods, rank);
    var below := Below(cfg, mods, rank, rank(s));
    forall d | d in Edges(cfg, s) ensures SymTri(below, d) == SymTri(v, d) && SymText(below, d) == SymText(v, d) {
      BelowAgrees(cfg, mods, rank, rank(s), d);
    }
    LocalAgree(cfg, s, mods, below, v);
    RecursiveAt(cfg, mods, rank, s);
  }

  lemma RecursiveAt(cfg: Config, mods: Tri, rank: Sym -> nat, s: Sym)
    requires Valued(s)
    ensures var v := Recursive(cfg, mods, rank);
            var c := Local(s, DefOf(cfg, s), mods, Below(cfg, mods, rank, rank(s)));
            SymTri(v, s) == c.value.tri && RawText(v, s) == c.value.text
  {
  }

  /** The recursive definition is a solution. */
  lemma RecursiveSolves(cfg: Config, mods: Tri, rank: Sym -> nat)
    requires Layered(cfg, rank)
    ensures Solution(cfg, mods, Recursive(cfg, mods, rank))
  {
    var v := Recursive(cfg, mods, rank);
    forall s: Sym | Valued(s) ensures Solves(cfg, mods, v, s) {
      RecursiveSolvesAt(cfg, mods, rank, s);
    }
  }

  /** And the only one: two solutions agree on every symbol. */
  lemma {:induction false} SolutionUnique(cfg: Config, mods: Tri, rank: Sym -> nat, v: Valuation, w: Valuation, s: Sym)
    requires Layered(cfg, rank) && Solution(cfg, mods, v) && Solution(cfg, mods, w)
    ensures SymTri(v, s) == SymTri(w, s) && SymText(v, s) == SymText(w, s)
    decreases rank(s)
  {
    if Valued(s) {
      forall d | d in Edges(cfg, s) ensures SymTri(v, d) == SymTri(w, d) && SymText(v, d) == SymText(w, d) {
        SolutionUnique(cfg, mods, rank, v, w, d);
      }
      LocalAgree(cfg, s, mods, v, w);
    }
  }

  // ---------- what every solution satisfies ----------

  /** A select is a lower bound; and the value exceeds neither it nor the visibility unless both are n. */
  lemma SolutionBounds(cfg: Config, mods: Tri, v: Valuation, s: Sym)
    requires Solution(cfg, mods, v) && Valued(s) && s.IsLogical()
    ensures var c := Local(s, DefOf(cfg, s), mods, v);
            && c.revTri <= SymTri(v, s)
            && (TriOr(c.visible, c.revTri) != NO ==> SymTri(v, s) <= TriOr(c.visible, c.revTri))
            && (EffectiveType(s, mods) == Boolean ==> SymTri(v, s) != MOD)
  {
  }

  /** The same definitions with every condition, default and select in negation normal form. */
  function TransformOpt(e: Option<Expr>): Option<Expr> {
    if e.None? then None else Some(Transform(e.value))
  }

  function TransformProps(props: seq<Prop>): (r: seq<Prop>)
    ensures |r| == |props|
  {
    if props == [] then []
    else [Prop(props[0].kind, TransformOpt(props[0].visible), TransformOpt(props[0].expr))] + TransformProps(props[1..])
  }

  function TransformConfig(cfg: Config): Config {
    Config(map s | s in cfg.defs ::
             cfg.defs[s].(props := TransformProps(cfg.defs[s].props), revDep := TransformOpt(cfg.defs[s].revDep)),
           cfg.modules)
  }

  lemma {:induction false} TransformPropsLast(props: seq<Prop>)
    requires props != []
    ensures var r, n := TransformProps(props), |props| - 1;
            r[..n] == TransformProps(props[..n]) &&
            r[n] == Prop(props[n].kind, TransformOpt(props[n].visible), TransformOpt(props[n].expr))
  {
    if |props| > 1 {
      TransformPropsLast(props[1..]);
      assert props[..|props| - 1][1..] == props[1..][..|props| - 2];
    }
  }

  lemma TransformOptExact(e: Option<Expr>, v: Valuation)
    ensures EvalOpt(TransformOpt(e), v) == EvalOpt(e, v)
  {
    if e.Some? { TransformExact(e.value, v); }
  }

  lemma {:induction false} TransformPromptsExact(props: seq<Prop>, v: Valuation)
    ensures BestPrompt(TransformProps(props), v) == BestPrompt(props, v)
  {
    if props != [] {
      TransformPropsLast(props);
      TransformPromptsExact(props[..|props| - 1], v);
      TransformOptExact(props[|props| - 1].visible, v);
    }
  }

  lemma {:induction false} TransformDefaultsExact(props: seq<Prop>, v: Valuation)
    ensures DefaultTri(TransformProps(props), v) == DefaultTri(props, v)
  {
    if props != [] {
      TransformOptExact(props[0].visible, v);
      TransformOptExact(props[0].expr, v);
      assert TransformProps(props)[1..] == TransformProps(props[1..]);
      TransformDefaultsExact(props[1..], v);
    }
  }

  /** Bringing every expression of a configuration into normal form changes no logical symbol's equation. */
  lemma TransformConfigExact(cfg: Config, mods: Tri, v: Valuation, s: Sym)
    requires s.IsLogical()
    ensures Local(s, DefOf(TransformConfig(cfg), s), mods, v) == Local(s, DefOf(cfg, s), mods, v)
    ensures Solves(TransformConfig(cfg), mods, v, s) <==> Solves(cfg, mods, v, s)
  {
    var def := DefOf(cfg, s);
    TransformPromptsExact(def.props, v);
    TransformDefaultsExact(def.props, v);
    if def.revDep.Some? { TransformExact(def.revDep.value, v); }
  }
}
