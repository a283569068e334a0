/** The memoising evaluator of symbols. */
module Evaluator {
  import opened Options
  import opened Tristate
  import opened Expressions
  import opened Configuration

  /** The computed fields of a symbol: curr, visible and rev_dep.tri. */
  datatype Fields = Fields(curr: Value, visible: Tri, revTri: Tri)

  /**
   * What the values computed are compared with: a solution v of the definitions under the given value of the modules
   * symbol, a layering of the symbols, and the fields v calls for.
   */
  datatype Reference = Reference(v: Valuation, rank: Sym -> nat, mods: Tri, fields: Sym -> Fields)

  function ReferenceFor(cfg: Config, mods: Tri, v: Valuation, rank: Sym -> nat): Reference {
    Reference(v, rank, mods,
              s => Fields(Value(RawText(v, s), SymTri(v, s)),
                          VisibleTri(s, DefOf(cfg, s), mods, v), RevTri(s, DefOf(cfg, s), mods, v)))
  }

  /** The fields of s are those of the solution, and the solution solves the definition of s. */
  ghost predicate Describes(cfg: Config, r: Reference, s: Sym) {
    && r.fields(s).curr == Value(RawText(r.v, s), SymTri(r.v, s))
    && r.fields(s).visible == VisibleTri(s, DefOf(cfg, s), r.mods, r.v)
    && r.fields(s).revTri == RevTri(s, DefOf(cfg, s), r.mods, r.v)
    && (Valued(s) ==> Solves(cfg, r.mods, r.v, s))
  }

  /** The dependencies have no cycles, v solves the definitions, and m exists just as v's modules symbol says. */
  ghost predicate Applies(cfg: Config, r: Reference) {
    && Layered(cfg, r.rank)
    && (forall s {:trigger Describes(cfg, r, s)} :: Describes(cfg, r, s))
    && (cfg.modules.Some? ==> r.fields(cfg.modules.value).curr.tri == r.mods)
  }

  lemma ReferenceApplies(cfg: Config, mods: Tri, v: Valuation, rank: Sym -> nat)
    requires Layered(cfg, rank) && Solution(cfg, mods, v)
    requires cfg.modules.Some? ==> SymTri(v, cfg.modules.value) == mods
    ensures Applies(cfg, ReferenceFor(cfg, mods, v, rank))
  {
    var r := ReferenceFor(cfg, mods, v, rank);
    forall s ensures Describes(cfg, r, s) {
      if Valued(s) { assert Solves(cfg, mods, v, s); }
    }
  }

  /** The symbols of ss come before all symbols of `busy`. */
  ghost predicate Precede(rank: Sym -> nat, ss: set<Sym>, busy: set<Sym>) {
    forall d, b :: d in ss && b in busy ==> rank(d) < rank(b)
  }

  lemma DepsPrecede(cfg: Config, r: Reference, s: Sym, ss: set<Sym>, busy: set<Sym>)
    requires ss <= Edges(cfg, s)
    requires Applies(cfg, r) ==> Precede(r.rank, {s}, busy)
    ensures Applies(cfg, r) ==> Precede(r.rank, ss, busy + {s})
  {
    if Applies(cfg, r) {
      forall d, b | d in ss && b in busy + {s} ensures r.rank(d) < r.rank(b) {
        assert d in Edges(cfg, s);
        if b in busy { assert s in {s}; }
      }
    }
  }

  lemma DefaultSymsIn(props: seq<Prop>, p: Prop)
    requires p in props && p.kind.Default?
    ensures OptSyms(p.expr) <= AllPropSyms(props)
    ensures p.NamedSymbol().Some? ==> p.NamedSymbol().value in AllPropSyms(props)
  {
    var i :| 0 <= i < |props| && props[i] == p;
    PropSymsIn(props, i);
  }

  const BUILTINS: set<Sym> := {YesSym, ModSym, NoSym}

  function BuiltinFields(s: Sym): Fields
    requires s.IsBuiltin()
  {
    Fields(if s.YesSym? then Value("y", YES) else if s.ModSym? then Value("m", MOD) else Value("n", NO), NO, NO)
  }

  class SymbolTable {
    const cfg: Config
    /** The symbols with SYMBOL_VALID set. */
    var valid: set<Sym>
    var fields: map<Sym, Fields>
    var modulesVal: Tri

    constructor (cfg: Config, modulesVal: Tri)
      ensures this.cfg == cfg && this.modulesVal == modulesVal
      ensures Inv() && valid == BUILTINS
    {
      this.cfg := cfg;
      valid := BUILTINS;
      fields := map[YesSym := BuiltinFields(YesSym), ModSym := BuiltinFields(ModSym), NoSym := BuiltinFields(NoSym)];
      this.modulesVal := modulesVal;
    }

    /** Every valid symbol has fields; those of the built-in symbols are fixed. */
    ghost predicate Inv()
      reads this
    {
      && BUILTINS <= valid <= fields.Keys
      && forall s :: s in BUILTINS ==> fields[s] == BuiltinFields(s)
    }

    /** The symbol's fields are what the solution says. */
    ghost predicate Agrees(s: Sym, r: Reference)
      reads this
    {
      s in fields && if Valued(s) then fields[s] == r.fields(s) else fields[s].curr == r.fields(s).curr
    }

    /** All valid symbols but those being computed agree with the reference, if it applies. */
    ghost predicate Good(r: Reference, busy: set<Sym>)
      reads this
    {
      Applies(cfg, r) ==> modulesVal == r.mods && forall s :: s in valid && s !in busy ==> Agrees(s, r)
    }

    /** Valid symbols, except perhaps one, keep their fields. */
    twostate predicate KeptBut(but: Option<Sym>)
      reads this
    {
      && old(valid) <= valid
      && forall s :: s in old(valid) && s in old(fields) && but != Some(s) ==>
           s in fields && fields[s] == old(fields)[s]
    }

    /** The string a comparison looks at. */
    function StringValue(s: Sym): string
      requires s in fields
      reads this
    {
      if s.IsLogical() then TriString(fields[s].curr.tri) else fields[s].curr.text
    }

    /** Evaluates the symbol unless that was done before. Ends even when symbols depend on each other in a cycle. */
    method CalcValue(s: Sym, ghost r: Reference, ghost busy: set<Sym>)
      requires Inv() && Good(r, busy)
      requires Applies(cfg, r) ==> Precede(r.rank, {s}, busy)
      modifies this
      ensures Inv() && Good(r, busy) && KeptBut(None) && s in valid
      ensures Applies(cfg, r) ==> Agrees(s, r)
      decreases cfg.defs.Keys - valid, 0, 0
    {
      if s in valid {
        return;
      }
      Enter(s, r, busy);
      if !Valued(s) {
        return;
      }
      var newval := if s.IsLogical() then Value("n", NO) else Value("", NO);
      if s in cfg.defs {
        CalcDefined(s, newval, r, busy);
      } else {
        SetUndefined(s, newval, r, busy);
      }
      if cfg.modules == Some(s) {
        modulesVal := fields[s].curr.tri;
      }
    }

    /** Marks the symbol valid; a symbol that is not of a value type stands for its own name. */
    method Enter(s: Sym, ghost r: Reference, ghost busy: set<Sym>)
      requires Inv() && Good(r, busy) && s !in valid
      modifies this`valid, this`fields
      ensures Inv() && Good(r, busy + {s}) && KeptBut(None) && valid == old(valid) + {s}
      ensures Applies(cfg, r) && !Valued(s) ==> Agrees(s, r)
    {
      assert Applies(cfg, r) ==> Describes(cfg, r, s);
      var f := if s in fields then fields[s] else Fields(Value("", NO), NO, NO);
      valid := valid + {s};
      if !Valued(s) {
        f := f.(curr := Value(if s.NamedSym? then s.name else s.text, NO));
      }
      fields := fields[s := f];
    }

    /** Without properties there is nothing to evaluate. */
    method SetUndefined(s: Sym, initial: Value, ghost r: Reference, ghost busy: set<Sym>)
      requires Inv() && s in valid && Valued(s) && s !in cfg.defs && Good(r, busy + {s})
      requires initial == if s.IsLogical() then Value("n", NO) else Value("", NO)
      modifies this`fields
      ensures Inv() && Good(r, busy + {s}) && KeptBut(Some(s))
      ensures Applies(cfg, r) ==> Agrees(s, r)
    {
      assert Applies(cfg, r) ==> Describes(cfg, r, s);
      fields := fields[s := Fields(initial, NO, NO)];
    }

    /** The part of the evaluation that looks at the definition; the symbol itself is valid by now. */
    method CalcDefined(s: Sym, initial: Value, ghost r: Reference, ghost busy: set<Sym>)
      requires Inv() && s in valid && s in cfg.defs && Valued(s)
      requires initial == if s.IsLogical() then Value("n", NO) else Value("", NO)
      requires Good(r, busy + {s})
      requires Applies(cfg, r) ==> Precede(r.rank, {s}, busy)
      modifies this
      ensures Inv() && Good(r, busy + {s}) && KeptBut(Some(s))
      ensures Applies(cfg, r) ==> Agrees(s, r)
      decreases cfg.defs.Keys - valid, 3, 0
    {
      var def := cfg.defs[s];
      CalcVisibility(s, def, r, busy);
      // the default for recursive calls
      SetFields(s, fields[s].(curr := initial), r, busy);
      var newval := CalcNewValue(s, def, r, busy);
      SetFields(s, fields[s].(curr := newval), r, busy);
    }

    method SetFields(s: Sym, f: Fields, ghost r: Reference, ghost busy: set<Sym>)
      requires Inv() && s in valid && !s.IsBuiltin() && Good(r, busy + {s})
      modifies this`fields
      ensures Inv() && Good(r, busy + {s}) && KeptBut(Some(s)) && fields == old(fields)[s := f]
    {
      fields := fields[s := f];
    }

    /** The new value, once the visibility is known. */
    method CalcNewValue(s: Sym, def: Def, ghost r: Reference, ghost busy: set<Sym>) returns (newval: Value)
      requires Inv() && s in valid && s in cfg.defs && Valued(s) && def == cfg.defs[s]
      requires Good(r, busy + {s})
      requires Applies(cfg, r) ==> Precede(r.rank, {s}, busy)
      requires Applies(cfg, r) ==>
                 fields[s].visible == r.fields(s).visible && fields[s].revTri == r.fields(s).revTri
      modifies this
      ensures Inv() && Good(r, busy + {s}) && KeptBut(None)
      ensures Applies(cfg, r) ==> newval == r.fields(s).curr
      decreases cfg.defs.Keys - valid, 2, 2
    {
      assert Applies(cfg, r) ==> Describes(cfg, r, s);
      var vis, rev := fields[s].visible, fields[s].revTri;
      if s.IsLogical() {
        var tri := NO;
        if TriOr(vis, rev) != NO {
          if def.hasValue {
            tri := def.userTri;
          } else {
            tri := CalcDefaultTri(s, def, r, busy);
          }
          tri := TriOr(TriAnd(tri, vis), rev);
        } else {
          tri := CalcDefaultTri(s, def, r, busy);
        }
        if tri == MOD && EffectiveType(s, modulesVal) == Boolean {
          tri := YES;
        }
        newval := Value("n", tri);
      } else if vis != NO && def.hasValue {
        newval := Value(def.userText, NO);
      } else {
        var text := CalcDefaultText(s, def, r, busy);
        newval := Value(text, NO);
      }
    }

    method CalcVisibility(s: Sym, def: Def, ghost r: Reference, ghost busy: set<Sym>)
      requires Inv() && s in valid && s in cfg.defs && Valued(s) && def == cfg.defs[s]
      requires Good(r, busy + {s})
      requires Applies(cfg, r) ==> Precede(r.rank, {s}, busy)
      modifies this
      ensures Inv() && Good(r, busy + {s}) && KeptBut(Some(s))
      ensures Applies(cfg, r) ==> fields[s].visible == r.fields(s).visible && fields[s].revTri == r.fields(s).revTri
      decreases cfg.defs.Keys - valid, 2, 2
    {
      assert Applies(cfg, r) ==> Describes(cfg, r, s);
      var tri := CalcPrompts(s, def, r, busy);
      if tri == MOD && (s.Type() != SymType.Tristate || modulesVal == NO) {
        tri := YES;
      }
      SetFields(s, fields[s].(visible := tri), r, busy);
      var rev := CalcRev(s, def, r, busy);
      if rev == MOD && EffectiveType(s, modulesVal) == Boolean {
        rev := YES;
      }
      SetFields(s, fields[s].(revTri := rev), r, busy);
    }

    /** What the selects of other symbols give. */
    method CalcRev(s: Sym, def: Def, ghost r: Reference, ghost busy: set<Sym>) returns (tri: Tri)
      requires Inv() && s in valid && s in cfg.defs && def == cfg.defs[s]
      requires Good(r, busy + {s})
      requires Applies(cfg, r) ==> Precede(r.rank, {s}, busy)
      modifies this
      ensures Inv() && Good(r, busy + {s}) && KeptBut(None)
      ensures Applies(cfg, r) ==> tri == if def.revDep.None? then NO else Eval(def.revDep.value, r.v)
      decreases cfg.defs.Keys - valid, 2, 0
    {
      tri := NO;
      if def.revDep.Some? {
        tri := CalcOpt(def.revDep, s, r, busy);
      }
    }

    /** The best condition among the prompts. */
    method CalcPrompts(s: Sym, def: Def, ghost r: Reference, ghost busy: set<Sym>) returns (tri: Tri)
      requires Inv() && s in valid && s in cfg.defs && def == cfg.defs[s]
      requires Good(r, busy + {s})
      requires Applies(cfg, r) ==> Precede(r.rank, {s}, busy)
      modifies this
      ensures Inv() && Good(r, busy + {s}) && KeptBut(None)
      ensures Applies(cfg, r) ==> tri == BestPrompt(def.props, r.v)
      decreases cfg.defs.Keys - valid, 2, 0
    {
      tri := NO;
      var i := 0;
      while i < |def.props|
        invariant 0 <= i <= |def.props|
        invariant Inv() && Good(r, busy + {s}) && KeptBut(None)
        invariant Applies(cfg, r) ==> tri == BestPrompt(def.props[..i], r.v)
      {
        var p := def.props[i];
        assert def.props[..i + 1][..i] == def.props[..i];
        if p.HasText() {
          PropSymsIn(def.props, i);
          var t := CalcOpt(p.visible, s, r, busy);
          tri := TriOr(tri, t);
        }
        i := i + 1;
      }
      assert def.props[..i] == def.props;
    }

    /** The first default whose condition is not n. */
    method CalcActiveDefault(s: Sym, def: Def, ghost r: Reference, ghost busy: set<Sym>) returns (d: Option<Prop>)
      requires Inv() && s in valid && s in cfg.defs && def == cfg.defs[s]
      requires Good(r, busy + {s})
      requires Applies(cfg, r) ==> Precede(r.rank, {s}, busy)
      modifies this
      ensures Inv() && Good(r, busy + {s}) && KeptBut(None)
      ensures Applies(cfg, r) ==> d == ActiveDefault(def.props, r.v)
      ensures d.Some? ==> d.value in def.props && d.value.kind.Default?
      decreases cfg.defs.Keys - valid, 2, 0
    {
      var i := 0;
      while i < |def.props|
        invariant 0 <= i <= |def.props|
        invariant Inv() && Good(r, busy + {s}) && KeptBut(None)
        invariant Applies(cfg, r) ==> ActiveDefault(def.props, r.v) == ActiveDefault(def.props[i..], r.v)
      {
        var p := def.props[i];
        assert def.props[i..][1..] == def.props[i + 1..];
        if p.kind.Default? {
          PropSymsIn(def.props, i);
          var t := CalcOpt(p.visible, s, r, busy);
          if t != NO {
            return Some(p);
          }
        }
        i := i + 1;
      }
      return None;
    }

    method CalcDefaultTri(s: Sym, def: Def, ghost r: Reference, ghost busy: set<Sym>) returns (t: Tri)
      requires Inv() && s in valid && s in cfg.defs && def == cfg.defs[s]
      requires Good(r, busy + {s})
      requires Applies(cfg, r) ==> Precede(r.rank, {s}, busy)
      modifies this
      ensures Inv() && Good(r, busy + {s}) && KeptBut(None)
      ensures Applies(cfg, r) ==> t == DefaultTri(def.props, r.v)
      decreases cfg.defs.Keys - valid, 2, 1
    {
      t := NO;
      var d := CalcActiveDefault(s, def, r, busy);
      if d.Some? {
        DefaultSymsIn(def.props, d.value);
        t := CalcOpt(d.value.expr, s, r, busy);
      }
    }

    method CalcDefaultText(s: Sym, def: Def, ghost r: Reference, ghost busy: set<Sym>) returns (text: string)
      requires Inv() && s in valid && s in cfg.defs && def == cfg.defs[s]
      requires Good(r, busy + {s})
      requires Applies(cfg, r) ==> Precede(r.rank, {s}, busy)
      modifies this
      ensures Inv() && Good(r, busy + {s}) && KeptBut(None)
      ensures Applies(cfg, r) ==> text == DefaultText(def.props, r.v)
      decreases cfg.defs.Keys - valid, 2, 1
    {
      text := "";
      var d := CalcActiveDefault(s, def, r, busy);
      if d.Some? && d.value.NamedSymbol().Some? {
        var ds := d.value.NamedSymbol().value;
        DefaultSymsIn(def.props, d.value);
        DepsPrecede(cfg, r, s, {ds}, busy);
        CalcValue(ds, r, busy + {s});
        assert Applies(cfg, r) ==> Describes(cfg, r, ds);
        text := fields[ds].curr.text;
      }
    }

    /** The value of a condition of s; a missing condition is y. */
    method CalcOpt(e: Option<Expr>, s: Sym, ghost r: Reference, ghost busy: set<Sym>) returns (t: Tri)
      requires Inv() && s in valid && OptSyms(e) <= Edges(cfg, s)
      requires Good(r, busy + {s})
      requires Applies(cfg, r) ==> Precede(r.rank, {s}, busy)
      modifies this
      ensures Inv() && Good(r, busy + {s}) && KeptBut(None)
      ensures Applies(cfg, r) ==> t == EvalOpt(e, r.v)
      decreases cfg.defs.Keys - valid, 1, if e.None? then 0 else 1 + Size(e.value)
    {
      if e.None? {
        return YES;
      }
      DepsPrecede(cfg, r, s, OptSyms(e), busy);
      t := CalcExpr(e.value, r, busy + {s});
    }

    lemma StringValues(s: Sym, t: Sym, r: Reference)
      requires s in fields && t in fields
      ensures Applies(cfg, r) && Agrees(s, r) && Agrees(t, r) ==>
                StringValue(s) == SymText(r.v, s) && StringValue(t) == SymText(r.v, t)
    {
      assert Applies(cfg, r) ==> Describes(cfg, r, s) && Describes(cfg, r, t);
    }

    method CalcExpr(e: Expr, ghost r: Reference, ghost busy: set<Sym>) returns (t: Tri)
      requires Inv() && Good(r, busy)
      requires Applies(cfg, r) ==> Precede(r.rank, Syms(e), busy)
      modifies this
      ensures Inv() && Good(r, busy) && KeptBut(None)
      ensures Applies(cfg, r) ==> t == Eval(e, r.v)
      decreases cfg.defs.Keys - valid, 1, Size(e)
    {
      match e
      case Symbol(s) =>
        CalcValue(s, r, busy);
        assert Applies(cfg, r) ==> Describes(cfg, r, s);
        t := fields[s].curr.tri;
      case Bin(op, left, right) =>
        var t1 := CalcExpr(left, r, busy);
        var t2 := CalcExpr(right, r, busy);
        t := op.Apply(t1, t2);
      case Not(a) =>
        var t1 := CalcExpr(a, r, busy);
        t := TriNot(t1);
      case Equal(left, right) =>
        CalcValue(left, r, busy);
        CalcValue(right, r, busy);
        StringValues(left, right, r);
        t := if StringValue(left) == StringValue(right) then YES else NO;
      case Unequal(left, right) =>
        CalcValue(left, r, busy);
        CalcValue(right, r, busy);
        StringValues(left, right, r);
        t := if StringValue(left) == StringValue(right) then NO else YES;
    }

    /** sym_clear_all_valid: everything but the built-in symbols is evaluated afresh, the modules symbol first. */
    method ClearAllValid(ghost r: Reference)
      requires Inv() && modulesVal == r.mods
      modifies this
      ensures Inv() && Good(r, {})
    {
      forall s | s in BUILTINS ensures Applies(cfg, r) ==> Agrees(s, r) {
        assert Applies(cfg, r) ==> Describes(cfg, r, s);
      }
      valid := BUILTINS;
      if cfg.modules.Some? {
        CalcValue(cfg.modules.value, r, {});
      }
    }

    /** Evaluating symbols in any order gives each of them the value of the solution. */
    method CalcAll(order: seq<Sym>, ghost r: Reference)
      requires Inv() && Good(r, {})
      modifies this
      ensures Inv() && Good(r, {}) && forall s :: s in order ==> s in valid
      ensures Applies(cfg, r) ==> forall s :: s in order ==> Agrees(s, r)
    {
      var i := 0;
      while i < |order|
        invariant 0 <= i <= |order|
        invariant Inv() && Good(r, {})
        invariant forall k :: 0 <= k < i ==> order[k] in valid
      {
        CalcValue(order[i], r, {});
        i := i + 1;
      }
    }
  }
}
