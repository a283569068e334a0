/** From the check for recursive dependencies to the values of the symbols. */
module Pipeline {
  import opened Tristate
  import opened Expressions
  import opened Configuration
  import opened CycleCheck
  import opened Evaluator

  /** Any solution of an acyclic configuration serves as reference, and agrees with every other one. */
  lemma AcyclicReference(cfg: Config, mods: Tri, v: Valuation)
    requires forall s :: s in cfg.defs ==> !ReachesCycle(cfg, s)
    requires Solution(cfg, mods, v) && (cfg.modules.Some? ==> SymTri(v, cfg.modules.value) == mods)
    ensures Applies(cfg, ReferenceFor(cfg, mods, v, DependencyCount(cfg)))
  {
    NoCyclesLayered(cfg);
    ReferenceApplies(cfg, mods, v, DependencyCount(cfg));
  }

  /** Evaluates symbols in the given order, from scratch. */
  method Evaluate(cfg: Config, order: seq<Sym>, modulesVal: Tri, ghost r: Reference) returns (values: map<Sym, Value>)
    requires r.mods == modulesVal
    ensures forall s :: s in order ==> s in values
    ensures Applies(cfg, r) ==> forall s :: s in order ==> values[s] == r.fields(s).curr
  {
    var table := new SymbolTable(cfg, modulesVal);
    table.ClearAllValid(r);
    table.CalcAll(order, r);
    values := map s | s in order :: table.fields[s].curr;
    assert Applies(cfg, r) ==> forall s :: s in order ==> table.Agrees(s, r);
  }

  /** v solves the definitions, and m exists as its modules symbol says. */
  ghost predicate SolvedBy(cfg: Config, mods: Tri, v: Valuation) {
    Solution(cfg, mods, v) && (cfg.modules.Some? ==> SymTri(v, cfg.modules.value) == mods)
  }

  /** The values are those v gives to the symbols. */
  ghost predicate ValuesOf(values: map<Sym, Value>, order: seq<Sym>, v: Valuation) {
    forall s :: s in order ==> s in values && values[s] == Value(RawText(v, s), SymTri(v, s))
  }

  lemma SolutionsAgree(cfg: Config, mods: Tri, v: Valuation, w: Valuation, values: map<Sym, Value>, order: seq<Sym>)
    requires forall s :: s in cfg.defs ==> !ReachesCycle(cfg, s)
    requires Solution(cfg, mods, v) && Solution(cfg, mods, w) && ValuesOf(values, order, v)
    ensures ValuesOf(values, order, w)
  {
    NoCyclesLayered(cfg);
    forall s | s in order ensures s in values && values[s] == Value(RawText(w, s), SymTri(w, s)) {
      SolutionUnique(cfg, mods, DependencyCount(cfg), v, w, s);
    }
  }

  /**
   * Checks a configuration and evaluates symbols in the given order. If the check reports nothing, every evaluated
   * symbol has the value that every solution of the definitions gives it, whatever the order.
   */
  method CheckAndEvaluate(cfg: Config, symbols: seq<Sym>, order: seq<Sym>, modulesVal: Tri)
    returns (reported: seq<Sym>, values: map<Sym, Value>)
    requires forall s :: s in cfg.defs ==> s in symbols
    ensures reported == [] <==> forall s :: s in symbols ==> !ReachesCycle(cfg, s)
    ensures forall s :: s in order ==> s in values
    ensures reported == [] ==> forall v: Valuation :: SolvedBy(cfg, modulesVal, v) ==> ValuesOf(values, order, v)
  {
    var checker := new DepChecker(cfg);
    reported := checker.CheckAll(symbols);
    ghost var v := Valuation(_ => NO, _ => "");
    if w: Valuation :| SolvedBy(cfg, modulesVal, w) {
      v := w;
    }
    values := Evaluate(cfg, order, modulesVal, ReferenceFor(cfg, modulesVal, v, DependencyCount(cfg)));
    if reported == [] {
      forall w: Valuation | SolvedBy(cfg, modulesVal, w) ensures ValuesOf(values, order, w) {
        AcyclicReference(cfg, modulesVal, v);
        SolutionsAgree(cfg, modulesVal, v, w, values, order);
      }
    }
  }
}
