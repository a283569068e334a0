/** What the values of a solution are, in terms of the user's values, conditions, defaults and selects. */
module Values {
  import opened Tristate
  import opened Expressions
  import opened Configuration

  /** m cannot be a value of s: it is no tristate, or there are no modules. */
  predicate NeverMod(s: Sym, mods: Tri) {
    s.Type() != SymType.Tristate || mods == NO
  }

  function Promoted(s: Sym, mods: Tri, t: Tri): Tri {
    if t == MOD && NeverMod(s, mods) then YES else t
  }

  /** The condition of the i-th property. */
  function ConditionAt(props: seq<Prop>, i: nat, v: Valuation): Tri
    requires i < |props|
  {
    if props[i].visible.Some? then Eval(props[i].visible.value, v) else YES
  }

  /** The i-th property is a text with the condition t. */
  predicate TextWith(props: seq<Prop>, i: nat, v: Valuation, t: Tri) {
    && i < |props| && (props[i].kind.Prompt? || props[i].kind.Comment? || props[i].kind.Menu?)
    && ConditionAt(props, i, v) == t
  }

  /** The best condition is attained by some text, unless it is n, and is at least that of every text. */
  lemma {:induction false} BestPromptExact(props: seq<Prop>, v: Valuation)
    ensures BestPrompt(props, v) != NO ==> exists i: nat :: TextWith(props, i, v, BestPrompt(props, v))
    ensures forall i: nat, t: Tri :: TextWith(props, i, v, t) ==> t <= BestPrompt(props, v)
  {
    if props != [] {
      var n := |props| - 1;
      var init := props[..n];
      BestPromptExact(init, v);
      var b := BestPrompt(init, v);
      forall i: nat, t: Tri | TextWith(props, i, v, t) ensures t <= BestPrompt(props, v) {
        if i < n { assert TextWith(init, i, v, t); }
      }
      if BestPrompt(props, v) != NO {
        if props[n].HasText() && EvalOpt(props[n].visible, v) >= b {
          assert TextWith(props, n, v, BestPrompt(props, v));
        } else {
          var i: nat :| TextWith(init, i, v, b);
          assert TextWith(props, i, v, b);
        }
      }
    }
  }

  /** t is the visibility of s: the best condition of its texts, m counting as y unless s can be m. */
  ghost predicate IsVisibility(s: Sym, props: seq<Prop>, mods: Tri, v: Valuation, t: Tri) {
    && (forall i: nat, c: Tri :: TextWith(props, i, v, c) ==> Promoted(s, mods, c) <= t)
    && (t != NO ==> exists i: nat, c: Tri :: TextWith(props, i, v, c) && Promoted(s, mods, c) == t)
  }

  lemma VisibleExact(s: Sym, def: Def, mods: Tri, v: Valuation)
    ensures IsVisibility(s, def.props, mods, v, VisibleTri(s, def, mods, v))
  {
    var b := BestPrompt(def.props, v);
    BestPromptExact(def.props, v);
    if b != NO {
      var i: nat :| TextWith(def.props, i, v, b);
      assert TextWith(def.props, i, v, b) && Promoted(s, mods, b) == VisibleTri(s, def, mods, v);
    }
  }

  /** What s is selected to: the value of its reverse dependency, m counting as y if s is a boolean or cannot be m. */
  lemma RevExact(s: Sym, def: Def, mods: Tri, v: Valuation)
    requires s.IsLogical()
    ensures RevTri(s, def, mods, v) ==
              Promoted(s, mods, if def.revDep.Some? then Eval(def.revDep.value, v) else NO)
  {
  }

  /** The i-th property is the first default whose condition is not n. */
  ghost predicate FirstDefault(props: seq<Prop>, i: nat, v: Valuation) {
    && i < |props| && props[i].kind.Default? && ConditionAt(props, i, v) != NO
    && forall j: nat :: j < i && props[j].kind.Default? ==> ConditionAt(props, j, v) == NO
  }

  lemma {:induction false} ActiveDefaultExact(props: seq<Prop>, v: Valuation)
    ensures match ActiveDefault(props, v)
            case None => forall i: nat :: !FirstDefault(props, i, v)
            case Some(p) => exists i: nat :: FirstDefault(props, i, v) && props[i] == p
  {
    if props != [] {
      if props[0].kind.Default? && EvalOpt(props[0].visible, v) != NO {
        assert FirstDefault(props, 0, v);
      } else {
        var rest := props[1..];
        ActiveDefaultExact(rest, v);
        forall i: nat | 0 < i < |props| ensures FirstDefault(props, i, v) <==> FirstDefault(rest, i - 1, v) {
          ShiftDefault(props, i, v);
        }
        assert !FirstDefault(props, 0, v);
        if ActiveDefault(rest, v).Some? {
          var i: nat :| FirstDefault(rest, i, v) && rest[i] == ActiveDefault(rest, v).value;
          assert FirstDefault(props, i + 1, v) && props[i + 1] == rest[i];
        }
      }
    }
  }

  /** A first property that is no active default makes no difference. */
  lemma ShiftDefault(props: seq<Prop>, i: nat, v: Valuation)
    requires 0 < i < |props| && (props[0].kind.Default? ==> EvalOpt(props[0].visible, v) == NO)
    ensures FirstDefault(props, i, v) <==> FirstDefault(props[1..], i - 1, v)
  {
    var rest := props[1..];
    forall j: nat | 0 < j < |props|
      ensures props[j] == rest[j - 1] && ConditionAt(props, j, v) == ConditionAt(rest, j - 1, v)
    {
    }
    if FirstDefault(props, i, v) {
      forall j: nat | j < i - 1 && rest[j].kind.Default? ensures ConditionAt(rest, j, v) == NO {
        assert props[j + 1] == rest[j];
      }
    }
    if FirstDefault(rest, i - 1, v) {
      forall j: nat | j < i && props[j].kind.Default? ensures ConditionAt(props, j, v) == NO {
        if j > 0 { assert rest[j - 1] == props[j]; }
      }
    }
  }

  lemma FirstDefaultUnique(props: seq<Prop>, i: nat, j: nat, v: Valuation)
    requires FirstDefault(props, i, v) && FirstDefault(props, j, v)
    ensures i == j
  {
  }

  // ---------- solutions ----------

  /** The visibility of s and what it is selected to. */
  function Visible(cfg: Config, mods: Tri, v: Valuation, s: Sym): Tri {
    VisibleTri(s, DefOf(cfg, s), mods, v)
  }

  function Selected(cfg: Config, mods: Tri, v: Valuation, s: Sym): Tri {
    RevTri(s, DefOf(cfg, s), mods, v)
  }

  /** t cut to the visibility and raised to what s is selected to. */
  function Bounded(cfg: Config, mods: Tri, v: Valuation, s: Sym, t: Tri): Tri {
    var vis, rev := Visible(cfg, mods, v, s), Selected(cfg, mods, v, s);
    var cut := if t <= vis then t else vis;
    if cut >= rev then cut else rev
  }

  predicate Reachable(cfg: Config, mods: Tri, v: Valuation, s: Sym) {
    Visible(cfg, mods, v, s) != NO || Selected(cfg, mods, v, s) != NO
  }

  /** Where a logical symbol is visible or selected, the user's value counts, within these bounds. */
  lemma UserValue(cfg: Config, mods: Tri, v: Valuation, s: Sym)
    requires Solution(cfg, mods, v) && Valued(s) && s.IsLogical()
    requires Reachable(cfg, mods, v, s) && DefOf(cfg, s).hasValue
    ensures var user := DefOf(cfg, s).userTri;
            && SymTri(v, s) == Promoted(s, mods, Bounded(cfg, mods, v, s, user))
            && (Selected(cfg, mods, v, s) <= user <= Visible(cfg, mods, v, s) && !(user == MOD && NeverMod(s, mods)) ==>
                  SymTri(v, s) == user)
  {
    assert Solves(cfg, mods, v, s);
  }

  /** Without a user's value the first default whose condition is not n counts, within the same bounds. */
  lemma DefaultValue(cfg: Config, mods: Tri, v: Valuation, s: Sym, i: nat)
    requires Solution(cfg, mods, v) && Valued(s) && s.IsLogical()
    requires !Reachable(cfg, mods, v, s) || !DefOf(cfg, s).hasValue
    requires FirstDefault(DefOf(cfg, s).props, i, v)
    ensures var e := DefOf(cfg, s).props[i].expr;
            var t := if e.Some? then Eval(e.value, v) else YES;
            SymTri(v, s) == Promoted(s, mods, if Reachable(cfg, mods, v, s) then Bounded(cfg, mods, v, s, t) else t)
  {
    assert Solves(cfg, mods, v, s);
    var props := DefOf(cfg, s).props;
    ActiveDefaultExact(props, v);
    var j: nat :| FirstDefault(props, j, v) && props[j] == ActiveDefault(props, v).value;
    FirstDefaultUnique(props, i, j, v);
  }

  /** Without such a default it is what the symbol is selected to. */
  lemma NoValue(cfg: Config, mods: Tri, v: Valuation, s: Sym)
    requires Solution(cfg, mods, v) && Valued(s) && s.IsLogical()
    requires !Reachable(cfg, mods, v, s) || !DefOf(cfg, s).hasValue
    requires forall i: nat :: !FirstDefault(DefOf(cfg, s).props, i, v)
    ensures SymTri(v, s) == Selected(cfg, mods, v, s)
  {
    assert Solves(cfg, mods, v, s);
    ActiveDefaultExact(DefOf(cfg, s).props, v);
    RevExact(s, DefOf(cfg, s), mods, v);
  }

  /** The text of a symbol that is not logical is the user's while it is visible. */
  lemma UserText(cfg: Config, mods: Tri, v: Valuation, s: Sym)
    requires Solution(cfg, mods, v) && Valued(s) && !s.IsLogical()
    requires Visible(cfg, mods, v, s) != NO && DefOf(cfg, s).hasValue
    ensures SymText(v, s) == DefOf(cfg, s).userText
  {
    assert Solves(cfg, mods, v, s);
  }

  /** Otherwise it is that of the symbol the first default names whose condition is not n, if it names one. */
  lemma DefaultTextValue(cfg: Config, mods: Tri, v: Valuation, s: Sym, i: nat)
    requires Solution(cfg, mods, v) && Valued(s) && !s.IsLogical()
    requires Visible(cfg, mods, v, s) == NO || !DefOf(cfg, s).hasValue
    requires FirstDefault(DefOf(cfg, s).props, i, v)
    ensures match DefOf(cfg, s).props[i].expr
            case Some(Symbol(d)) => SymText(v, s) == RawText(v, d)
            case _ => SymText(v, s) == ""
  {
    assert Solves(cfg, mods, v, s);
    var props := DefOf(cfg, s).props;
    ActiveDefaultExact(props, v);
    var j: nat :| FirstDefault(props, j, v) && props[j] == ActiveDefault(props, v).value;
    FirstDefaultUnique(props, i, j, v);
  }

  lemma NoText(cfg: Config, mods: Tri, v: Valuation, s: Sym)
    requires Solution(cfg, mods, v) && Valued(s) && !s.IsLogical()
    requires Visible(cfg, mods, v, s) == NO || !DefOf(cfg, s).hasValue
    requires forall i: nat :: !FirstDefault(DefOf(cfg, s).props, i, v)
    ensures SymText(v, s) == ""
  {
    assert Solves(cfg, mods, v, s);
    ActiveDefaultExact(DefOf(cfg, s).props, v);
  }
}
