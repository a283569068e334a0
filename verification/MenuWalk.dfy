/** Visiting the entries of the menu in order, before and after the pass that rearranges them. */
module MenuWalk {
  import opened Options
  import opened Tristate
  import opened Expressions
  import opened Comparisons
  import opened MenuLinks
  import opened MenuInfo
  import opened MenuNesting
  import opened MenuFinalize
  import opened MenuTrees
  import opened Configuration
  import opened NestingTest

  /** The entry to visit after `start`, which is d levels below an entry without parent. */
  method NextMenu(links: map<nat, Links>, start: nat, ghost d: nat) returns (menu: Option<nat>)
    requires AtDepth(links, start, d)
    ensures menu == NextOf(links, start, d)
  {
    if links[start].list.Some? {
      return links[start].list;
    }
    menu := Some(start);
    ghost var e := d;
    while true
      invariant menu.Some? && AtDepth(links, menu.value, e)
      invariant Climb(links, menu.value, e) == NextOf(links, start, d)
      decreases e
    {
      var m := menu.value;
      if links[m].next.Some? {
        menu := links[m].next;
        break;
      }
      menu := links[m].parent;
      if menu.None? {
        break;
      }
      e := e - 1;
    }
  }

  /** Every entry below the root is visited once, each before its children and these before its siblings. */
  method Visit(links: map<nat, Links>, root: nat, ghost kids: seq<Tree>) returns (visited: seq<nat>)
    requires root in links && links[root].parent == None && links[root].next == None
    requires Linked(links, links[root].list, Some(root), kids, None)
    ensures visited == Ids(kids)
  {
    var menu := links[root].list;
    visited := [];
    FirstId(links, menu, Some(root), kids);
    while menu.Some?
      invariant |visited| <= |Ids(kids)| && visited == Ids(kids)[..|visited|]
      invariant menu == if |visited| < |Ids(kids)| then Some(Ids(kids)[|visited|]) else None
      decreases |Ids(kids)| - |visited|
    {
      ghost var d := NextIsSuccessor(links, links[root].list, root, kids, 0, |visited|);
      visited := visited + [menu.value];
      menu := NextMenu(links, menu.value, d);
    }
  }

  /**
   * Rearranging the menu leaves the order in which its entries are visited as it was. In the forest us every entry is
   * below the one it was nested below, or else below the one it was written below; its parent is then the nearest entry
   * around it in us that has a prompt, or else the root. In us every entry written without entries below it, and with a
   * symbol, has taken in all that followed it in its list up to one that fails the nesting test.
   */
  method FinalizeMenu(table: MenuTable, root: nat, ghost kids: seq<Tree>)
    returns (before: seq<nat>, after: seq<nat>, ghost us: seq<Tree>)
    requires table.Forest(Some(root), None, [Tree(root, kids)]) && table.nested == map[]
    requires root in table.links && table.links[root].next == None
    modifies table
    ensures before == after == Ids(kids) == Ids(us)
    ensures Finalized(old(table.Now()), table.Now(), [Tree(root, kids)])
    ensures HasParents(old(table.links), table.nested, Some(root), us)
    ensures root in table.links
    ensures Linked(table.links, table.links[root].list, Some(root), FlatKids(table.bare, us), None)
    ensures ParentsAround(table.links, table.bare, root, us)
    ensures Greedy(old(table.links), table.info, us, None)
    ensures forall x {:trigger MentionsParent(table.info, table.nested, x)} ::
              x in table.nested ==> MentionsParent(table.info, table.nested, x)
  {
    ghost var ts := [Tree(root, kids)];
    RootTree(table.links, root, ts);
    before := Visit(table.links, root, kids);
    ghost var t', u, k := table.Finalize(root, None, ts);
    assert ts[..k] == ts && ts[k..] == [];
    assert [t'] + ts[k..] == [t'];
    RootTree(table.links, root, [t']);
    RootIds(t', ts[0]);
    after := Visit(table.links, root, t'.kids);
    us := u.kids;
    assert [u][1..] == [];
    FlatKidsIds(table.bare, us);
    RootKids(root, kids);
    FinalParents(table.links, table.bare, root, us);
    forall x | x in table.nested ensures MentionsParent(table.info, table.nested, x) {
      NestedMentions(table.info, table.nested, x);
    }
  }

  /** The parent of every entry is the nearest one around it that has a prompt, or else the root. */
  ghost predicate ParentsAround(links: map<nat, Links>, bare: set<nat>, root: nat, us: seq<Tree>) {
    forall x {:trigger Around(bare, Some(root), us, x)} ::
      x in Ids(us) ==> x in links && links[x].parent == Around(bare, Some(root), us, x)
  }

  lemma FinalParents(links: map<nat, Links>, bare: set<nat>, root: nat, us: seq<Tree>)
    requires root in links && Linked(links, links[root].list, Some(root), FlatKids(bare, us), None) && Distinct(Ids(us))
    ensures ParentsAround(links, bare, root, us)
  {
    FlatKidsIds(bare, us);
    forall x | x in Ids(us) ensures x in links && links[x].parent == Around(bare, Some(root), us, x) {
      LinkedParent(links, links[root].list, Some(root), FlatKids(bare, us), x);
      FlatParent(bare, Some(root), us, x);
    }
  }

  lemma RootKids(root: nat, kids: seq<Tree>)
    requires Distinct(Ids([Tree(root, kids)]))
    ensures Distinct(Ids(kids))
  {
    var t := Tree(root, kids);
    assert [t][1..] == [] && Ids([t]) == [root] + Ids(kids);
    DistinctParts([root], Ids(kids));
  }

  /** In a finalized menu all conditions below a root whose condition is in normal form are in normal form. */
  lemma FinalizedNnf(s0: State, s1: State, t: Tree, x: nat)
    requires Finalized(s0, s1, [t]) && AllOk(s0.info) && x in Ids(t.kids)
    requires t.id in s0.info && OptNnf(s0.info[t.id].Condition()) && Distinct(Ids([t]))
    ensures x in s1.info && InfoNnf(s1.info[x])
  {
    assert [t][1..] == [] && KidSet([t]) == IdSet(t.kids);
    assert Ids([t]) == [t.id] + Ids(t.kids);
    DistinctParts([t.id], Ids(t.kids));
    InheritedNnf(s0.info, s1.info, t, x);
  }

  /**
   * An entry is nested below another only if it is visible just while the symbol of that one is not n or its prompt's
   * condition is not n, where conditions are read as comparisons with n read them.
   */
  lemma NestedMeaning(s: State, x: nat, v: Valuation)
    requires NestedSound(s.info, s.nested) && x in s.nested && NestedAt(s.info, x, s.nested[x])
    requires ReadOpt(s.info[x].Condition(), v, NoSym) != NO
    ensures var p := s.info[s.nested[x]];
            && HasCondition(s.info[x], s.info[x].Condition()) && HasPromptCondition(p, p.PromptCondition())
            && (SymText(v, p.sym.value) != "n" || ReadOpt(p.PromptCondition(), v, NoSym) != NO)
  {
    var p := s.info[s.nested[x]];
    NestsSound(p.sym.value, p.PromptCondition(), s.info[x].Condition(), v);
  }

  /** The condition of every nested entry mentions the symbol of the entry it was nested below. */
  ghost predicate MentionsParent(info: map<nat, Info>, nested: map<nat, nat>, x: nat) {
    && x in nested && x in info && nested[x] in info && info[nested[x]].sym.Some?
    && forall c :: HasCondition(info[x], c) ==> c.Some? && info[nested[x]].sym.value in Syms(c.value)
  }

  lemma NestedMentions(info: map<nat, Info>, nested: map<nat, nat>, x: nat)
    requires NestedSound(info, nested) && x in nested
    ensures MentionsParent(info, nested, x)
  {
    assert NestedAt(info, x, nested[x]);
    var p := info[nested[x]];
    NestsMentions(p.sym.value, p.PromptCondition(), info[x].Condition());
  }

  /**
   * An entry that takes in nothing more is not followed by one of whose condition a conjunct demands its symbol: such
   * entries are always nested.
   */
  lemma DemandedNested(info: map<nat, Info>, x: nat, f: nat, c: Expr, k: Expr)
    requires Stops(info, x, Some(f)) && x in info && info[x].Ok() && info[x].sym.Some?
    requires f in info && info[f].Ok() && HasCondition(info[f], Some(c)) && k in Conjuncts(c)
    ensures !Demands(k, info[x].sym.value)
  {
    if Demands(k, info[x].sym.value) {
      NestsDemanded(info[x].sym.value, info[x].PromptCondition(), c, k);
    }
  }

  /** Without m that is what they are, if their bare operands are logical. */
  lemma NestedVisible(s: State, x: nat, v: Valuation)
    requires NestedSound(s.info, s.nested) && x in s.nested && NestedAt(s.info, x, s.nested[x])
    requires TwoValued(v) && OptNoBareMod(s.info[x].Condition()) && OptNoBareMod(s.info[s.nested[x]].PromptCondition())
    requires OptLogical(s.info[x].Condition()) && OptLogical(s.info[s.nested[x]].PromptCondition())
    requires EvalOpt(s.info[x].Condition(), v) != NO
    ensures var p := s.info[s.nested[x]]; SymText(v, p.sym.value) != "n" || EvalOpt(p.PromptCondition(), v) != NO
  {
    var c, c' := s.info[x].Condition(), s.info[s.nested[x]].PromptCondition();
    if c.Some? { TwoValuedRead(c.value, v, NoSym); }
    if c'.Some? { TwoValuedRead(c'.value, v, NoSym); }
    NestedMeaning(s, x, v);
  }

  predicate OptLogical(e: Option<Expr>) {
    e.Some? ==> LogicalOperands(e.value)
  }

  lemma RootTree(links: map<nat, Links>, root: nat, ts: seq<Tree>)
    requires |ts| == 1 && ts[0].id == root && Linked(links, Some(root), None, ts, None)
    ensures root in links && links[root].parent == None && links[root].next == None
    ensures Linked(links, links[root].list, Some(root), ts[0].kids, None)
  {
    assert ts[1..] == [];
  }

  lemma RootIds(t: Tree, u: Tree)
    requires t.id == u.id && Ids([t]) == Ids([u])
    ensures Ids(t.kids) == Ids(u.kids)
  {
    assert [t][1..] == [] && [u][1..] == [];
    assert Ids([t])[1..] == Ids(t.kids) && Ids([u])[1..] == Ids(u.kids);
  }
}
