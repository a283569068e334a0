/** Which entries take in the siblings that follow them: those without children, as far as the test lets them. */
module MenuNesting {
  import opened Options
  import opened Comparisons
  import opened MenuLinks
  import opened MenuInfo

  /** The entry x was written without entries below it. */
  predicate Childless(l: map<nat, Links>, x: nat) {
    x in l && l[x].list.None?
  }

  /** The entry that follows the first k trees of a list. */
  function Follower(ts: seq<Tree>, k: nat): Option<nat> {
    if k < |ts| then Some(ts[k].id) else None
  }

  /** If x has a symbol, the entry f that follows in its list fails the nesting test, or the list ends. */
  predicate Stops(info: map<nat, Info>, x: nat, f: Option<nat>) {
    x in info && info[x].Ok() && info[x].sym.Some? && f.Some? && f.value in info && info[f.value].Ok() ==>
      !Nests(info[x].sym.value, info[x].PromptCondition(), info[f.value].Condition())
  }

  /**
   * In the forest us every entry written without children has taken in all the entries that followed it in the list
   * it was written in up to one that fails the test. The list us itself is followed by f in such a list: the children
   * of an entry written with children are all of their list, and those of others have been taken from around it.
   */
  ghost predicate Greedy(l: map<nat, Links>, info: map<nat, Info>, us: seq<Tree>, f: Option<nat>)
    decreases us
  {
    if us == [] then true
    else
      var next := if |us| > 1 then Some(us[1].id) else f;
      && Greedy(l, info, us[1..], f)
      && if Childless(l, us[0].id) then Stops(info, us[0].id, next) && Greedy(l, info, us[0].kids, next)
         else Greedy(l, info, us[0].kids, None)
  }

  /** A list that was followed by the entry of a tree goes on with that tree. */
  lemma {:induction false} GreedySnoc(l: map<nat, Links>, info: map<nat, Info>, us: seq<Tree>, u: Tree, f: Option<nat>)
    requires Greedy(l, info, us, Some(u.id)) && Greedy(l, info, [u], f)
    ensures Greedy(l, info, us + [u], f)
    decreases |us|
  {
    if us == [] {
      assert us + [u] == [u];
    } else {
      assert (us + [u])[1..] == us[1..] + [u];
      GreedySnoc(l, info, us[1..], u, f);
    }
  }

  predicate SameEntry(i: map<nat, Info>, i': map<nat, Info>, x: nat) {
    (x in i <==> x in i') && (x in i ==> i'[x] == i[x])
  }

  lemma {:induction false} GreedyFrame(l: map<nat, Links>, i: map<nat, Info>, l': map<nat, Links>, i': map<nat, Info>,
                                       us: seq<Tree>, f: Option<nat>)
    requires Greedy(l, i, us, f)
    requires forall x :: x in Ids(us) ==> (Childless(l', x) <==> Childless(l, x)) && SameEntry(i, i', x)
    requires f.Some? ==> SameEntry(i, i', f.value)
    ensures Greedy(l', i', us, f)
    decreases us
  {
    if us != [] {
      var next := if |us| > 1 then Some(us[1].id) else f;
      assert us[0].id in Ids(us);
      if |us| > 1 { assert us[1..][0].id in Ids(us[1..]); }
      if Childless(l, us[0].id) {
        GreedyFrame(l, i, l', i', us[0].kids, next);
      } else {
        GreedyFrame(l, i, l', i', us[0].kids, None);
      }
      GreedyFrame(l, i, l', i', us[1..], f);
    }
  }

  /** An entry with the children it was written with, or with those it has taken in. */
  lemma GreedyNode(l: map<nat, Links>, info: map<nat, Info>, p: nat, us: seq<Tree>, f: Option<nat>)
    requires if Childless(l, p) then Stops(info, p, f) && Greedy(l, info, us, f) else Greedy(l, info, us, None)
    ensures Greedy(l, info, [Tree(p, us)], f)
  {
    assert [Tree(p, us)][1..] == [];
  }
}
