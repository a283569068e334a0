/** The tree a menu becomes: entries without a prompt keep no children. */
module MenuTrees {
  import opened Options
  import opened MenuLinks

  /**
   * The children of an entry that has the children us before its subtree is flattened: the children of an entry in
   * `bare`, which are the entries without a prompt, follow it one level up.
   */
  function FlatKids(bare: set<nat>, us: seq<Tree>): seq<Tree>
    decreases us
  {
    if us == [] then []
    else
      var kids := FlatKids(bare, us[0].kids);
      (if us[0].id in bare then [Tree(us[0].id, [])] + kids else [Tree(us[0].id, kids)]) + FlatKids(bare, us[1..])
  }

  function FlatTree(bare: set<nat>, u: Tree): Tree {
    Tree(u.id, FlatKids(bare, u.kids))
  }

  function FlatTrees(bare: set<nat>, us: seq<Tree>): (ts: seq<Tree>)
    ensures |ts| == |us|
  {
    seq(|us|, i requires 0 <= i < |us| => FlatTree(bare, us[i]))
  }

  lemma FlatTreesSnoc(bare: set<nat>, us: seq<Tree>, u: Tree)
    ensures FlatTrees(bare, us + [u]) == FlatTrees(bare, us) + [FlatTree(bare, u)]
  {
  }

  /** Flattening changes the order of no entries. */
  lemma {:induction false} FlatKidsIds(bare: set<nat>, us: seq<Tree>)
    ensures Ids(FlatKids(bare, us)) == Ids(us)
    decreases us
  {
    if us != [] {
      var kids, rest := FlatKids(bare, us[0].kids), FlatKids(bare, us[1..]);
      FlatKidsIds(bare, us[0].kids);
      FlatKidsIds(bare, us[1..]);
      var leaf, node := [Tree(us[0].id, [])], [Tree(us[0].id, kids)];
      IdsAppend(leaf + kids, rest);
      IdsAppend(leaf, kids);
      IdsAppend(node, rest);
      assert leaf[1..] == [] && node[1..] == [];
      assert Ids(leaf) == [us[0].id] && Ids(node) == [us[0].id] + Ids(kids);
    }
  }

  lemma {:induction false} FlatTreesIds(bare: set<nat>, us: seq<Tree>)
    ensures Ids(FlatTrees(bare, us)) == Ids(us)
    decreases |us|
  {
    if us != [] {
      FlatKidsIds(bare, us[0].kids);
      FlatTreesIds(bare, us[1..]);
      assert FlatTrees(bare, us)[1..] == FlatTrees(bare, us[1..]);
    }
  }

  /** No entry of the forest that is in `bare` has children. */
  ghost predicate DeepFlat(bare: set<nat>, ts: seq<Tree>)
    decreases ts
  {
    ts == [] ||
    ((ts[0].id in bare ==> ts[0].kids == []) && DeepFlat(bare, ts[0].kids) && DeepFlat(bare, ts[1..]))
  }

  lemma {:induction false} DeepFlatAppend(bare: set<nat>, a: seq<Tree>, b: seq<Tree>)
    ensures DeepFlat(bare, a + b) <==> DeepFlat(bare, a) && DeepFlat(bare, b)
    decreases a
  {
    if a == [] {
      assert a + b == b;
    } else {
      assert (a + b)[1..] == a[1..] + b;
      DeepFlatAppend(bare, a[1..], b);
    }
  }

  lemma {:induction false} FlatKidsDeep(bare: set<nat>, us: seq<Tree>)
    ensures DeepFlat(bare, FlatKids(bare, us))
    decreases us
  {
    if us != [] {
      var kids, rest := FlatKids(bare, us[0].kids), FlatKids(bare, us[1..]);
      FlatKidsDeep(bare, us[0].kids);
      FlatKidsDeep(bare, us[1..]);
      var leaf, node := [Tree(us[0].id, [])], [Tree(us[0].id, kids)];
      DeepFlatAppend(bare, leaf + kids, rest);
      DeepFlatAppend(bare, leaf, kids);
      DeepFlatAppend(bare, node, rest);
      assert leaf[1..] == [] && node[1..] == [];
    }
  }

  // ---------- one level ----------

  /** The first entries of the trees, with the children of those in `bare` moved up behind them. */
  function Raise(bare: set<nat>, ts: seq<Tree>): seq<Tree> {
    if ts == [] then []
    else (if ts[0].id in bare then [Tree(ts[0].id, [])] + ts[0].kids else [ts[0]]) + Raise(bare, ts[1..])
  }

  /** Raising the children of finalized trees flattens them. */
  lemma {:induction false} RaiseFlat(bare: set<nat>, us: seq<Tree>)
    ensures Raise(bare, FlatTrees(bare, us)) == FlatKids(bare, us)
    decreases |us|
  {
    if us != [] {
      RaiseFlat(bare, us[1..]);
      assert FlatTrees(bare, us)[1..] == FlatTrees(bare, us[1..]);
    }
  }

  /** Trees that are flat are not affected. */
  lemma {:induction false} RaiseDeep(bare: set<nat>, a: seq<Tree>, b: seq<Tree>)
    requires DeepFlat(bare, a)
    ensures Raise(bare, a + b) == a + Raise(bare, b)
    decreases |a|
  {
    if a == [] {
      assert a + b == b && a + Raise(bare, b) == Raise(bare, b);
    } else {
      assert (a + b)[1..] == a[1..] + b;
      RaiseDeep(bare, a[1..], b);
      assert [a[0]] + (a[1..] + Raise(bare, b)) == a + Raise(bare, b);
      assert a[0].id in bare ==> [Tree(a[0].id, [])] + a[0].kids == [a[0]];
    }
  }

  /** Below each of the trees everything is flat. */
  ghost predicate KidsDeep(bare: set<nat>, ts: seq<Tree>) {
    forall i {:trigger ts[i]} :: 0 <= i < |ts| ==> DeepFlat(bare, ts[i].kids)
  }

  lemma FlatTreesDeep(bare: set<nat>, us: seq<Tree>)
    ensures KidsDeep(bare, FlatTrees(bare, us))
  {
    forall i | 0 <= i < |us| ensures DeepFlat(bare, FlatTrees(bare, us)[i].kids) {
      FlatKidsDeep(bare, us[i].kids);
    }
  }

  lemma {:induction false} DeepKids(bare: set<nat>, ts: seq<Tree>)
    requires DeepFlat(bare, ts)
    ensures KidsDeep(bare, ts)
    decreases ts
  {
    if ts != [] {
      DeepKids(bare, ts[1..]);
      forall i | 0 <= i < |ts| ensures DeepFlat(bare, ts[i].kids) {
        if i > 0 { assert ts[1..][i - 1] == ts[i]; }
      }
    }
  }

  lemma KidsDeepStep(bare: set<nat>, t: Tree, rest: seq<Tree>)
    requires KidsDeep(bare, [t] + rest)
    ensures KidsDeep(bare, rest) && DeepFlat(bare, t.kids) && KidsDeep(bare, t.kids + rest)
  {
    var todo := [t] + rest;
    assert todo[0] == t;
    forall i | 0 <= i < |rest| ensures DeepFlat(bare, rest[i].kids) {
      assert todo[i + 1] == rest[i];
    }
    DeepKids(bare, t.kids);
  }

  lemma Regrouped<T>(a: seq<T>, b: seq<T>, c: seq<T>, d: seq<T>)
    ensures (a + b) + (c + d) == a + ((b + c) + d)
  {
  }

  /** Moving the children of the first tree up. */
  lemma RaiseUp(bare: set<nat>, done: seq<Tree>, t: Tree, rest: seq<Tree>)
    requires DeepFlat(bare, t.kids) && t.id in bare
    ensures done + [Tree(t.id, [])] + Raise(bare, t.kids + rest) == done + Raise(bare, [t] + rest)
  {
    RaiseDeep(bare, t.kids, rest);
    var ts, leaf, r := [t] + rest, [Tree(t.id, [])], Raise(bare, rest);
    assert ts[1..] == rest && ts[0] == t;
    assert Raise(bare, ts) == (leaf + t.kids) + r;
    Regrouped(done, leaf, t.kids, r);
  }

  lemma SeqAssociative<T>(a: seq<T>, b: seq<T>, c: seq<T>)
    ensures (a + b) + c == a + (b + c)
  {
  }

  lemma RaiseOne(bare: set<nat>, t: Tree, rest: seq<Tree>)
    requires t.id !in bare || t.kids == []
    ensures Raise(bare, [t] + rest) == [t] + Raise(bare, rest)
  {
    assert ([t] + rest)[1..] == rest;
    assert t.id in bare ==> [Tree(t.id, [])] + t.kids == [t];
  }

  /** Leaving the first tree as it is. */
  lemma RaisePass(bare: set<nat>, done: seq<Tree>, t: Tree, rest: seq<Tree>)
    requires t.id !in bare || t.kids == []
    ensures done + [t] + Raise(bare, rest) == done + Raise(bare, [t] + rest)
  {
    RaiseOne(bare, t, rest);
    SeqAssociative(done, [t], Raise(bare, rest));
  }

  // ---------- parents ----------

  /** The entry x is nested below, or else the one it was written below. */
  function LogicalParent(l: map<nat, Links>, nested: map<nat, nat>, x: nat): Option<nat> {
    if x in nested then Some(nested[x]) else if x in l then l[x].parent else None
  }

  /** Each entry of the forest is below its logical parent; the first entries of the trees have the parent p. */
  ghost predicate HasParents(l: map<nat, Links>, nested: map<nat, nat>, p: Option<nat>, us: seq<Tree>)
    decreases us
  {
    us == [] ||
    (&& LogicalParent(l, nested, us[0].id) == p
     && HasParents(l, nested, Some(us[0].id), us[0].kids) && HasParents(l, nested, p, us[1..]))
  }

  lemma {:induction false} HasParentsFrame(l: map<nat, Links>, n: map<nat, nat>, l': map<nat, Links>, n': map<nat, nat>,
                                           p: Option<nat>, us: seq<Tree>)
    requires HasParents(l, n, p, us)
    requires forall x :: x in Ids(us) ==> LogicalParent(l', n', x) == LogicalParent(l, n, x)
    ensures HasParents(l', n', p, us)
    decreases us
  {
    if us != [] {
      assert us[0].id in Ids(us);
      HasParentsFrame(l, n, l', n', Some(us[0].id), us[0].kids);
      HasParentsFrame(l, n, l', n', p, us[1..]);
    }
  }

  lemma {:induction false} HasParentsSnoc(l: map<nat, Links>, n: map<nat, nat>, p: Option<nat>, us: seq<Tree>, u: Tree)
    requires HasParents(l, n, p, us) && LogicalParent(l, n, u.id) == p && HasParents(l, n, Some(u.id), u.kids)
    ensures HasParents(l, n, p, us + [u])
    decreases |us|
  {
    if us == [] {
      assert us + [u] == [u] && [u][1..] == [];
    } else {
      assert (us + [u])[1..] == us[1..] + [u];
      HasParentsSnoc(l, n, p, us[1..], u);
    }
  }

  /** The entry above x in a forest whose first entries have the parent p. */
  function ParentIn(p: Option<nat>, ts: seq<Tree>, x: nat): Option<nat>
    decreases ts
  {
    if ts == [] then None
    else if x == ts[0].id then p
    else if x in Ids(ts[0].kids) then ParentIn(Some(ts[0].id), ts[0].kids, x)
    else ParentIn(p, ts[1..], x)
  }

  /** The parent of an entry in linked trees is the entry above it. */
  lemma {:induction false} LinkedParent(l: map<nat, Links>, first: Option<nat>, p: Option<nat>, ts: seq<Tree>, x: nat)
    requires Linked(l, first, p, ts, None) && x in Ids(ts)
    ensures x in l && l[x].parent == ParentIn(p, ts, x)
    decreases ts
  {
    var t := ts[0];
    if x != t.id {
      if x in Ids(t.kids) {
        LinkedParent(l, l[t.id].list, Some(t.id), t.kids, x);
      } else {
        LinkedParent(l, l[t.id].next, p, ts[1..], x);
      }
    }
  }

  /** The nearest entry around x that is not in `bare`, or p if there is none. */
  function Around(bare: set<nat>, p: Option<nat>, us: seq<Tree>, x: nat): Option<nat>
    decreases us
  {
    if us == [] then None
    else if x == us[0].id then p
    else if x in Ids(us[0].kids) then Around(bare, if us[0].id in bare then p else Some(us[0].id), us[0].kids, x)
    else Around(bare, p, us[1..], x)
  }

  lemma {:induction false} ParentInAppend(p: Option<nat>, a: seq<Tree>, b: seq<Tree>, x: nat)
    ensures ParentIn(p, a + b, x) == if x in Ids(a) then ParentIn(p, a, x) else ParentIn(p, b, x)
    decreases |a|
  {
    if a == [] {
      assert a + b == b;
    } else {
      assert (a + b)[1..] == a[1..] + b;
      ParentInAppend(p, a[1..], b, x);
    }
  }

  /** Flattening makes the nearest entry around that has a prompt an entry's parent, or else the root. */
  lemma {:induction false} FlatParent(bare: set<nat>, p: Option<nat>, us: seq<Tree>, x: nat)
    requires Distinct(Ids(us)) && x in Ids(us)
    ensures ParentIn(p, FlatKids(bare, us), x) == Around(bare, p, us, x)
    decreases us
  {
    var h, kids, rest := us[0], FlatKids(bare, us[0].kids), FlatKids(bare, us[1..]);
    DistinctFirst(us);
    FlatKidsIds(bare, h.kids);
    var leaf, node := [Tree(h.id, [])], [Tree(h.id, kids)];
    ParentInAppend(p, leaf + kids, rest, x);
    ParentInAppend(p, leaf, kids, x);
    ParentInAppend(p, node, rest, x);
    IdsAppend(leaf, kids);
    assert leaf[1..] == [] && node[1..] == [];
    assert Ids(leaf) == [h.id] && Ids(node) == [h.id] + Ids(kids);
    if x != h.id {
      if x in Ids(h.kids) {
        FlatParent(bare, if h.id in bare then p else Some(h.id), h.kids, x);
      } else {
        FlatParent(bare, p, us[1..], x);
      }
    }
  }
}
