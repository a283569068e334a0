/** The pass over the menu after parsing: conditions are inherited and entries rearranged. */
module MenuFinalize {
  import opened Options
  import opened Expressions
  import opened Comparisons
  import opened MenuLinks
  import opened MenuInfo
  import opened MenuNesting
  import opened MenuTrees

  /** m1 has the same keys as m0 and differs from it in `changed` only. */
  ghost predicate SameOutside<T>(m0: map<nat, T>, m1: map<nat, T>, changed: set<nat>) {
    m0.Keys == m1.Keys && forall x :: x in m0 && x !in changed ==> m1[x] == m0[x]
  }

  /** Every entry recorded as nested passes the nesting test below the entry recorded. */
  ghost predicate NestedSound(info: map<nat, Info>, nested: map<nat, nat>) {
    forall x {:trigger NestedAt(info, x, nested[x])} :: x in nested ==> NestedAt(info, x, nested[x])
  }

  ghost predicate NestedAt(info: map<nat, Info>, x: nat, p: nat) {
    && x in info && p in info && info[x].Ok() && info[p].Ok() && info[p].sym.Some?
    && Nests(info[p].sym.value, info[p].PromptCondition(), info[x].Condition())
  }

  /** No entry recorded as nested, nor the one it is nested below, is among xs. */
  ghost predicate NestedApart(nested: map<nat, nat>, xs: set<nat>) {
    forall x :: x in nested ==> x !in xs && nested[x] !in xs
  }

  /** The records added are about entries of xs. */
  ghost predicate NestedWithin(n0: map<nat, nat>, n1: map<nat, nat>, xs: set<nat>) {
    && (forall x :: x in n0 ==> x in n1 && n1[x] == n0[x])
    && forall x :: x in n1 && x !in n0 ==> x in xs && n1[x] in xs
  }

  /** The pointers, the contents and the record of nestings at one moment. */
  datatype State = State(links: map<nat, Links>, info: map<nat, Info>, nested: map<nat, nat>)

  /**
   * The first entry of ts takes in the first k - 1 trees that follow it: none if it has children or no symbol, and
   * otherwise all up to one that fails the nesting test.
   */
  ghost predicate TakesIn(info: map<nat, Info>, ts: seq<Tree>, k: nat) {
    && 1 <= k <= |ts| && ts[0].id in info && info[ts[0].id].Ok()
    && if ts[0].kids != [] || info[ts[0].id].sym.None? then k == 1 else Stops(info, ts[0].id, Follower(ts, k))
  }

  /** Entries keep their symbol and which property is their prompt. */
  ghost predicate SameStatic(i0: map<nat, Info>, i1: map<nat, Info>) {
    forall x :: x in i0 && i0[x].Ok() ==>
      x in i1 && i1[x].Ok() && i1[x].sym == i0[x].sym && i1[x].prompt == i0[x].prompt
  }

  /** Between s0 and s1 exactly the trees ts were finalized. */
  ghost predicate Finalized(s0: State, s1: State, ts: seq<Tree>) {
    && SameOutside(s0.links, s1.links, IdSet(ts))
    && SameOutside(s0.info, s1.info, KidSet(ts))
    && SameStatic(s0.info, s1.info)
    && Inherited(s0.info, s1.info, ts)
    && NestedSound(s1.info, s1.nested)
    && NestedWithin(s0.nested, s1.nested, IdSet(ts))
  }

  lemma IdSetsApart(a: seq<Tree>, b: seq<Tree>)
    requires Distinct(Ids(a + b))
    ensures IdSet(a) !! IdSet(b) && Distinct(Ids(a)) && Distinct(Ids(b)) && IdSet(a + b) == IdSet(a) + IdSet(b)
  {
    IdsAppend(a, b);
    DistinctParts(Ids(a), Ids(b));
    IdSetAppend(a, b);
  }

  lemma {:induction false} KidSetAppend(a: seq<Tree>, b: seq<Tree>)
    ensures KidSet(a + b) == KidSet(a) + KidSet(b)
  {
    if a == [] {
      assert a + b == b;
    } else {
      assert (a + b)[1..] == a[1..] + b;
      KidSetAppend(a[1..], b);
    }
  }

  lemma OutsideCompose<T>(m0: map<nat, T>, m1: map<nat, T>, m2: map<nat, T>, a: set<nat>, b: set<nat>)
    requires SameOutside(m0, m1, a) && SameOutside(m1, m2, b)
    ensures SameOutside(m0, m2, a + b)
  {
  }

  lemma InheritedCompose(i0: map<nat, Info>, i1: map<nat, Info>, i2: map<nat, Info>, a: seq<Tree>, b: seq<Tree>)
    requires Distinct(Ids(a + b))
    requires SameOutside(i0, i1, KidSet(a)) && SameOutside(i1, i2, KidSet(b))
    requires Inherited(i0, i1, a) && Inherited(i1, i2, b)
    ensures Inherited(i0, i2, a + b)
  {
    IdSetsApart(a, b);
    KidSetIn(a);
    KidSetIn(b);
    InheritedFrame(i0, i1, i0, i2, a);
    InheritedFrame(i1, i2, i0, i2, b);
    InheritedAppend(i0, i2, a, b);
  }

  /** Every entry's prompt is one of its properties. */
  ghost predicate AllOk(info: map<nat, Info>) {
    forall x :: x in info ==> info[x].Ok()
  }

  /** The entries in `bare` are those without a prompt, whose children are moved up. */
  ghost predicate BareIs(info: map<nat, Info>, bare: set<nat>) {
    forall x {:trigger x in bare} :: x in info ==> (x in bare <==> info[x].prompt.None?)
  }

  lemma BareKept(i0: map<nat, Info>, i1: map<nat, Info>, bare: set<nat>)
    requires SameStatic(i0, i1) && i1.Keys == i0.Keys && AllOk(i0) && BareIs(i0, bare)
    ensures AllOk(i1) && BareIs(i1, bare)
  {
    forall x | x in i1 ensures i1[x].Ok() && (x in bare <==> i1[x].prompt.None?) {
      assert x in i0;
    }
  }

  /** The trees ts are what becomes of the trees us, in which all entries are below their logical parents. */
  ghost predicate Built(bare: set<nat>, l: map<nat, Links>, nested: map<nat, nat>, p: nat, ts: seq<Tree>,
                        us: seq<Tree>)
  {
    ts == FlatTrees(bare, us) && HasParents(l, nested, Some(p), us)
  }

  /** The tree t is what becomes of u, below whose first entry all entries are below their logical parents. */
  ghost predicate BuiltTree(bare: set<nat>, l: map<nat, Links>, nested: map<nat, nat>, t: Tree, u: Tree) {
    t == FlatTree(bare, u) && HasParents(l, nested, Some(u.id), u.kids)
  }

  /** Finalizing first some trees and then some others finalizes all of them. */
  lemma FinalizedCompose(s0: State, s1: State, s2: State, a: seq<Tree>, b: seq<Tree>)
    requires Distinct(Ids(a + b)) && Finalized(s0, s1, a) && Finalized(s1, s2, b) && AllOk(s0.info)
    ensures Finalized(s0, s2, a + b)
  {
    IdSetsApart(a, b);
    KidSetAppend(a, b);
    KidSetIn(b);
    OutsideCompose(s0.links, s1.links, s2.links, IdSet(a), IdSet(b));
    OutsideCompose(s0.info, s1.info, s2.info, KidSet(a), KidSet(b));
    InheritedCompose(s0.info, s1.info, s2.info, a, b);
    assert SameStatic(s0.info, s2.info);
    assert AllOk(s1.info);
  }

  /** Changing nothing finalizes no trees. */
  lemma NothingFinalized(s: State, ts: seq<Tree>)
    requires AllOk(s.info) && NestedSound(s.info, s.nested)
    ensures Finalized(s, s, ts[..0]) && Ids(ts[..0]) == []
  {
  }

  /** Changing nothing finalizes an entry without children. */
  lemma FinalizedLeaf(s: State, p: nat)
    requires p in s.info && AllOk(s.info) && NestedSound(s.info, s.nested)
    ensures Finalized(s, s, [Tree(p, [])])
  {
    assert [Tree(p, [])][1..] == [];
    assert KidsInherited(s.info, s.info, Tree(p, []));
  }

  /** Recording a nesting that passes the test, and moving the entry, keeps the trees finalized. */
  lemma FinalizedNest(s0: State, s1: State, s2: State, ts: seq<Tree>, m: nat, p: nat)
    requires Finalized(s0, s1, ts) && m in IdSet(ts) && p in IdSet(ts) && m in s1.links && m !in s1.nested
    requires NestedAt(s1.info, m, p)
    requires s2 == s1.(links := s1.links[m := s1.links[m].(parent := Some(p))], nested := s1.nested[m := p])
    ensures Finalized(s0, s2, ts)
  {
  }

  /** Changing pointers within the trees keeps them finalized. */
  lemma FinalizedRelink(s0: State, s1: State, s2: State, ts: seq<Tree>)
    requires Finalized(s0, s1, ts) && s2.info == s1.info && s2.nested == s1.nested
    requires SameOutside(s1.links, s2.links, IdSet(ts))
    ensures Finalized(s0, s2, ts)
  {
    OutsideCompose(s0.links, s1.links, s2.links, IdSet(ts), IdSet(ts));
  }

  lemma {:induction false} RootsApartFromKids(ts: seq<Tree>)
    requires Distinct(Ids(ts))
    ensures RootSet(ts) !! KidSet(ts)
  {
    if ts != [] {
      DistinctFirst(ts);
      KidSetIn(ts[1..]);
      RootsApartFromKids(ts[1..]);
      assert RootSet(ts) == {ts[0].id} + RootSet(ts[1..]) by {
        RootSetFirst(ts);
      }
      RootsIn(ts[1..]);
    }
  }

  lemma RootSetFirst(ts: seq<Tree>)
    requires ts != []
    ensures RootSet(ts) == {ts[0].id} + RootSet(ts[1..])
  {
    forall x | x in RootSet(ts[1..]) ensures x in RootSet(ts) {
      var i :| 0 <= i < |ts[1..]| && ts[1..][i].id == x;
      assert ts[i + 1].id == x;
    }
    forall x | x in RootSet(ts) ensures x in {ts[0].id} + RootSet(ts[1..]) {
      var i :| 0 <= i < |ts| && ts[i].id == x;
      if i > 0 { assert ts[1..][i - 1].id == x; }
    }
  }

  /** The children's inheritance from t is not disturbed by finalizing them. */
  lemma InheritedNode(i0: map<nat, Info>, i1: map<nat, Info>, i2: map<nat, Info>, t: Tree)
    requires Distinct(Ids([t])) && SameOutside(i0, i1, RootSet(t.kids)) && KidsInherited(i0, i1, t)
    requires SameOutside(i1, i2, KidSet(t.kids)) && Inherited(i1, i2, t.kids)
    ensures Inherited(i0, i2, [t])
  {
    OneTree(t);
    RootsApartFromKids(t.kids);
    InheritedFrame(i1, i2, i0, i2, t.kids);
    KidsUnchanged(i0, i1, i2, t);
    assert [t][1..] == [];
  }

  lemma KidsUnchanged(i0: map<nat, Info>, i1: map<nat, Info>, i2: map<nat, Info>, t: Tree)
    requires KidsInherited(i0, i1, t) && t.id !in KidSet(t.kids) && RootSet(t.kids) !! KidSet(t.kids)
    requires SameOutside(i1, i2, KidSet(t.kids))
    ensures KidsInherited(i0, i2, t)
  {
    forall i | 0 <= i < |t.kids| ensures t.kids[i].id in RootSet(t.kids) {
    }
  }

  lemma OneTree(t: Tree)
    requires Distinct(Ids([t]))
    ensures KidSet([t]) == IdSet(t.kids) && IdSet([t]) == {t.id} + IdSet(t.kids) && t.id !in IdSet(t.kids)
    ensures RootSet(t.kids) <= IdSet(t.kids) && KidSet(t.kids) <= IdSet(t.kids) && Distinct(Ids(t.kids))
  {
    DistinctFirst([t]);
    IdSetFirst([t]);
    RootsIn(t.kids);
    KidSetIn(t.kids);
    assert [t][1..] == [];
  }

  /** Letting the children inherit and finalizing them finalizes their parent. */
  lemma FinalizedNode(s0: State, s1: State, s2: State, t: Tree)
    requires Distinct(Ids([t])) && AllOk(s0.info) && AllOk(s1.info)
    requires s1.links == s0.links && s1.nested == s0.nested
    requires SameOutside(s0.info, s1.info, RootSet(t.kids)) && KidsInherited(s0.info, s1.info, t)
    requires SameStatic(s0.info, s1.info)
    requires Finalized(s1, s2, t.kids)
    ensures Finalized(s0, s2, [t]) && (t.id in s0.info ==> t.id in s2.info && s2.info[t.id] == s0.info[t.id])
  {
    OneTree(t);
    InheritedNode(s0.info, s1.info, s2.info, t);
    OutsideCompose(s0.info, s1.info, s2.info, RootSet(t.kids), KidSet(t.kids));
    assert SameOutside(s0.info, s2.info, KidSet([t]));
    assert SameStatic(s0.info, s2.info);
    assert NestedWithin(s0.nested, s2.nested, IdSet([t]));
  }

  /** The entries xs have inherited; nothing else has changed. */
  ghost predicate InheritedAll(i0: map<nat, Info>, i1: map<nat, Info>, xs: set<nat>, inherited: Option<Expr>) {
    && SameOutside(i0, i1, xs)
    && forall x :: x in xs ==> x in i0 && x in i1 && i1[x] == Propagated(inherited, i0[x])
  }

  lemma InheritedAllStatic(i0: map<nat, Info>, i1: map<nat, Info>, xs: set<nat>, inherited: Option<Expr>)
    requires InheritedAll(i0, i1, xs, inherited) && AllOk(i0)
    ensures SameStatic(i0, i1) && AllOk(i1)
  {
    forall x | x in i0 ensures i1[x].Ok() && i1[x].sym == i0[x].sym && i1[x].prompt == i0[x].prompt {
      if x in xs { assert i1[x] == Propagated(inherited, i0[x]); }
    }
  }

  lemma InheritedStep(i0: map<nat, Info>, i1: map<nat, Info>, xs: set<nat>, m: nat, inherited: Option<Expr>)
    requires InheritedAll(i0, i1, xs, inherited) && m !in xs && m in i0
    ensures m in i1 && InheritedAll(i0, i1[m := Propagated(inherited, i1[m])], xs + {m}, inherited)
  {
  }

  lemma InheritedKids(i0: map<nat, Info>, i1: map<nat, Info>, p: nat, kids: seq<Tree>)
    requires p in i0 && AllOk(i0) && p !in RootSet(kids) && InheritedAll(i0, i1, RootSet(kids), i0[p].Condition())
    ensures KidsInherited(i0, i1, Tree(p, kids)) && SameStatic(i0, i1) && AllOk(i1)
  {
    InheritedAllStatic(i0, i1, RootSet(kids), i0[p].Condition());
    forall i | 0 <= i < |kids| ensures kids[i].id in RootSet(kids) {
    }
  }

  /** The children xs of m now have the parent p; nothing else has changed. */
  ghost predicate Adopted(l0: map<nat, Links>, l1: map<nat, Links>, xs: set<nat>, m: nat, p: nat) {
    && SameOutside(l0, l1, xs)
    && forall x :: x in xs ==>
         x in l0 && x in l1 && l0[x].parent == Some(m) && l1[x] == l0[x].(parent := Some(p))
  }

  lemma AdoptedStep(l0: map<nat, Links>, l1: map<nat, Links>, xs: set<nat>, x: nat, m: nat, p: nat)
    requires Adopted(l0, l1, xs, m, p) && x !in xs && x in l1 && l1[x].parent == Some(m)
    ensures Adopted(l0, l1[x := l1[x].(parent := Some(p))], xs + {x}, m, p)
  {
  }

  /** Changing the parent of the next entry of a list extends the adopted part of the list by it. */
  lemma AdoptOne(l: map<nat, Links>, first: Option<nat>, done: seq<Tree>, todo: seq<Tree>, m: nat, p: nat)
    requires todo != [] && Distinct(Ids(done + todo))
    requires Linked(l, first, Some(p), done, Some(todo[0].id)) && Linked(l, Some(todo[0].id), Some(m), todo, None)
    ensures var x := todo[0].id;
            var l' := l[x := l[x].(parent := Some(p))];
            && Linked(l', first, Some(p), done + [todo[0]], l'[x].next)
            && Linked(l', l'[x].next, Some(m), todo[1..], None)
  {
    var t, x := todo[0], todo[0].id;
    var l' := l[x := l[x].(parent := Some(p))];
    IdSetsApart(done, todo);
    DistinctFirst(todo);
    assert x in IdSet(todo);
    LinkedFrame(l, l', first, Some(p), done, Some(x));
    LinkedFrame(l, l', l[x].list, Some(x), t.kids, None);
    LinkedFrame(l, l', l[x].next, Some(m), todo[1..], None);
    LinkedSnoc(l', first, Some(p), done, t);
  }

  class MenuTable {
    var links: map<nat, Links>
    var info: map<nat, Info>
    /** The entries that were nested, with the entry they were nested below. */
    ghost var nested: map<nat, nat>
    /** The entries without a prompt. */
    ghost const bare: set<nat>

    constructor (links: map<nat, Links>, info: map<nat, Info>)
      requires AllOk(info)
      ensures this.links == links && this.info == info && nested == map[] && InfoOk()
    {
      this.links, this.info, nested := links, info, map[];
      bare := set x | x in info && info[x].prompt.None?;
    }

    ghost predicate InfoOk()
      reads this
    {
      AllOk(info) && BareIs(info, bare)
    }

    ghost function Now(): State
      reads this
    {
      State(links, info, nested)
    }

    /** The entries from `first` on to the end of the list are ts. */
    ghost predicate Forest(first: Option<nat>, par: Option<nat>, ts: seq<Tree>)
      reads this
    {
      && Linked(links, first, par, ts, None)
      && Distinct(Ids(ts))
      && (forall x :: x in IdSet(ts) ==> x in links && x in info)
      && InfoOk()
    }

    /** The children of p inherit its condition. */
    method PropagateDeps(p: nat, ghost kids: seq<Tree>)
      requires p in links && p in info && p !in IdSet(kids)
      requires Forest(links[p].list, Some(p), kids)
      modifies this`info
      ensures InheritedAll(old(info), info, RootSet(kids), old(info)[p].Condition())
      ensures KidsInherited(old(info), info, Tree(p, kids)) && SameStatic(old(info), info) && InfoOk()
    {
      RootsIn(kids);
      var inherited := info[p].Condition();
      var menu := links[p].list;
      ghost var done: seq<Tree>, todo := [], kids;
      while menu.Some?
        invariant kids == done + todo
        invariant Linked(links, menu, Some(p), todo, None)
        invariant InheritedAll(old(info), info, RootSet(done), inherited)
        decreases |todo|
      {
        var m := menu.value;
        RootsSplit(done, todo);
        InheritedStep(old(info), info, RootSet(done), m, inherited);
        info := info[m := Propagated(inherited, info[m])];
        menu := links[m].next;
        done, todo := done + [todo[0]], todo[1..];
      }
      assert done == kids;
      InheritedKids(old(info), info, p, kids);
      BareKept(old(info), info, bare);
    }

    /** Makes p the parent of the entry x, the first of the remaining children of m. */
    method AdoptNext(x: nat, m: nat, p: nat, ghost l0: map<nat, Links>, ghost done: seq<Tree>, ghost todo: seq<Tree>)
      requires m in links && todo != [] && x == todo[0].id && x != m && Distinct(Ids(done + todo))
      requires Adopted(l0, links, RootSet(done), m, p)
      requires Linked(links, links[m].list, Some(p), done, Some(x)) && Linked(links, Some(x), Some(m), todo, None)
      modifies this`links
      ensures m in links && links[m] == old(links)[m] && x in links
      ensures Adopted(l0, links, RootSet(done + [todo[0]]), m, p)
      ensures Linked(links, links[m].list, Some(p), done + [todo[0]], links[x].next)
      ensures Linked(links, links[x].next, Some(m), todo[1..], None)
    {
      RootsSplit(done, todo);
      AdoptedStep(l0, links, RootSet(done), x, m, p);
      AdoptOne(links, links[m].list, done, todo, m, p);
      links := links[x := links[x].(parent := Some(p))];
    }

    /** Makes p the parent of the children of m; returns the last of them. */
    method Reparent(m: nat, p: nat, ghost kids: seq<Tree>) returns (last: nat)
      requires m in links && kids != [] && m !in IdSet(kids)
      requires Linked(links, links[m].list, Some(m), kids, None) && Distinct(Ids(kids))
      modifies this`links
      ensures m in links && links[m] == old(links)[m] && Adopted(old(links), links, RootSet(kids), m, p)
      ensures Linked(links, links[m].list, Some(p), kids, None) && last == kids[|kids| - 1].id
    {
      last := links[m].list.value;
      ghost var i := 0;
      RootsIn(kids);
      TakeAll(kids);
      while true
        invariant 0 <= i < |kids| && kids[..i] + kids[i..] == kids && last == kids[i].id
        invariant Adopted(old(links), links, RootSet(kids[..i]), m, p)
        invariant m in links && links[m] == old(links)[m]
        invariant Linked(links, links[m].list, Some(p), kids[..i], Some(last))
        invariant Linked(links, Some(last), Some(m), kids[i..], None)
        decreases |kids| - i
      {
        assert kids[i].id in RootSet(kids);
        AdoptNext(last, m, p, old(links), kids[..i], kids[i..]);
        TakeNext(kids, i);
        i := i + 1;
        if links[last].next.None? {
          break;
        }
        last := links[last].next.value;
      }
    }

    /** Moves the children of m, which follows the entries `done` below p and precedes `rest`, up behind m. */
    method MoveUp(p: nat, m: nat, ghost done: seq<Tree>, ghost kids: seq<Tree>, ghost rest: seq<Tree>)
      requires p in links && m in links && links[m].list.Some?
      requires Distinct(Ids(done + ([Tree(m, kids)] + rest))) && p !in IdSet(done + ([Tree(m, kids)] + rest))
      requires Linked(links, links[p].list, Some(p), done, Some(m))
      requires Linked(links, Some(m), Some(p), [Tree(m, kids)] + rest, None)
      modifies this`links
      ensures p in links && links[p] == old(links)[p] && m in links
      ensures SameOutside(old(links), links, {m} + IdSet(kids)) && links[m].parent == old(links)[m].parent
      ensures forall x :: x in IdSet(kids) && x in old(links) ==>
                links[x].parent == old(links)[x].parent || old(links)[x].parent == Some(m)
      ensures Linked(links, links[p].list, Some(p), done + [Tree(m, [])], links[m].next)
      ensures Linked(links, links[m].next, Some(p), kids + rest, None)
    {
      MoveUpApart(done, m, kids, rest);
      ghost var l0 := links;
      assert ([Tree(m, kids)] + rest)[1..] == rest;
      var last := Reparent(m, p, kids);
      ghost var l1 := links;
      LinkedFrame(l0, l1, l0[p].list, Some(p), done, Some(m));
      LinkedFrame(l0, l1, l0[m].next, Some(p), rest, None);
      LinkedSetEnd(l1, l1[m].list, Some(p), kids, None, l1[m].next);
      links := links[last := links[last].(next := links[m].next)];
      links := links[m := links[m].(next := links[m].list, list := None)];
      MoveUpLinked(l1, links, p, m, last, done, kids, rest);
    }

    /** Moves the children of every child of p that has no prompt up behind it. */
    method Flatten(p: nat, ghost kids: seq<Tree>) returns (ghost kids': seq<Tree>)
      requires p in links && p !in IdSet(kids) && Forest(links[p].list, Some(p), kids) && KidsDeep(bare, kids)
      modifies this`links
      ensures p in links && links[p] == old(links)[p] && SameOutside(old(links), links, IdSet(kids))
      ensures Linked(links, links[p].list, Some(p), kids', None) && Ids(kids') == Ids(kids)
      ensures kids' == Raise(bare, kids)
    {
      var menu := links[p].list;
      ghost var done: seq<Tree>, todo := [], kids;
      assert done + todo == todo && done + Raise(bare, todo) == Raise(bare, todo);
      while menu.Some?
        invariant Ids(done + todo) == Ids(kids) && p in links && links[p] == old(links)[p]
        invariant Linked(links, links[p].list, Some(p), done, menu) && Linked(links, menu, Some(p), todo, None)
        invariant SameOutside(old(links), links, IdSet(kids))
        invariant done + Raise(bare, todo) == Raise(bare, kids) && KidsDeep(bare, todo)
        decreases |Ids(todo)|
      {
        var m := menu.value;
        ghost var t, rest := todo[0], todo[1..];
        SplitFirst(done, todo);
        KidsDeepStep(bare, t, rest);
        if links[m].list.Some? && info[m].prompt.None? {
          MoveUp(p, m, done, t.kids, rest);
          IdsMoveUp(done, m, t.kids, rest);
          RaiseUp(bare, done, t, rest);
          done, todo := done + [Tree(m, [])], t.kids + rest;
        } else {
          FirstId(links, links[m].list, Some(m), t.kids);
          RaisePass(bare, done, t, rest);
          LinkedSnoc(links, links[p].list, Some(p), done, t);
          done, todo := done + [t], rest;
        }
        menu := links[m].next;
      }
      assert done + todo == done && done + Raise(bare, todo) == done;
      kids' := done;
    }

    /**
     * Finalizes the child m of p, which follows j finalized trees of kids; these have become `done`, as us says they
     * should have.
     */
    method FinalizeNext(p: nat, m: nat, ghost s0: State, ghost done: seq<Tree>, ghost us: seq<Tree>,
                        ghost kids: seq<Tree>, ghost j: nat)
      returns (ghost done': seq<Tree>, ghost us': seq<Tree>, ghost j': nat)
      requires j < |kids| && m == kids[j].id && Cut(kids, j) && Distinct(Ids(kids))
      requires p in links && p !in IdSet(kids) && AllOk(s0.info)
      requires Linked(links, links[p].list, Some(p), done, Some(m)) && Ids(done) == Ids(kids[..j])
      requires Forest(Some(m), Some(p), kids[j..])
      requires Finalized(s0, Now(), kids[..j]) && NestedApart(nested, IdSet(kids[j..]))
      requires Built(bare, s0.links, nested, p, done, us) && Greedy(s0.links, info, us, Some(m))
      modifies this
      ensures j < j' && Cut(kids, j') && m in links
      ensures p in links && links[p] == old(links)[p]
      ensures Linked(links, links[p].list, Some(p), done', links[m].next) && Ids(done') == Ids(kids[..j'])
      ensures Forest(links[m].next, Some(p), kids[j'..])
      ensures Finalized(s0, Now(), kids[..j']) && NestedApart(nested, IdSet(kids[j'..]))
      ensures Built(bare, s0.links, nested, p, done', us') && Greedy(s0.links, info, us', links[m].next)
      decreases |Ids(kids[j..])|, 4
    {
      ghost var s1 := Now();
      ghost var t', u, k := Finalize(m, Some(p), kids[j..]);
      StepFinalized(s0, s1, Now(), kids, j, k);
      assert links[p] == s1.links[p];
      StepLinked(s1.links, links, links[p].list, Some(p), done, kids, j, k, t');
      StepParents(bare, s0, s1, Now(), p, done, us, t', u, kids, j, k);
      StepGreedy(bare, s0, s1, Now(), done, us, t', u, kids, j, k);
      ListStart(links, links[m].next, Some(p), kids, j + k);
      done', us', j' := done + [t'], us + [u], j + k;
    }

    /** Finalizes the children of p in order. */
    method FinalizeKids(p: nat, ghost kids: seq<Tree>) returns (ghost kids': seq<Tree>, ghost us: seq<Tree>)
      requires p in links && p !in IdSet(kids) && Forest(links[p].list, Some(p), kids)
      requires NestedSound(info, nested) && NestedApart(nested, IdSet(kids))
      modifies this
      ensures p in links && links[p] == old(links)[p]
      ensures Linked(links, links[p].list, Some(p), kids', None) && Ids(kids') == Ids(kids)
      ensures Finalized(old(Now()), Now(), kids) && InfoOk() && Built(bare, old(links), nested, p, kids', us)
      ensures Greedy(old(links), info, us, None)
      decreases |Ids(kids)|, 5
    {
      var menu := links[p].list;
      ghost var done: seq<Tree>, j := [], 0;
      us := [];
      TakeAll(kids);
      NothingFinalized(Now(), kids);
      while menu.Some?
        invariant Cut(kids, j) && p in links && links[p] == old(links)[p]
        invariant Linked(links, links[p].list, Some(p), done, menu) && Ids(done) == Ids(kids[..j])
        invariant Forest(menu, Some(p), kids[j..])
        invariant Finalized(old(Now()), Now(), kids[..j]) && NestedApart(nested, IdSet(kids[j..]))
        invariant Built(bare, old(links), nested, p, done, us) && Greedy(old(links), info, us, menu)
        decreases |kids| - j
      {
        var m := menu.value;
        ListStart(links, menu, Some(p), kids, j);
        done, us, j := FinalizeNext(p, m, old(Now()), done, us, kids, j);
        menu := links[m].next;
      }
      TakeAll(kids);
      kids' := done;
    }

    /** Gives m the parent p and records the nesting. */
    method SetParent(m: nat, p: nat)
      requires m in links
      modifies this`links, this`nested
      ensures Now() == AfterNest(old(Now()), m, p)
    {
      links := links[m := links[m].(parent := Some(p))];
      nested := nested[m := p];
    }

    /**
     * Finalizes the following sibling m of p and makes it a child of p. The siblings taken in so far, starting at
     * first, are `done`; j trees of ts are finalized.
     */
    method Nest(p: nat, m: nat, ghost par: Option<nat>, ghost s0: State, ghost done: seq<Tree>, ghost us: seq<Tree>,
                ghost a: seq<Tree>, ghost ts: seq<Tree>) returns (ghost t': Tree, ghost u: Tree, ghost k: nat)
      requires a != [] && ts != [] && Distinct(Ids(a + ts)) && p == a[0].id && AllOk(s0.info)
      requires p in links && m == ts[0].id && Forest(Some(m), par, ts) && p in info
      requires Linked(links, links[p].next, Some(p), done, Some(m)) && Ids([Tree(p, [])] + done) == Ids(a)
      requires Finalized(s0, Now(), a) && NestedApart(nested, IdSet(ts)) && p !in nested
      requires Built(bare, s0.links, nested, p, done, us) && Greedy(s0.links, info, us, Some(m))
      requires info[p].sym.Some?
      requires Nests(info[p].sym.value, info[p].PromptCondition(), info[m].Condition())
      modifies this
      ensures 1 <= k <= |ts| && t'.id == m && m in links
      ensures p in links && links[p] == old(links)[p] && p in info && info[p] == old(info)[p]
      ensures Linked(links, links[p].next, Some(p), done + [t'], links[m].next)
      ensures Forest(links[m].next, par, ts[k..])
      ensures Ids([Tree(p, [])] + (done + [t'])) == Ids(a + ts[..k])
      ensures Finalized(s0, Now(), a + ts[..k]) && NestedApart(nested, IdSet(ts[k..])) && p !in nested
      ensures Built(bare, s0.links, nested, p, done + [t'], us + [u])
      ensures Greedy(s0.links, info, us + [u], links[m].next)
      decreases |Ids(ts)|, 4
    {
      ghost var s1 := Now();
      ghost var first := links[p].next;
      t', u, k := Finalize(m, par, ts);
      ghost var s2 := Now();
      ghost var b, c := ts[..k], ts[k..];
      ThreeSegments(a, ts, k);
      assert b[0] == ts[0];
      FinalizedCompose(s0, s1, s2, a, b);
      NestUnchanged(s1, s2, a, b);
      NestLinked(s1.links, s2.links, first, par, p, done, a, b, c, t');
      NestIds(p, done, t', a, b);
      NestFinalized(s0, s1, s2, a, b);
      NestParents(bare, s0, s1, s2, p, done, us, t', u, a, b);
      NestGreedy(bare, s0, s1, s2, p, done, us, t', u, a, ts, k);
      SetParent(m, p);
      ListStart(links, links[m].next, par, ts, k);
    }

    /** The same with all trees ts of the list from p on, of which the first k were taken in before. */
    method NestNext(p: nat, m: nat, ghost par: Option<nat>, ghost s0: State, ghost done: seq<Tree>, ghost us: seq<Tree>,
                    ghost ts: seq<Tree>, ghost k: nat)
      returns (ghost done': seq<Tree>, ghost us': seq<Tree>, ghost k': nat)
      requires 1 <= k < |ts| && Cut(ts, k) && |Ids(ts[k..])| < |Ids(ts)| && Distinct(Ids(ts))
      requires ts[0].id == p && ts[k].id == m && AllOk(s0.info)
      requires p in links && Forest(Some(m), par, ts[k..]) && p in info
      requires Linked(links, links[p].next, Some(p), done, Some(m)) && Ids([Tree(p, [])] + done) == Ids(ts[..k])
      requires Finalized(s0, Now(), ts[..k]) && NestedApart(nested, IdSet(ts[k..])) && p !in nested
      requires Built(bare, s0.links, nested, p, done, us) && Greedy(s0.links, info, us, Some(m))
      requires info[p].sym.Some?
      requires Nests(info[p].sym.value, info[p].PromptCondition(), info[m].Condition())
      modifies this
      ensures k < k' && Cut(ts, k') && |Ids(ts[k'..])| < |Ids(ts)| && m in links
      ensures p in links && links[p] == old(links)[p] && p in info && info[p] == old(info)[p]
      ensures done' != [] && done'[|done'| - 1].id == m
      ensures Linked(links, links[p].next, Some(p), done', links[m].next) && Forest(links[m].next, par, ts[k'..])
      ensures Ids([Tree(p, [])] + done') == Ids(ts[..k'])
      ensures Finalized(s0, Now(), ts[..k']) && NestedApart(nested, IdSet(ts[k'..])) && p !in nested
      ensures Built(bare, s0.links, nested, p, done', us') && Greedy(s0.links, info, us', links[m].next)
      decreases |Ids(ts[k..])|, 5
    {
      assert ts[..k][0].id == p;
      ghost var t', u, k1 := Nest(p, m, par, s0, done, us, ts[..k], ts[k..]);
      Segments(ts, k, k1);
      AbsorbShrinks(ts, k + k1);
      done', us', k' := done + [t'], us + [u], k + k1;
    }

    /**
     * Gives the following siblings of the leaf p the parent p, as far as the nesting test lets it; returns the last
     * one. It is ts[k] at which the test failed.
     */
    method NestSiblings(p: nat, ghost par: Option<nat>, ghost s0: State, ghost ts: seq<Tree>)
      returns (last: Option<nat>, ghost done: seq<Tree>, ghost us: seq<Tree>, ghost k: nat, ghost end: Option<nat>)
      requires ts != [] && ts[0].id == p && p in links && Distinct(Ids(ts)) && Forest(links[p].next, par, ts[1..])
      requires Cut(ts, 1) && |Ids(ts[1..])| < |Ids(ts)| && Ids([Tree(p, [])] + []) == Ids(ts[..1])
      requires p in info && info[p].sym.Some? && p !in nested && NestedApart(nested, IdSet(ts[1..])) && AllOk(s0.info)
      requires Finalized(s0, Now(), ts[..1])
      modifies this
      ensures 1 <= k && Cut(ts, k) && Ids([Tree(p, [])] + done) == Ids(ts[..k])
      ensures p in links && links[p] == old(links)[p] && p in info && info[p] == old(info)[p]
      ensures SegmentEnds(links, p, last, done, end)
      ensures Linked(links, links[p].next, Some(p), done, end) && Linked(links, end, par, ts[k..], None)
      ensures Finalized(s0, Now(), ts[..k]) && p !in nested && InfoOk() && Built(bare, s0.links, nested, p, done, us)
      ensures Greedy(s0.links, info, us, end) && Stops(info, p, end)
      decreases |Ids(ts)|, 0
    {
      var sym, base := info[p].sym.value, info[p].PromptCondition();
      var menu := links[p].next;
      last, done, us, k := None, [], [], 1;
      while menu.Some?
        invariant 1 <= k && Cut(ts, k) && |Ids(ts[k..])| < |Ids(ts)|
        invariant p in links && links[p] == old(links)[p] && p in info && info[p] == old(info)[p]
        invariant Linked(links, links[p].next, Some(p), done, menu) && Forest(menu, par, ts[k..])
        invariant Ids([Tree(p, [])] + done) == Ids(ts[..k])
        invariant Finalized(s0, Now(), ts[..k]) && NestedApart(nested, IdSet(ts[k..])) && p !in nested
        invariant Built(bare, s0.links, nested, p, done, us) && Greedy(s0.links, info, us, menu)
        invariant SegmentEnds(links, p, last, done, menu)
        decreases |ts| - k
      {
        var m := menu.value;
        ListStart(links, menu, par, ts, k);
        if !Nests(sym, base, info[m].Condition()) {
          break;
        }
        done, us, k := NestNext(p, m, par, s0, done, us, ts, k);
        last := Some(m);
        menu := links[m].next;
      }
      end := menu;
    }

    /** Makes following siblings of the leaf p its children, as far as the nesting test lets it. */
    method AbsorbSiblings(p: nat, ghost par: Option<nat>, ghost ts: seq<Tree>)
      returns (ghost done: seq<Tree>, ghost us: seq<Tree>, ghost k: nat)
      requires ts != [] && ts[0] == Tree(p, []) && Forest(Some(p), par, ts)
      requires p in info && info[p].sym.Some? && NestedSound(info, nested) && NestedApart(nested, IdSet(ts))
      modifies this
      ensures 1 <= k <= |ts| && p in links && links[p].parent == par && p in info && info[p] == old(info)[p]
      ensures Linked(links, links[p].list, Some(p), done, None) && Ids([Tree(p, done)]) == Ids(ts[..k])
      ensures Linked(links, links[p].next, par, ts[k..], None)
      ensures Finalized(old(Now()), Now(), ts[..k]) && InfoOk() && p !in nested
      ensures Built(bare, old(links), nested, p, done, us) && Greedy(old(links), info, us, Follower(ts, k))
      ensures Stops(info, p, Follower(ts, k))
      decreases |Ids(ts)|, 1
    {
      LeafReady(Now(), p, par, ts);
      var last: Option<nat>;
      ghost var end;
      last, done, us, k, end := NestSiblings(p, par, Now(), ts);
      ListStart(links, end, par, ts, k);
      TakeInSiblings(p, last, par, old(Now()), done, ts, k, end);
    }

    /** Makes the siblings up to `last`, if there are any, the children of the leaf p. */
    method TakeInSiblings(p: nat, last: Option<nat>, ghost par: Option<nat>, ghost s0: State, ghost done: seq<Tree>,
                          ghost ts: seq<Tree>, ghost k: nat, ghost end: Option<nat>)
      requires 1 <= k && Cut(ts, k) && ts[0].id == p && Distinct(Ids(ts))
      requires p in links && links[p].list.None? && SegmentEnds(links, p, last, done, end)
      requires Ids([Tree(p, [])] + done) == Ids(ts[..k]) && Finalized(s0, Now(), ts[..k])
      requires Linked(links, links[p].next, Some(p), done, end) && Linked(links, end, par, ts[k..], None)
      modifies this`links
      ensures p in links && links[p].parent == old(links)[p].parent
      ensures Linked(links, links[p].list, Some(p), done, None) && Ids([Tree(p, done)]) == Ids(ts[..k])
      ensures Linked(links, links[p].next, par, ts[k..], None)
      ensures Finalized(s0, Now(), ts[..k])
    {
      if last.Some? {
        TakeIn(p, last.value, par, s0, done, ts, k);
      } else {
        assert [Tree(p, [])] + done == [Tree(p, done)];
      }
    }

    /** Makes the segment of siblings from p's next entry to `last` the children of p. */
    method TakeIn(p: nat, last: nat, ghost par: Option<nat>, ghost s0: State, ghost done: seq<Tree>,
                  ghost ts: seq<Tree>, ghost k: nat)
      requires 1 <= k <= |ts| && ts[0].id == p && Distinct(Ids(ts)) && ts[..k] + ts[k..] == ts
      requires p in links && done != [] && last == done[|done| - 1].id
      requires Ids([Tree(p, [])] + done) == Ids(ts[..k]) && Finalized(s0, Now(), ts[..k])
      requires var menu := EndOf(links, last);
               Linked(links, links[p].next, Some(p), done, menu) && Linked(links, menu, par, ts[k..], None)
      modifies this`links
      ensures p in links && links[p].parent == old(links)[p].parent
      ensures Linked(links, links[p].list, Some(p), done, None) && Ids([Tree(p, done)]) == Ids(ts[..k])
      ensures Linked(links, links[p].next, par, ts[k..], None)
      ensures Finalized(s0, Now(), ts[..k])
    {
      ghost var s1 := Now();
      LastIn(p, done, ts[..k], ts[k..]);
      LinkedEnd(links, links[p].next, Some(p), done, EndOf(links, last));
      TakenLinks(s1, p, last);
      links := links[p := links[p].(list := links[p].next)];
      links := links[p := links[p].(next := links[last].next)];
      links := links[last := links[last].(next := None)];
      assert Now() == Taken(s1, p, last);
      TakeInAll(s0, s1, Now(), p, last, par, done, ts[..k], ts[k..]);
    }

    /** Lets the children of the entry p inherit and finalizes them. */
    method FinalizeList(p: nat, ghost par: Option<nat>, ghost ts: seq<Tree>)
      returns (ghost kids': seq<Tree>, ghost us: seq<Tree>)
      requires ts != [] && ts[0].id == p && Forest(Some(p), par, ts) && links[p].list.Some?
      requires NestedSound(info, nested) && NestedApart(nested, IdSet(ts))
      modifies this
      ensures p in links && links[p].parent == par && p in info && info[p] == old(info)[p]
      ensures Linked(links, links[p].list, Some(p), kids', None) && Ids([Tree(p, kids')]) == Ids(ts[..1])
      ensures Linked(links, links[p].next, par, ts[1..], None)
      ensures Finalized(old(Now()), Now(), ts[..1]) && InfoOk() && p !in nested
      ensures Built(bare, old(links), nested, p, kids', us) && Greedy(old(links), info, us, None)
      decreases |Ids(ts)|, 1
    {
      ghost var s0 := Now();
      ghost var t, kids := ts[0], ts[0].kids;
      AbsorbStart(ts);
      FirstApart(ts);
      PropagateDeps(p, kids);
      ghost var s1 := Now();
      PropagatedNested(s0.info, s1.info, nested, kids, IdSet(ts));
      kids', us := FinalizeKids(p, kids);
      FinalizedNode(s0, s1, Now(), t);
      ListLinked(s0.links, links, par, ts);
      SameTree(p, kids, kids');
    }

    /** Everything Finalize does before it moves entries up: the children of p are now kids'. */
    method FinalizeBelow(p: nat, ghost par: Option<nat>, ghost ts: seq<Tree>)
      returns (ghost kids': seq<Tree>, ghost us: seq<Tree>, ghost k: nat)
      requires ts != [] && ts[0].id == p && Forest(Some(p), par, ts)
      requires NestedSound(info, nested) && NestedApart(nested, IdSet(ts))
      modifies this
      ensures 1 <= k <= |ts| && p in links && links[p].parent == par && p in info && info[p] == old(info)[p]
      ensures Linked(links, links[p].list, Some(p), kids', None) && Ids([Tree(p, kids')]) == Ids(ts[..k])
      ensures Linked(links, links[p].next, par, ts[k..], None)
      ensures Finalized(old(Now()), Now(), ts[..k]) && InfoOk() && p !in nested
      ensures Built(bare, old(links), nested, p, kids', us)
      ensures Greedy(old(links), info, [Tree(p, us)], Follower(ts, k))
      ensures TakesIn(info, ts, k)
      decreases |Ids(ts)|, 2
    {
      FirstId(links, links[p].list, Some(p), ts[0].kids);
      if links[p].list.Some? {
        kids', us := FinalizeList(p, par, ts);
        k := 1;
      } else if info[p].sym.Some? {
        kids', us, k := AbsorbSiblings(p, par, ts);
      } else {
        LeafFinalized(Now(), p, par, ts);
        kids', us, k := [], [], 1;
      }
      TakenGreedy(old(links), info, p, us, ts, k);
    }

    /**
     * Finalizes the entry p, which is followed by the other trees of ts. It takes in the first k - 1 of them: none if
     * p has children or no symbol, and otherwise up to one that fails the nesting test. No entry is lost, repeated or
     * moved in front of another. In the tree u every entry is below the one it was nested below, or else below the one
     * it was written below; in the tree t' that p has become, the children of entries without prompt have moved up.
     */
    method Finalize(p: nat, ghost par: Option<nat>, ghost ts: seq<Tree>)
      returns (ghost t': Tree, ghost u: Tree, ghost k: nat)
      requires ts != [] && ts[0].id == p && Forest(Some(p), par, ts)
      requires NestedSound(info, nested) && NestedApart(nested, IdSet(ts))
      modifies this
      ensures 1 <= k <= |ts| && t'.id == p && Ids([t']) == Ids(ts[..k])
      ensures Linked(links, Some(p), par, [t'] + ts[k..], None)
      ensures Finalized(old(Now()), Now(), ts[..k]) && InfoOk() && p !in nested
      ensures BuiltTree(bare, old(links), nested, t', u) && p in info && info[p] == old(info)[p]
      ensures TakesIn(info, ts, k) && Greedy(old(links), info, [u], Follower(ts, k))
      decreases |Ids(ts)|, 3
    {
      ghost var s0 := Now();
      ghost var kids: seq<Tree>, us: seq<Tree>;
      kids, us, k := FinalizeBelow(p, par, ts);
      ChildrenFound(s0, Now(), p, kids, ts, k);
      FlatTreesDeep(bare, us);
      RaiseFlat(bare, us);
      ghost var kids' := FlattenBelow(p, par, s0, kids, ts[..k], ts[k..]);
      t', u := Tree(p, kids'), Tree(p, us);
    }

    /** Flattens the children of p, which is in place of the finalized trees a and followed by c. */
    method FlattenBelow(p: nat, ghost par: Option<nat>, ghost s0: State, ghost kids: seq<Tree>, ghost a: seq<Tree>,
                        ghost c: seq<Tree>) returns (ghost kids': seq<Tree>)
      requires p in links && links[p].parent == par && Distinct(Ids(a + c)) && Ids([Tree(p, kids)]) == Ids(a)
      requires Forest(links[p].list, Some(p), kids) && p !in IdSet(kids) && Linked(links, links[p].next, par, c, None)
      requires Finalized(s0, Now(), a) && KidsDeep(bare, kids)
      modifies this`links
      ensures Ids([Tree(p, kids')]) == Ids(a) && kids' == Raise(bare, kids)
      ensures Linked(links, Some(p), par, [Tree(p, kids')] + c, None) && Finalized(s0, Now(), a)
    {
      ghost var s1 := Now();
      kids' := Flatten(p, kids);
      AfterFlatten(s0, s1, Now(), p, par, kids, kids', a, c);
    }
  }

  /** The trees ts cut in front of the j-th. */
  ghost predicate Cut(ts: seq<Tree>, j: nat) {
    j <= |ts| && ts[..j] + ts[j..] == ts && |Ids(ts[j..])| <= |Ids(ts)|
  }

  /** The logical parents of the trees us, which stand for a, and of those below u, which stands for b. */
  lemma ParentsStep(s0: State, s1: State, s2: State, p: nat, us: seq<Tree>, u: Tree, a: seq<Tree>, b: seq<Tree>)
    requires Distinct(Ids(a + b)) && SameOutside(s0.links, s1.links, IdSet(a))
    requires NestedWithin(s1.nested, s2.nested, IdSet(b))
    requires HasParents(s0.links, s1.nested, Some(p), us) && forall x :: x in Ids(us) ==> x in IdSet(a)
    requires HasParents(s1.links, s2.nested, Some(u.id), u.kids) && forall x :: x in Ids(u.kids) ==> x in IdSet(b)
    ensures HasParents(s0.links, s2.nested, Some(p), us) && HasParents(s0.links, s2.nested, Some(u.id), u.kids)
  {
    IdSetsApart(a, b);
    HasParentsFrame(s0.links, s1.nested, s0.links, s2.nested, Some(p), us);
    HasParentsFrame(s1.links, s2.nested, s0.links, s2.nested, Some(u.id), u.kids);
  }

  lemma TreeIn(bare: set<nat>, t: Tree, u: Tree, b: seq<Tree>)
    requires t == FlatTree(bare, u) && Ids([t]) == Ids(b)
    ensures u.id == t.id && u.id in IdSet(b) && forall x :: x in Ids(u.kids) ==> x in IdSet(b)
    ensures Distinct(Ids(b)) ==> u.id !in Ids(u.kids)
  {
    FlatKidsIds(bare, u.kids);
    assert [t][1..] == [];
    assert Ids(b) == [u.id] + Ids(u.kids) + [];
    assert u.id in IdSet(b);
    if Distinct(Ids(b)) {
      assert [u.id] + Ids(u.kids) + [] == [u.id] + Ids(u.kids);
      DistinctParts([u.id], Ids(u.kids));
    }
  }

  /** After another child t' of p has been finalized. */
  lemma StepParents(bare: set<nat>, s0: State, s1: State, s2: State, p: nat, done: seq<Tree>, us: seq<Tree>, t': Tree,
                    u: Tree, kids: seq<Tree>, j: nat, k: nat)
    requires j + k <= |kids| && Distinct(Ids(kids)) && Ids(done) == Ids(kids[..j]) && Ids([t']) == Ids(kids[j..][..k])
    requires Finalized(s0, s1, kids[..j]) && Finalized(s1, s2, kids[j..][..k]) && t'.id !in s2.nested
    requires Built(bare, s0.links, s1.nested, p, done, us) && BuiltTree(bare, s1.links, s2.nested, t', u)
    requires t'.id in s1.links && s1.links[t'.id].parent == Some(p)
    ensures Built(bare, s0.links, s2.nested, p, done + [t'], us + [u])
  {
    var a, b := kids[..j], kids[j..][..k];
    Segments(kids, j, k);
    FlatTreesIds(bare, us);
    TreeIn(bare, t', u, b);
    assert Ids(us) == Ids(a);
    IdsAppend(a, b);
    IdSetsApart(a, b);
    ParentsStep(s0, s1, s2, p, us, u, a, b);
    HasParentsSnoc(s0.links, s2.nested, Some(p), us, u);
    FlatTreesSnoc(bare, us, u);
  }

  /** After another sibling t' has been finalized and nested below p. */
  lemma NestParents(bare: set<nat>, s0: State, s1: State, s2: State, p: nat, done: seq<Tree>, us: seq<Tree>, t': Tree,
                    u: Tree, a: seq<Tree>, b: seq<Tree>)
    requires Distinct(Ids(a + b)) && Ids([Tree(p, [])] + done) == Ids(a) && Ids([t']) == Ids(b)
    requires Finalized(s0, s1, a) && Finalized(s1, s2, b)
    requires Built(bare, s0.links, s1.nested, p, done, us) && BuiltTree(bare, s1.links, s2.nested, t', u)
    ensures Built(bare, s0.links, s2.nested[t'.id := p], p, done + [t'], us + [u])
  {
    IdSetsApart(a, b);
    FlatTreesIds(bare, us);
    ChildrenIn(p, done, a);
    TreeIn(bare, t', u, b);
    forall x | x in Ids(us) ensures x in IdSet(a) {
      assert x in IdSet(done);
    }
    ParentsStep(s0, s1, s2, p, us, u, a, b);
    NestOne(s0.links, s2.nested, p, us, u);
    FlatTreesSnoc(bare, us, u);
  }

  /** The trees us, followed by the tree u, which stands for b. */
  lemma GreedyStep(s0: State, s1: State, s2: State, us: seq<Tree>, u: Tree, a: seq<Tree>, b: seq<Tree>, f: Option<nat>)
    requires b != [] && Distinct(Ids(a + b)) && u.id == b[0].id && Ids([u]) == Ids(b)
    requires SameOutside(s0.links, s1.links, IdSet(a)) && SameOutside(s1.info, s2.info, KidSet(b))
    requires forall x :: x in Ids(us) ==> x in IdSet(a)
    requires Greedy(s0.links, s1.info, us, Some(u.id)) && Greedy(s1.links, s2.info, [u], f)
    ensures Greedy(s0.links, s2.info, us + [u], f)
  {
    IdSetsApart(a, b);
    KidSetIn(b);
    RootsApartFromKids(b);
    assert b[0].id in RootSet(b);
    GreedyFrame(s0.links, s1.info, s0.links, s2.info, us, Some(u.id));
    forall x | x in Ids([u]) ensures Childless(s0.links, x) <==> Childless(s1.links, x) {
      assert x in IdSet(b);
    }
    GreedyFrame(s1.links, s2.info, s0.links, s2.info, [u], f);
    GreedySnoc(s0.links, s2.info, us, u, f);
  }

  lemma TreeIds(bare: set<nat>, t: Tree, u: Tree)
    requires t == FlatTree(bare, u)
    ensures Ids([u]) == Ids([t])
  {
    FlatKidsIds(bare, u.kids);
    SameTree(u.id, u.kids, t.kids);
  }

  /** After another child t' of p has been finalized. */
  lemma StepGreedy(bare: set<nat>, s0: State, s1: State, s2: State, done: seq<Tree>, us: seq<Tree>, t': Tree, u: Tree,
                   kids: seq<Tree>, j: nat, k: nat)
    requires 1 <= k && j + k <= |kids| && Distinct(Ids(kids)) && Ids(done) == Ids(kids[..j])
    requires Ids([t']) == Ids(kids[j..][..k]) && t'.id == kids[j].id
    requires Finalized(s0, s1, kids[..j]) && Finalized(s1, s2, kids[j..][..k])
    requires done == FlatTrees(bare, us) && t' == FlatTree(bare, u)
    requires Greedy(s0.links, s1.info, us, Some(u.id)) && Greedy(s1.links, s2.info, [u], Follower(kids[j..], k))
    ensures Greedy(s0.links, s2.info, us + [u], Follower(kids, j + k))
  {
    Segments(kids, j, k);
    FlatTreesIds(bare, us);
    TreeIds(bare, t', u);
    GreedyStep(s0, s1, s2, us, u, kids[..j], kids[j..][..k], Follower(kids, j + k));
  }

  /** After another sibling t' of p, which starts ts, has been finalized. */
  lemma NestGreedy(bare: set<nat>, s0: State, s1: State, s2: State, p: nat, done: seq<Tree>, us: seq<Tree>, t': Tree,
                   u: Tree, a: seq<Tree>, ts: seq<Tree>, k: nat)
    requires 1 <= k <= |ts| && Distinct(Ids(a + ts[..k])) && Ids([Tree(p, [])] + done) == Ids(a)
    requires Ids([t']) == Ids(ts[..k]) && t'.id == ts[0].id
    requires Finalized(s0, s1, a) && Finalized(s1, s2, ts[..k])
    requires done == FlatTrees(bare, us) && t' == FlatTree(bare, u)
    requires Greedy(s0.links, s1.info, us, Some(u.id)) && Greedy(s1.links, s2.info, [u], Follower(ts, k))
    ensures Greedy(s0.links, s2.info, us + [u], Follower(ts, k))
  {
    FlatTreesIds(bare, us);
    ChildrenIn(p, done, a);
    forall x | x in Ids(us) ensures x in IdSet(a) {
      assert x in IdSet(done);
    }
    TreeIds(bare, t', u);
    GreedyStep(s0, s1, s2, us, u, a, ts[..k], Follower(ts, k));
  }

  /** The entry p, which takes in what it should, and its children. */
  lemma TakenGreedy(l: map<nat, Links>, info: map<nat, Info>, p: nat, us: seq<Tree>, ts: seq<Tree>, k: nat)
    requires TakesIn(info, ts, k) && ts[0].id == p && AllOk(info) && (Childless(l, p) <==> ts[0].kids == [])
    requires Greedy(l, info, us, if Childless(l, p) then Follower(ts, k) else None)
    ensures Greedy(l, info, [Tree(p, us)], Follower(ts, k))
  {
    GreedyNode(l, info, p, us, Follower(ts, k));
  }

  /** A list that goes on with ts starts with the first entry of ts. */
  lemma ListStart(l: map<nat, Links>, first: Option<nat>, par: Option<nat>, ts: seq<Tree>, k: nat)
    requires k <= |ts| && Linked(l, first, par, ts[k..], None)
    ensures first == Follower(ts, k)
  {
  }

  lemma NestOne(l: map<nat, Links>, n: map<nat, nat>, p: nat, us: seq<Tree>, u: Tree)
    requires HasParents(l, n, Some(p), us) && HasParents(l, n, Some(u.id), u.kids)
    requires u.id !in Ids(us) && u.id !in Ids(u.kids)
    ensures HasParents(l, n[u.id := p], Some(p), us + [u])
  {
    var n' := n[u.id := p];
    HasParentsFrame(l, n, l, n', Some(p), us);
    HasParentsFrame(l, n, l, n', Some(u.id), u.kids);
    HasParentsSnoc(l, n', Some(p), us, u);
  }

  /** The first tree of a forest of distinct entries. */
  lemma FirstApart(ts: seq<Tree>)
    requires ts != [] && Distinct(Ids(ts))
    ensures ts[..1] == [ts[0]] && Distinct(Ids([ts[0]])) && ts[0].id in IdSet(ts) && ts[0].id !in IdSet(ts[0].kids)
    ensures IdSet(ts[0].kids) <= IdSet(ts) && Distinct(Ids(ts[0].kids)) && |Ids(ts[0].kids)| < |Ids(ts)|
    ensures IdSet(ts[0].kids) !! IdSet(ts[1..]) && ts[0].id !in IdSet(ts[1..])
  {
    DistinctFirst(ts);
    IdSetFirst(ts);
    assert ts[..1] + ts[1..] == ts && ts[..1] == [ts[0]];
    IdSetsApart([ts[0]], ts[1..]);
  }

  /** Inheriting does not concern entries that were nested before. */
  lemma PropagatedNested(i0: map<nat, Info>, i1: map<nat, Info>, nested: map<nat, nat>, kids: seq<Tree>, xs: set<nat>)
    requires NestedSound(i0, nested) && NestedApart(nested, xs) && IdSet(kids) <= xs
    requires SameOutside(i0, i1, RootSet(kids))
    ensures NestedSound(i1, nested)
  {
    RootsIn(kids);
    forall x | x in nested ensures NestedAt(i1, x, nested[x]) {
      assert NestedAt(i0, x, nested[x]);
    }
  }

  /** Changes below the first entry leave the list behind it. */
  lemma ListLinked(l0: map<nat, Links>, l1: map<nat, Links>, par: Option<nat>, ts: seq<Tree>)
    requires ts != [] && Distinct(Ids(ts)) && Linked(l0, Some(ts[0].id), par, ts, None)
    requires SameOutside(l0, l1, IdSet(ts[0].kids))
    ensures l1[ts[0].id] == l0[ts[0].id] && Linked(l1, l1[ts[0].id].next, par, ts[1..], None)
  {
    FirstApart(ts);
    forall x | x in Ids(ts[1..]) ensures x !in IdSet(ts[0].kids) {
      assert x in IdSet(ts[1..]);
    }
    LinkedFrame(l0, l1, l0[ts[0].id].next, par, ts[1..], None);
  }

  lemma SameTree(p: nat, kids: seq<Tree>, kids': seq<Tree>)
    requires Ids(kids') == Ids(kids)
    ensures Ids([Tree(p, kids')]) == Ids([Tree(p, kids)])
  {
    assert [Tree(p, kids)][1..] == [] && [Tree(p, kids')][1..] == [];
  }

  lemma BelowApart(p: nat, kids: seq<Tree>, a: seq<Tree>, c: seq<Tree>)
    requires Distinct(Ids(a + c)) && Ids([Tree(p, kids)]) == Ids(a)
    ensures p !in IdSet(kids) && Distinct(Ids(kids)) && IdSet(a) == {p} + IdSet(kids)
  {
    IdSetsApart(a, c);
    OneTree(Tree(p, kids));
  }

  lemma BelowFound(s0: State, s1: State, p: nat, kids: seq<Tree>, a: seq<Tree>, c: seq<Tree>)
    requires Distinct(Ids(a + c)) && Ids([Tree(p, kids)]) == Ids(a)
    requires s0.info.Keys == s1.info.Keys && s0.links.Keys == s1.links.Keys
    requires forall x :: x in IdSet(a + c) ==> x in s0.info && x in s0.links
    ensures p !in IdSet(kids) && Distinct(Ids(kids))
    ensures forall x :: x in IdSet(kids) ==> x in s1.links && x in s1.info
  {
    IdSetsApart(a, c);
    BelowApart(p, kids, a, c);
  }

  lemma ChildrenFound(s0: State, s1: State, p: nat, kids: seq<Tree>, ts: seq<Tree>, k: nat)
    requires k <= |ts| && Distinct(Ids(ts)) && Ids([Tree(p, kids)]) == Ids(ts[..k])
    requires s0.info.Keys == s1.info.Keys && s0.links.Keys == s1.links.Keys
    requires forall x :: x in IdSet(ts) ==> x in s0.info && x in s0.links
    ensures p !in IdSet(kids) && Distinct(Ids(kids)) && Distinct(Ids(ts[..k] + ts[k..]))
    ensures forall x :: x in IdSet(kids) ==> x in s1.links && x in s1.info
  {
    assert ts[..k] + ts[k..] == ts;
    BelowFound(s0, s1, p, kids, ts[..k], ts[k..]);
  }

  lemma AfterFlatten(s0: State, s1: State, s2: State, p: nat, par: Option<nat>, kids: seq<Tree>, kids': seq<Tree>,
                     a: seq<Tree>, c: seq<Tree>)
    requires Distinct(Ids(a + c)) && Ids([Tree(p, kids)]) == Ids(a) && Ids(kids') == Ids(kids)
    requires Finalized(s0, s1, a) && s2.info == s1.info && s2.nested == s1.nested
    requires p in s1.links && p in s2.links && s2.links[p] == s1.links[p] && s1.links[p].parent == par
    requires SameOutside(s1.links, s2.links, IdSet(kids))
    requires Linked(s1.links, s1.links[p].next, par, c, None)
    requires Linked(s2.links, s2.links[p].list, Some(p), kids', None)
    ensures Linked(s2.links, Some(p), par, [Tree(p, kids')] + c, None) && Ids([Tree(p, kids')]) == Ids(a)
    ensures Finalized(s0, s2, a)
  {
    BelowApart(p, kids, a, c);
    FinalizedFlatten(s0, s1, s2, p, kids, a);
    FlattenLinked(s1.links, s2.links, p, par, kids, kids', a, c);
  }

  lemma FinalizedFlatten(s0: State, s1: State, s2: State, p: nat, kids: seq<Tree>, a: seq<Tree>)
    requires Finalized(s0, s1, a) && s2.info == s1.info && s2.nested == s1.nested
    requires IdSet(a) == {p} + IdSet(kids) && p in s1.links && p in s2.links && s2.links[p] == s1.links[p]
    requires SameOutside(s1.links, s2.links, IdSet(kids))
    ensures Finalized(s0, s2, a)
  {
    FinalizedRelink(s0, s1, s2, a);
  }

  /** The entry p with its children rearranged, in front of the rest of its list. */
  lemma FlattenLinked(l1: map<nat, Links>, l2: map<nat, Links>, p: nat, par: Option<nat>, kids: seq<Tree>,
                      kids': seq<Tree>, a: seq<Tree>, c: seq<Tree>)
    requires Distinct(Ids(a + c)) && Ids([Tree(p, kids)]) == Ids(a) && Ids(kids') == Ids(kids)
    requires p in l1 && p in l2 && l2[p] == l1[p] && l1[p].parent == par && SameOutside(l1, l2, IdSet(kids))
    requires Linked(l1, l1[p].next, par, c, None) && Linked(l2, l2[p].list, Some(p), kids', None)
    ensures Linked(l2, Some(p), par, [Tree(p, kids')] + c, None) && Ids([Tree(p, kids')]) == Ids(a)
  {
    IdSetsApart(a, c);
    OneTree(Tree(p, kids));
    assert IdSet([Tree(p, kids)]) == IdSet(a);
    forall x | x in Ids(c) ensures x !in IdSet(kids) {
      assert x in IdSet(c);
    }
    LinkedFrame(l1, l2, l1[p].next, par, c, None);
    SameTree(p, kids, kids');
    assert ([Tree(p, kids')] + c)[1..] == c;
  }

  /** The end of a list whose last entry is given. */
  ghost function EndOf(m: map<nat, Links>, last: nat): Option<nat> {
    if last in m then m[last].next else None
  }

  /** `last` is the last of the entries `done` that follow p, if there are any, and they are followed by `end`. */
  ghost predicate SegmentEnds(m: map<nat, Links>, p: nat, last: Option<nat>, done: seq<Tree>, end: Option<nat>) {
    && last == (if done == [] then None else Some(done[|done| - 1].id))
    && end == if last.Some? then EndOf(m, last.value) else EndOf(m, p)
  }

  lemma AbsorbStart(ts: seq<Tree>)
    requires ts != [] && Distinct(Ids(ts))
    ensures ts[..1] == [ts[0]] && ts[..1] + ts[1..] == ts && |Ids(ts[1..])| < |Ids(ts)|
    ensures IdSet(ts[1..]) <= IdSet(ts) && Distinct(Ids(ts[1..])) && ts[0].id in IdSet(ts)
  {
    assert ts[..1] + ts[1..] == ts;
    IdSetsApart(ts[..1], ts[1..]);
    RootIn(ts, 0);
  }

  /** An entry without children, left as it is. */
  lemma LeafFinalized(s: State, p: nat, par: Option<nat>, ts: seq<Tree>)
    requires ts != [] && ts[0] == Tree(p, []) && Linked(s.links, Some(p), par, ts, None) && Distinct(Ids(ts))
    requires p in s.info && AllOk(s.info) && NestedSound(s.info, s.nested)
    ensures Finalized(s, s, ts[..1]) && Ids([Tree(p, [])]) == Ids(ts[..1]) && p in IdSet(ts)
    ensures p in s.links && Linked(s.links, s.links[p].next, par, ts[1..], None)
  {
    AbsorbStart(ts);
    FinalizedLeaf(s, p);
  }

  /** The entry without children and the siblings behind it, of which it has not taken in any yet. */
  lemma LeafReady(s: State, p: nat, par: Option<nat>, ts: seq<Tree>)
    requires ts != [] && ts[0] == Tree(p, []) && Linked(s.links, Some(p), par, ts, None) && Distinct(Ids(ts))
    requires p in s.info && AllOk(s.info) && NestedSound(s.info, s.nested)
    ensures Finalized(s, s, ts[..1]) && Ids([Tree(p, [])] + []) == Ids(ts[..1]) && Cut(ts, 1)
    ensures p in IdSet(ts) && IdSet(ts[1..]) <= IdSet(ts) && Distinct(Ids(ts[1..])) && |Ids(ts[1..])| < |Ids(ts)|
    ensures p in s.links && s.links[p].parent == par && Linked(s.links, s.links[p].next, par, ts[1..], None)
    ensures Linked(s.links, s.links[p].list, Some(p), [], None)
  {
    LeafFinalized(s, p, par, ts);
    AbsorbStart(ts);
    assert [Tree(p, [])] + [] == [Tree(p, [])];
  }

  lemma AbsorbShrinks(ts: seq<Tree>, k: nat)
    requires 1 <= k <= |ts|
    ensures |Ids(ts[k..])| < |Ids(ts)|
  {
    assert ts[..k] + ts[k..] == ts;
    IdsAppend(ts[..k], ts[k..]);
  }

  lemma TakeInApart(p: nat, done: seq<Tree>, a: seq<Tree>, c: seq<Tree>)
    requires Ids([Tree(p, [])] + done) == Ids(a) && Distinct(Ids(a + c))
    ensures Distinct(Ids(done)) && p !in IdSet(done) && IdSet(done) !! IdSet(c) && p !in IdSet(c)
    ensures IdSet(a) == {p} + IdSet(done) && Ids([Tree(p, done)]) == Ids(a)
  {
    IdSetsApart(a, c);
    IdSetsApart([Tree(p, [])], done);
    assert [Tree(p, [])][1..] == [] && [Tree(p, done)][1..] == [];
    assert Ids([Tree(p, [])]) == [p];
    IdsAppend([Tree(p, [])], done);
    assert p in IdSet([Tree(p, [])]);
  }

  /** The state after the segment from p's next entry to `last` has become the list below p. */
  ghost function Taken(s: State, p: nat, last: nat): State
    requires p in s.links && last in s.links
  {
    var l1 := s.links[p := s.links[p].(list := s.links[p].next)];
    var l2 := l1[p := l1[p].(next := l1[last].next)];
    s.(links := l2[last := l2[last].(next := None)])
  }

  /** In the pointers l2 the segment from p's next entry to `last` has become the list below p. */
  ghost predicate TookIn(l1: map<nat, Links>, l2: map<nat, Links>, p: nat, last: nat) {
    && p in l1 && last in l1 && p != last && l2.Keys == l1.Keys
    && l2[p] == l1[p].(list := l1[p].next, next := l1[last].next) && l2[last] == l1[last].(next := None)
    && forall x {:trigger l2[x]} :: x in l1 && x != p && x != last ==> l2[x] == l1[x]
  }

  lemma TakenLinks(s: State, p: nat, last: nat)
    requires p in s.links && last in s.links && p != last
    ensures TookIn(s.links, Taken(s, p, last).links, p, last)
  {
  }

  lemma LastIn(p: nat, done: seq<Tree>, a: seq<Tree>, c: seq<Tree>)
    requires done != [] && Distinct(Ids(a + c)) && Ids([Tree(p, [])] + done) == Ids(a)
    ensures done[|done| - 1].id in IdSet(done) && done[|done| - 1].id != p
  {
    TakeInApart(p, done, a, c);
    RootIn(done, |done| - 1);
  }

  lemma TakeInAll(s0: State, s1: State, s2: State, p: nat, last: nat, par: Option<nat>, done: seq<Tree>, a: seq<Tree>,
                  c: seq<Tree>)
    requires done != [] && last == done[|done| - 1].id && TookIn(s1.links, s2.links, p, last)
    requires s2.info == s1.info && s2.nested == s1.nested
    requires Distinct(Ids(a + c)) && Ids([Tree(p, [])] + done) == Ids(a) && Finalized(s0, s1, a)
    requires Linked(s1.links, s1.links[p].next, Some(p), done, s1.links[last].next)
    requires Linked(s1.links, s1.links[last].next, par, c, None)
    ensures Ids([Tree(p, done)]) == Ids(a) && Finalized(s0, s2, a)
    ensures Linked(s2.links, s2.links[p].list, Some(p), done, None) && Linked(s2.links, s2.links[p].next, par, c, None)
  {
    TakeInApart(p, done, a, c);
    TakeInLinked(s1.links, s2.links, p, last, par, done, c);
    TakeInFinalized(s0, s1, s2, p, last, done, a);
  }

  /** Taking siblings in concerns only the two entries whose pointers change. */
  lemma TakeInFinalized(s0: State, s1: State, s2: State, p: nat, last: nat, done: seq<Tree>, a: seq<Tree>)
    requires Finalized(s0, s1, a) && done != [] && last == done[|done| - 1].id && IdSet(a) == {p} + IdSet(done)
    requires TookIn(s1.links, s2.links, p, last) && s2.info == s1.info && s2.nested == s1.nested
    ensures Finalized(s0, s2, a)
  {
    RootIn(done, |done| - 1);
    assert last in IdSet(done);
    FinalizedRelink(s0, s1, s2, a);
  }

  lemma TakeInLinked(l1: map<nat, Links>, l2: map<nat, Links>, p: nat, last: nat, par: Option<nat>, done: seq<Tree>,
                     c: seq<Tree>)
    requires done != [] && last == done[|done| - 1].id && TookIn(l1, l2, p, last)
    requires Distinct(Ids(done)) && p !in IdSet(done) && IdSet(done) !! IdSet(c) && p !in IdSet(c)
    requires Linked(l1, l1[p].next, Some(p), done, l1[last].next) && Linked(l1, l1[last].next, par, c, None)
    ensures Linked(l2, l2[p].list, Some(p), done, None) && Linked(l2, l2[p].next, par, c, None)
  {
    RootIn(done, |done| - 1);
    assert last in IdSet(done);
    forall x | x in Ids(done) ensures x != p {
      assert x in IdSet(done);
    }
    forall x | x in Ids(c) ensures x != p && x != last {
      assert x in IdSet(c);
    }
    LinkedSetEnd(l1, l1[p].next, Some(p), done, l1[last].next, None);
    LinkedFrame(l1[last := l1[last].(next := None)], l2, l1[p].next, Some(p), done, None);
    LinkedFrame(l1, l2, l1[last].next, par, c, None);
  }

  /** Finalizing the siblings b after a touches neither the first entry of a nor the contents of the first of b. */
  lemma NestUnchanged(s1: State, s2: State, a: seq<Tree>, b: seq<Tree>)
    requires a != [] && b != [] && Distinct(Ids(a + b)) && Finalized(s1, s2, b)
    ensures var p, m := a[0].id, b[0].id;
            && p in IdSet(a) && m in IdSet(b) && p !in IdSet(b) && m !in KidSet(b)
            && (p in s1.links ==> p in s2.links && s2.links[p] == s1.links[p])
            && (p in s1.info ==> p in s2.info && s2.info[p] == s1.info[p])
            && (m in s1.info ==> m in s2.info && s2.info[m] == s1.info[m])
    ensures s2.links.Keys == s1.links.Keys && s2.info.Keys == s1.info.Keys
  {
    IdSetsApart(a, b);
    RootIn(a, 0);
    RootIn(b, 0);
    KidSetIn(b);
    RootsApartFromKids(b);
    assert b[0].id in RootSet(b);
  }

  /** Changing the parent of an entry outside keeps a list. */
  lemma AdoptOutside(l: map<nat, Links>, m: nat, p: nat, first: Option<nat>, par: Option<nat>, ts: seq<Tree>,
                     end: Option<nat>)
    requires Linked(l, first, par, ts, end) && m in l && m !in IdSet(ts)
    ensures Linked(l[m := l[m].(parent := Some(p))], first, par, ts, end)
  {
    var l' := l[m := l[m].(parent := Some(p))];
    forall x | x in Ids(ts) ensures x != m {
      assert x in IdSet(ts);
    }
    LinkedFrame(l, l', first, par, ts, end);
  }

  /** The lists after the sibling t', which has taken in b, has become the last child of p. */
  lemma NestLinked(l1: map<nat, Links>, l2: map<nat, Links>, first: Option<nat>, par: Option<nat>, p: nat,
                   done: seq<Tree>, a: seq<Tree>, b: seq<Tree>, c: seq<Tree>, t': Tree)
    requires Distinct(Ids(a + b)) && IdSet(b) !! IdSet(c) && Ids([Tree(p, [])] + done) == Ids(a) && Ids([t']) == Ids(b)
    requires Linked(l1, first, Some(p), done, Some(t'.id))
    requires SameOutside(l1, l2, IdSet(b)) && Linked(l2, Some(t'.id), par, [t'] + c, None)
    ensures var m := t'.id;
            && m in l2
            && var l3 := l2[m := l2[m].(parent := Some(p))];
            && Linked(l3, first, Some(p), done + [t'], l3[m].next)
            && Linked(l3, l3[m].next, par, c, None)
  {
    var m := t'.id;
    assert ([t'] + c)[1..] == c;
    IdSetsApart(a, b);
    OneTree(t');
    assert IdSet([t']) == IdSet(b);
    ChildrenIn(p, done, a);
    forall x | x in Ids(done) ensures x !in IdSet(b) {
      assert x in IdSet(done);
    }
    LinkedFrame(l1, l2, first, Some(p), done, Some(m));
    AdoptOutside(l2, m, p, first, Some(p), done, Some(m));
    AdoptOutside(l2, m, p, l2[m].next, par, c, None);
    AdoptOutside(l2, m, p, l2[m].list, Some(m), t'.kids, None);
    LinkedSnoc(l2[m := l2[m].(parent := Some(p))], first, Some(p), done, t');
  }

  lemma ThreeSegments(a: seq<Tree>, ts: seq<Tree>, k: nat)
    requires k <= |ts| && Distinct(Ids(a + ts))
    ensures a + ts == (a + ts[..k]) + ts[k..] && ts[..k] + ts[k..] == ts
    ensures Distinct(Ids(a + ts[..k])) && Distinct(Ids(ts[k..]))
    ensures IdSet(ts[..k]) !! IdSet(ts[k..]) && IdSet(a) !! IdSet(ts) && IdSet(ts) == IdSet(ts[..k]) + IdSet(ts[k..])
  {
    assert a + ts == (a + ts[..k]) + ts[k..];
    assert ts[..k] + ts[k..] == ts;
    IdSetsApart(a + ts[..k], ts[k..]);
    IdSetsApart(a, ts);
    IdSetsApart(ts[..k], ts[k..]);
  }

  lemma ChildrenIn(p: nat, done: seq<Tree>, a: seq<Tree>)
    requires Ids([Tree(p, [])] + done) == Ids(a)
    ensures IdSet(done) <= IdSet(a)
  {
    IdSetAppend([Tree(p, [])], done);
  }

  lemma NestIds(p: nat, done: seq<Tree>, t': Tree, a: seq<Tree>, b: seq<Tree>)
    requires Ids([Tree(p, [])] + done) == Ids(a) && Ids([t']) == Ids(b)
    ensures Ids([Tree(p, [])] + (done + [t'])) == Ids(a + b)
  {
    IdsAppend([Tree(p, [])] + done, [t']);
    assert [Tree(p, [])] + (done + [t']) == [Tree(p, [])] + done + [t'];
    IdsAppend(a, b);
  }

  /** The state after m has been given the parent p and this has been recorded. */
  ghost function AfterNest(s: State, m: nat, p: nat): State
    requires m in s.links
  {
    s.(links := s.links[m := s.links[m].(parent := Some(p))], nested := s.nested[m := p])
  }

  lemma NestFinalized(s0: State, s1: State, s2: State, a: seq<Tree>, b: seq<Tree>)
    requires a != [] && b != [] && Distinct(Ids(a + b))
    requires Finalized(s1, s2, b) && Finalized(s0, s2, a + b) && AllOk(s1.info) && b[0].id !in s2.nested
    requires var p, m := a[0].id, b[0].id;
             && p in s1.info && m in s1.info && m in s2.links && s1.info[p].sym.Some?
             && Nests(s1.info[p].sym.value, s1.info[p].PromptCondition(), s1.info[m].Condition())
    ensures Finalized(s0, AfterNest(s2, b[0].id, a[0].id), a + b)
  {
    var p, m := a[0].id, b[0].id;
    NestUnchanged(s1, s2, a, b);
    IdSetAppend(a, b);
    FinalizedNest(s0, s2, AfterNest(s2, m, p), a + b, m, p);
  }

  /** After a step that finalized k more of the trees ts. */
  lemma StepFinalized(s0: State, s1: State, s2: State, ts: seq<Tree>, j: nat, k: nat)
    requires j + k <= |ts| && Distinct(Ids(ts)) && ts[..j] + ts[j..] == ts && AllOk(s0.info)
    requires Finalized(s0, s1, ts[..j]) && Finalized(s1, s2, ts[j..][..k])
    requires NestedApart(s1.nested, IdSet(ts[j..]))
    ensures Finalized(s0, s2, ts[..j + k]) && NestedApart(s2.nested, IdSet(ts[j + k..]))
    ensures ts[..j + k] + ts[j + k..] == ts && |Ids(ts[j + k..])| <= |Ids(ts)| && Distinct(Ids(ts[j + k..]))
    ensures IdSet(ts[j..][..k]) <= IdSet(ts) && IdSet(ts[j + k..]) <= IdSet(ts[j..])
  {
    Segments(ts, j, k);
    FinalizedCompose(s0, s1, s2, ts[..j], ts[j..][..k]);
  }

  lemma Segments(ts: seq<Tree>, j: nat, k: nat)
    requires j + k <= |ts| && Distinct(Ids(ts))
    ensures ts[..j] + ts[j..][..k] == ts[..j + k] && ts[j..][..k] + ts[j + k..] == ts[j..]
    ensures ts[..j + k] + ts[j + k..] == ts && ts[j..][k..] == ts[j + k..]
    ensures Ids(ts[..j + k]) == Ids(ts[..j]) + Ids(ts[j..][..k]) && Ids(ts[j..]) == Ids(ts[j..][..k]) + Ids(ts[j + k..])
    ensures Distinct(Ids(ts[..j + k])) && Distinct(Ids(ts[j + k..])) && |Ids(ts[j + k..])| <= |Ids(ts)|
    ensures IdSet(ts[..j]) !! IdSet(ts[j..]) && IdSet(ts[j..][..k]) !! IdSet(ts[j + k..])
    ensures IdSet(ts[j..]) == IdSet(ts[j..][..k]) + IdSet(ts[j + k..])
    ensures IdSet(ts[..j + k]) == IdSet(ts[..j]) + IdSet(ts[j..][..k])
    ensures IdSet(ts) == IdSet(ts[..j]) + IdSet(ts[j..])
  {
    assert ts[..j] + ts[j..] == ts;
    assert ts[..j + k] + ts[j + k..] == ts;
    assert ts[..j] + ts[j..][..k] == ts[..j + k];
    assert ts[j..][..k] + ts[j + k..] == ts[j..];
    IdSetsApart(ts[..j], ts[j..]);
    IdSetsApart(ts[..j + k], ts[j + k..]);
    IdSetsApart(ts[j..][..k], ts[j + k..]);
    IdSetAppend(ts[..j], ts[j..][..k]);
    IdsAppend(ts[..j], ts[j..][..k]);
    IdsAppend(ts[j..][..k], ts[j + k..]);
    IdsAppend(ts[..j + k], ts[j + k..]);
  }

  /** The list below p after the same step, which left the tree t' in place of k trees. */
  lemma StepLinked(l1: map<nat, Links>, l2: map<nat, Links>, first: Option<nat>, par: Option<nat>, done: seq<Tree>,
                   ts: seq<Tree>, j: nat, k: nat, t': Tree)
    requires 1 <= k && j + k <= |ts| && Distinct(Ids(ts)) && Ids(done) == Ids(ts[..j]) && Ids([t']) == Ids(ts[j..][..k])
    requires Linked(l1, first, par, done, Some(t'.id)) && SameOutside(l1, l2, IdSet(ts[j..][..k]))
    requires Linked(l2, Some(t'.id), par, [t'] + ts[j..][k..], None)
    ensures t'.id in l2 && Ids(done + [t']) == Ids(ts[..j + k])
    ensures Linked(l2, first, par, done + [t'], l2[t'.id].next)
    ensures Linked(l2, l2[t'.id].next, par, ts[j + k..], None)
  {
    Segments(ts, j, k);
    forall x | x in Ids(done) ensures x !in IdSet(ts[j..][..k]) {
      assert x in IdSet(ts[..j]);
    }
    LinkedFrame(l1, l2, first, par, done, Some(t'.id));
    assert ([t'] + ts[j..][k..])[1..] == ts[j..][k..];
    LinkedSnoc(l2, first, par, done, t');
    IdsAppend(done, [t']);
  }

  lemma SplitFirst(done: seq<Tree>, todo: seq<Tree>)
    requires todo != []
    ensures done + todo == done + ([todo[0]] + todo[1..]) == done + [todo[0]] + todo[1..]
    ensures todo == [todo[0]] + todo[1..]
    ensures IdSet(done + todo) == IdSet(done) + IdSet(todo) && todo[0].id in IdSet(todo)
    ensures {todo[0].id} + IdSet(todo[0].kids) <= IdSet(todo)
    ensures |Ids(todo[1..])| < |Ids(todo)|
  {
    SplitSeq(done, todo);
    IdSetAppend(done, todo);
    IdSetFirst(todo);
  }

  lemma SplitSeq<T>(done: seq<T>, todo: seq<T>)
    requires todo != []
    ensures done + todo == done + ([todo[0]] + todo[1..]) == done + [todo[0]] + todo[1..]
  {
  }

  lemma IdsMoveUp(done: seq<Tree>, m: nat, kids: seq<Tree>, rest: seq<Tree>)
    ensures Ids(done + [Tree(m, [])] + (kids + rest)) == Ids(done + ([Tree(m, kids)] + rest))
    ensures |Ids(kids + rest)| < |Ids([Tree(m, kids)] + rest)|
  {
    IdsAppend(done + [Tree(m, [])], kids + rest);
    IdsAppend(done, [Tree(m, [])]);
    IdsAppend(kids, rest);
    IdsAppend(done, [Tree(m, kids)] + rest);
    IdsCons(m, kids, rest);
    IdsCons(m, [], []);
    assert [Tree(m, [])] + [] == [Tree(m, [])];
    Regroup(Ids(done), m, Ids(kids), Ids(rest));
  }

  lemma IdsCons(m: nat, kids: seq<Tree>, rest: seq<Tree>)
    ensures Ids([Tree(m, kids)] + rest) == [m] + Ids(kids) + Ids(rest)
  {
    assert ([Tree(m, kids)] + rest)[1..] == rest;
  }

  lemma Regroup(a: seq<nat>, m: nat, b: seq<nat>, c: seq<nat>)
    ensures (a + ([m] + [] + [])) + (b + c) == a + ([m] + b + c)
  {
  }

  /** The entries around a child that is flattened are pairwise different. */
  lemma MoveUpApart(done: seq<Tree>, m: nat, kids: seq<Tree>, rest: seq<Tree>)
    requires Distinct(Ids(done + ([Tree(m, kids)] + rest)))
    ensures m !in IdSet(done) && m !in IdSet(kids) && m !in IdSet(rest)
    ensures IdSet(kids) !! IdSet(done) && IdSet(kids) !! IdSet(rest) && RootSet(kids) <= IdSet(kids)
    ensures Distinct(Ids(kids)) && Distinct(Ids(kids + rest))
    ensures IdSet(done + ([Tree(m, kids)] + rest)) == IdSet(done) + {m} + IdSet(kids) + IdSet(rest)
  {
    var b := [Tree(m, kids)] + rest;
    IdSetsApart(done, b);
    assert b[1..] == rest;
    DistinctFirst(b);
    IdSetFirst(b);
    RootsIn(kids);
    IdsAppend(kids, rest);
    DistinctAppend(Ids(kids), Ids(rest));
  }

  lemma DistinctAppend(a: seq<nat>, b: seq<nat>)
    requires Distinct(a) && Distinct(b) && forall x :: x in a ==> x !in b
    ensures Distinct(a + b)
  {
    forall i, j | 0 <= i < j < |a + b| ensures (a + b)[i] != (a + b)[j] {
      if i < |a| <= j { assert a[i] in a && b[j - |a|] in b; }
    }
  }

  /** The list after the two pointer updates that splice the children of m in behind it. */
  lemma MoveUpLinked(l1: map<nat, Links>, l2: map<nat, Links>, p: nat, m: nat, last: nat, done: seq<Tree>,
                     kids: seq<Tree>, rest: seq<Tree>)
    requires Distinct(Ids(done + ([Tree(m, kids)] + rest))) && p !in IdSet(done + ([Tree(m, kids)] + rest))
    requires kids != [] && last == kids[|kids| - 1].id && p in l1 && m in l1 && last in l1
    requires l1[m].parent == Some(p)
    requires Linked(l1, l1[p].list, Some(p), done, Some(m)) && Linked(l1, l1[m].next, Some(p), rest, None)
    requires Linked(l1[last := l1[last].(next := l1[m].next)], l1[m].list, Some(p), kids, l1[m].next)
    requires l2 == l1[last := l1[last].(next := l1[m].next)][m := l1[m].(next := l1[m].list, list := None)]
    ensures Linked(l2, l2[p].list, Some(p), done + [Tree(m, [])], l2[m].next)
    ensures Linked(l2, l2[m].next, Some(p), kids + rest, None)
  {
    MoveUpApart(done, m, kids, rest);
    RootIn(kids, |kids| - 1);
    var l := l1[last := l1[last].(next := l1[m].next)];
    assert last in IdSet(kids);
    forall x | x in Ids(done) || x in Ids(rest) ensures x != last && x != m {
      assert x in IdSet(done) || x in IdSet(rest);
    }
    LinkedFrame(l1, l2, l1[p].list, Some(p), done, Some(m));
    LinkedFrame(l1, l2, l1[m].next, Some(p), rest, None);
    LinkedFrame(l, l2, l1[m].list, Some(p), kids, l1[m].next);
    LinkedAppend(l2, l1[m].list, Some(p), kids, l1[m].next, rest, None);
    LinkedSnoc(l2, l1[p].list, Some(p), done, Tree(m, []));
  }

  lemma TakeNext(ts: seq<Tree>, i: nat)
    requires i < |ts|
    ensures ts[..i] + [ts[i]] == ts[..i + 1] && ts[i..][1..] == ts[i + 1..] && ts[i..][0] == ts[i]
    ensures ts[..i + 1] + ts[i + 1..] == ts
  {
  }

  lemma TakeAll(ts: seq<Tree>)
    ensures ts[..|ts|] == ts && ts[0..] == ts && ts[..0] + ts[0..] == ts
  {
  }

  /** The first entries of the trees of a forest. */
  function RootSet(ts: seq<Tree>): set<nat> {
    set i | 0 <= i < |ts| :: ts[i].id
  }

  lemma RootsIn(ts: seq<Tree>)
    ensures RootSet(ts) <= IdSet(ts)
  {
    forall i | 0 <= i < |ts| ensures ts[i].id in IdSet(ts) {
      RootIn(ts, i);
    }
  }

  lemma RootsSplit(a: seq<Tree>, b: seq<Tree>)
    requires Distinct(Ids(a + b)) && b != []
    ensures b[0].id !in RootSet(a) && b[0].id in RootSet(a + b)
    ensures RootSet(a + [b[0]]) == RootSet(a) + {b[0].id}
  {
    IdsAppend(a, b);
    DistinctParts(Ids(a), Ids(b));
    RootsIn(a);
    RootIn(b, 0);
    assert (a + b)[|a|] == b[0];
    var c := a + [b[0]];
    forall x ensures x in RootSet(c) <==> x in RootSet(a) + {b[0].id} {
      if x in RootSet(a) {
        var i :| 0 <= i < |a| && a[i].id == x;
        assert c[i].id == x;
      }
      assert c[|a|] == b[0];
    }
  }
}
