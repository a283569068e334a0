/** Menu entries linked by next, parent and list pointers, and the trees they form. */
module MenuLinks {
  import opened Options

  /** The pointers of one entry; entries are named by numbers. */
  datatype Links = Links(next: Option<nat>, parent: Option<nat>, list: Option<nat>)

  datatype Tree = Tree(id: nat, kids: seq<Tree>)

  /** The entries of a forest in the order in which they appear: an entry before its children before its siblings. */
  function Ids(ts: seq<Tree>): seq<nat> {
    if ts == [] then [] else [ts[0].id] + Ids(ts[0].kids) + Ids(ts[1..])
  }

  ghost predicate Distinct(ids: seq<nat>) {
    forall i, j :: 0 <= i < j < |ids| ==> ids[i] != ids[j]
  }

  /** The entries linked from `first` up to `end` are ts, with parent `par`, each with its own children below it. */
  ghost predicate Linked(m: map<nat, Links>, first: Option<nat>, par: Option<nat>, ts: seq<Tree>, end: Option<nat>)
    decreases ts
  {
    if ts == [] then first == end
    else
      var t := ts[0];
      && first == Some(t.id) && t.id in m && m[t.id].parent == par
      && Linked(m, m[t.id].list, Some(t.id), t.kids, None)
      && Linked(m, m[t.id].next, par, ts[1..], end)
  }

  lemma {:induction false} IdsAppend(a: seq<Tree>, b: seq<Tree>)
    ensures Ids(a + b) == Ids(a) + Ids(b)
  {
    if a == [] {
      assert a + b == b;
    } else {
      assert (a + b)[1..] == a[1..] + b;
      IdsAppend(a[1..], b);
    }
  }

  lemma DistinctParts(a: seq<nat>, b: seq<nat>)
    requires Distinct(a + b)
    ensures Distinct(a) && Distinct(b) && forall x :: x in a ==> x !in b
  {
    forall i, j | 0 <= i < j < |a| ensures a[i] != a[j] {
      assert (a + b)[i] == a[i] && (a + b)[j] == a[j];
    }
    forall i, j | 0 <= i < j < |b| ensures b[i] != b[j] {
      assert (a + b)[|a| + i] == b[i] && (a + b)[|a| + j] == b[j];
    }
    forall x | x in a ensures x !in b {
      var i :| 0 <= i < |a| && a[i] == x;
      forall j | 0 <= j < |b| ensures b[j] != x {
        assert (a + b)[i] == x && (a + b)[|a| + j] == b[j];
      }
    }
  }

  lemma DistinctThree(h: nat, k: seq<nat>, r: seq<nat>)
    requires Distinct([h] + k + r)
    ensures Distinct(k) && Distinct(r) && h !in k && h !in r && forall x :: x in k ==> x !in r
    ensures forall x :: x in [h] + k + r <==> x == h || x in k || x in r
  {
    var all := [h] + k + r;
    assert all == [h] + (k + r);
    DistinctParts([h], k + r);
    DistinctParts(k, r);
    assert h in [h];
    forall x ensures x in k + r <==> x in k || x in r {
    }
    assert forall x :: x in all <==> x in [h] || x in k + r;
  }

  /** In a forest of distinct entries the first one is apart from its children and both from the rest. */
  lemma DistinctFirst(ts: seq<Tree>)
    requires ts != [] && Distinct(Ids(ts))
    ensures var k, r := Ids(ts[0].kids), Ids(ts[1..]);
            && Distinct(k) && Distinct(r) && ts[0].id !in k && ts[0].id !in r && (forall x :: x in k ==> x !in r)
            && (forall x :: x in Ids(ts) <==> x == ts[0].id || x in k || x in r)
  {
    DistinctThree(ts[0].id, Ids(ts[0].kids), Ids(ts[1..]));
  }

  /** Linking looks at the entries of the forest only. */
  lemma {:induction false} LinkedFrame(m: map<nat, Links>, m': map<nat, Links>, first: Option<nat>, par: Option<nat>,
                                       ts: seq<Tree>, end: Option<nat>)
    requires Linked(m, first, par, ts, end)
    requires forall x :: x in Ids(ts) && x in m ==> x in m' && m'[x] == m[x]
    ensures Linked(m', first, par, ts, end)
    decreases ts
  {
    if ts != [] {
      var t := ts[0];
      assert t.id in Ids(ts);
      LinkedFrame(m, m', m[t.id].list, Some(t.id), t.kids, None);
      LinkedFrame(m, m', m[t.id].next, par, ts[1..], end);
    }
  }

  lemma {:induction false} LinkedAppend(m: map<nat, Links>, first: Option<nat>, par: Option<nat>, a: seq<Tree>,
                                        mid: Option<nat>, b: seq<Tree>, end: Option<nat>)
    requires Linked(m, first, par, a, mid) && Linked(m, mid, par, b, end)
    ensures Linked(m, first, par, a + b, end)
    decreases a
  {
    if a == [] {
      assert a + b == b;
    } else {
      assert (a + b)[1..] == a[1..] + b;
      LinkedAppend(m, m[a[0].id].next, par, a[1..], mid, b, end);
    }
  }

  /** A segment can be extended by the entry it ends at. */
  lemma LinkedSnoc(m: map<nat, Links>, first: Option<nat>, par: Option<nat>, a: seq<Tree>, t: Tree)
    requires Linked(m, first, par, a, Some(t.id)) && t.id in m && m[t.id].parent == par
    requires Linked(m, m[t.id].list, Some(t.id), t.kids, None)
    ensures Linked(m, first, par, a + [t], m[t.id].next)
  {
    assert [t][1..] == [];
    LinkedAppend(m, first, par, a, Some(t.id), [t], m[t.id].next);
  }

  lemma {:induction false} RootIn(a: seq<Tree>, i: nat)
    requires i < |a|
    ensures a[i].id in Ids(a)
  {
    if i > 0 {
      RootIn(a[1..], i - 1);
    }
  }

  lemma LastApart(a: seq<Tree>)
    requires |a| > 1 && Distinct(Ids(a))
    ensures var l := a[|a| - 1].id; l in Ids(a[1..]) && l != a[0].id && l !in Ids(a[0].kids)
    ensures Distinct(Ids(a[1..]))
  {
    DistinctFirst(a);
    RootIn(a[1..], |a| - 2);
  }

  lemma {:induction false} LinkedEnd(m: map<nat, Links>, first: Option<nat>, par: Option<nat>, a: seq<Tree>,
                                     end: Option<nat>)
    requires Linked(m, first, par, a, end) && a != []
    ensures var l := a[|a| - 1].id; l in m && m[l].next == end
    decreases a
  {
    if |a| == 1 {
      assert a[1..] == [];
    } else {
      assert a[1..][|a[1..]| - 1] == a[|a| - 1];
      LinkedEnd(m, m[a[0].id].next, par, a[1..], end);
    }
  }

  /** Redirecting the last entry's next pointer moves the end of the segment. */
  lemma {:induction false} LinkedSetEnd(m: map<nat, Links>, first: Option<nat>, par: Option<nat>, a: seq<Tree>,
                                        end: Option<nat>, end': Option<nat>)
    requires Linked(m, first, par, a, end) && a != [] && Distinct(Ids(a))
    ensures var l := a[|a| - 1].id; l in m && m[l].next == end
    ensures var l := a[|a| - 1].id; Linked(m[l := m[l].(next := end')], first, par, a, end')
    decreases a
  {
    var t, l := a[0], a[|a| - 1].id;
    if |a| == 1 {
      DistinctFirst(a);
      assert a[1..] == [];
    } else {
      LastApart(a);
      LinkedSetEnd(m, m[t.id].next, par, a[1..], end, end');
      assert a[1..][|a[1..]| - 1].id == l;
    }
    var m' := m[l := m[l].(next := end')];
    LinkedFrame(m, m', m[t.id].list, Some(t.id), t.kids, None);
    assert Linked(m', m'[t.id].next, par, a[1..], end');
  }

  // ---------- traversal ----------

  /** The entry is d levels below an entry without parent. */
  ghost predicate AtDepth(m: map<nat, Links>, x: nat, d: nat)
    decreases d
  {
    x in m && if d == 0 then m[x].parent == None else m[x].parent.Some? && AtDepth(m, m[x].parent.value, d - 1)
  }

  /** The nearest following sibling of the entry or of an entry above it. */
  function Climb(m: map<nat, Links>, x: nat, d: nat): Option<nat>
    requires AtDepth(m, x, d)
    decreases d
  {
    if m[x].next.Some? then m[x].next else if d == 0 then None else Climb(m, m[x].parent.value, d - 1)
  }

  function NextOf(m: map<nat, Links>, x: nat, d: nat): Option<nat>
    requires AtDepth(m, x, d)
  {
    if m[x].list.Some? then m[x].list else Climb(m, x, d)
  }

  /**
   * In a linked forest below the entry q, the next entry after the i-th is the (i+1)-st, and after the last one it is
   * whatever follows q.
   */
  lemma {:induction false} NextIsSuccessor(m: map<nat, Links>, first: Option<nat>, q: nat, ts: seq<Tree>, d: nat,
                                           i: nat)
    returns (e: nat)
    requires Linked(m, first, Some(q), ts, None) && AtDepth(m, q, d) && i < |Ids(ts)|
    ensures AtDepth(m, Ids(ts)[i], e)
    ensures NextOf(m, Ids(ts)[i], e) == if i + 1 < |Ids(ts)| then Some(Ids(ts)[i + 1]) else Climb(m, q, d)
    decreases ts
  {
    var t := ts[0];
    var k, r := Ids(t.kids), Ids(ts[1..]);
    assert AtDepth(m, t.id, d + 1);
    FirstId(m, m[t.id].list, Some(t.id), t.kids);
    FirstId(m, m[t.id].next, Some(q), ts[1..]);
    if i == 0 {
      e := d + 1;
    } else if i <= |k| {
      e := NextIsSuccessor(m, m[t.id].list, t.id, t.kids, d + 1, i - 1);
      assert Ids(ts)[i] == k[i - 1];
    } else {
      e := NextIsSuccessor(m, m[t.id].next, q, ts[1..], d, i - 1 - |k|);
      assert Ids(ts)[i] == r[i - 1 - |k|];
    }
  }

  lemma FirstId(m: map<nat, Links>, first: Option<nat>, par: Option<nat>, ts: seq<Tree>)
    requires Linked(m, first, par, ts, None)
    ensures first.Some? <==> ts != []
    ensures Ids(ts) != [] <==> ts != []
    ensures ts != [] ==> first == Some(Ids(ts)[0])
  {
  }
}
