/** Comparison functions, sorted ranges and rearrangements of a range. */
module Orders {
  import opened Elements

  type Compare = (Element, Element) -> int

  /** Exchanging the arguments turns the sign. */
  ghost predicate Opposite(c: Compare, x: Element, y: Element) {
    (c(x, y) < 0 <==> c(y, x) > 0) && (c(x, y) == 0 <==> c(y, x) == 0)
  }

  ghost predicate Transitive(c: Compare, x: Element, y: Element, z: Element) {
    c(x, y) <= 0 && c(y, z) <= 0 ==> c(x, z) <= 0
  }

  ghost predicate TotalPreorder(c: Compare) {
    && (forall x, y {:trigger Opposite(c, x, y)} :: Opposite(c, x, y))
    && (forall x, y, z {:trigger Transitive(c, x, y, z)} :: Transitive(c, x, y, z))
  }

  lemma Reflexive(c: Compare, x: Element)
    requires TotalPreorder(c)
    ensures c(x, x) == 0
  {
    assert Opposite(c, x, x);
  }

  /** The element i may stand in front of the element j. */
  ghost predicate InOrder(es: seq<Element>, c: Compare, i: nat, j: nat) {
    i < |es| && j < |es| && c(es[i], es[j]) <= 0
  }

  ghost predicate Sorted(es: seq<Element>, c: Compare, lo: nat, hi: nat) {
    forall i, j {:trigger InOrder(es, c, i, j)} :: lo <= i <= j < hi ==> InOrder(es, c, i, j)
  }

  /** es1 is es0 with the elements from lo to hi rearranged. */
  ghost predicate Permuted(es0: seq<Element>, es1: seq<Element>, lo: nat, hi: nat) {
    && lo <= hi <= |es0| && |es1| == |es0|
    && multiset(es1[lo..hi]) == multiset(es0[lo..hi])
    && forall k {:trigger es1[k]} :: 0 <= k < |es0| && !(lo <= k < hi) ==> es1[k] == es0[k]
  }

  lemma PermutedCompose(es0: seq<Element>, es1: seq<Element>, es2: seq<Element>, lo: nat, hi: nat)
    requires Permuted(es0, es1, lo, hi) && Permuted(es1, es2, lo, hi)
    ensures Permuted(es0, es2, lo, hi)
  {
  }

  lemma PermutedWiden(es0: seq<Element>, es1: seq<Element>, lo: nat, hi: nat, a: nat, b: nat)
    requires Permuted(es0, es1, lo, hi) && a <= lo && hi <= b <= |es0|
    ensures Permuted(es0, es1, a, b)
  {
    assert es0[a..b] == es0[a..lo] + es0[lo..hi] + es0[hi..b];
    assert es1[a..b] == es1[a..lo] + es1[lo..hi] + es1[hi..b];
    assert es0[a..lo] == es1[a..lo] && es0[hi..b] == es1[hi..b];
  }

  lemma SwappedPermuted(es: seq<Element>, i: nat, j: nat, lo: nat, hi: nat)
    requires lo <= i < hi <= |es| && lo <= j < hi
    ensures Permuted(es, Swapped(es, i, j), lo, hi)
  {
    var s, t := es[lo..hi], Swapped(es, i, j)[lo..hi];
    assert t == s[i - lo := s[j - lo]][j - lo := s[i - lo]];
  }

  lemma RotatedPermuted(es: seq<Element>, i: nat, j: nat, lo: nat, hi: nat)
    requires lo <= i <= j < hi <= |es|
    ensures Permuted(es, Rotated(es, i, j), lo, hi)
  {
    var r := Rotated(es, i, j);
    assert es[i..j + 1] == es[i..j] + [es[j]];
    assert r[i..j + 1] == [es[j]] + es[i..j];
    PermutedWiden(es, r, i, j + 1, lo, hi);
  }

  /** Every element of a rearranged range was in the range before. */
  lemma PermutedFrom(es0: seq<Element>, es1: seq<Element>, lo: nat, hi: nat, k: nat) returns (k0: nat)
    requires Permuted(es0, es1, lo, hi) && lo <= k < hi
    ensures lo <= k0 < hi && es0[k0] == es1[k]
  {
    assert es1[k] == es1[lo..hi][k - lo];
    assert es1[k] in multiset(es1[lo..hi]);
    var i :| 0 <= i < hi - lo && es0[lo..hi][i] == es1[k];
    k0 := lo + i;
  }

  /** i is where the element j belongs among the sorted elements from lo on in front of it. */
  ghost predicate IsPlace(es: seq<Element>, c: Compare, lo: nat, i: nat, j: nat) {
    && lo <= i <= j < |es|
    && (forall k :: i <= k < j ==> c(es[j], es[k]) < 0)
    && (i > lo ==> c(es[j], es[i - 1]) >= 0)
  }

  /** A step of insertion sort. */
  lemma InsertStep(es0: seq<Element>, es: seq<Element>, c: Compare, lo: nat, i: nat, j: nat, hi: nat)
    requires TotalPreorder(c) && j < hi && Permuted(es0, es, lo, hi) && Sorted(es, c, lo, j) && IsPlace(es, c, lo, i, j)
    ensures Permuted(es0, Rotated(es, i, j), lo, hi) && Sorted(Rotated(es, i, j), c, lo, j + 1)
    ensures i == j ==> Rotated(es, i, j) == es
  {
    InsertSorted(es, c, lo, i, j);
    RotatedPermuted(es, i, j, lo, hi);
    PermutedCompose(es0, es, Rotated(es, i, j), lo, hi);
  }

  /** Moving the next element to its place keeps the range in front of it sorted. */
  lemma InsertSorted(es: seq<Element>, c: Compare, lo: nat, i: nat, j: nat)
    requires TotalPreorder(c) && Sorted(es, c, lo, j) && IsPlace(es, c, lo, i, j)
    ensures Sorted(Rotated(es, i, j), c, lo, j + 1)
  {
    var r := Rotated(es, i, j);
    forall a, b | lo <= a <= b < j + 1 ensures InOrder(r, c, a, b) {
      var a0, b0 := RotatedFrom(es, i, j, a), RotatedFrom(es, i, j, b);
      if a0 == j && b0 == j {
        Reflexive(c, es[j]);
      } else if a0 == j {
        assert c(es[j], es[b0]) < 0;
      } else if b0 == j {
        assert InOrder(es, c, a0, i - 1) && Opposite(c, es[i - 1], es[j]) && Transitive(c, es[a0], es[i - 1], es[j]);
      } else {
        assert InOrder(es, c, a0, b0);
      }
    }
  }

  /** Where an element of a rotated sequence was before. */
  function RotatedFrom(es: seq<Element>, i: nat, j: nat, k: nat): (k0: nat)
    requires i <= j < |es| && k < |es|
    ensures k0 < |es| && Rotated(es, i, j)[k] == es[k0]
  {
    if k < i || k > j then k else if k == i then j else k - 1
  }

  // ---------- partitions ----------

  /** Nothing in front of mid is greater than the element at mid, and nothing behind it is less. */
  ghost predicate Partitioned(es: seq<Element>, c: Compare, lo: nat, mid: nat, hi: nat) {
    && lo <= mid < hi <= |es|
    && (forall k {:trigger InOrder(es, c, k, mid)} :: lo <= k < mid ==> InOrder(es, c, k, mid))
    && (forall k {:trigger InOrder(es, c, mid, k)} :: mid < k < hi ==> InOrder(es, c, mid, k))
  }

  /**
   * In the course of partitioning: nothing in front of bot is greater than the element at mid, and nothing behind top
   * is less.
   */
  ghost predicate Partitioning(es: seq<Element>, c: Compare, lo: nat, bot: nat, mid: nat, top: nat, hi: nat) {
    && lo <= bot <= mid <= top < hi <= |es|
    && (forall k {:trigger InOrder(es, c, k, mid)} :: lo <= k < bot ==> InOrder(es, c, k, mid))
    && (forall k {:trigger InOrder(es, c, mid, k)} :: top < k < hi ==> InOrder(es, c, mid, k))
  }

  /** The three exchanges of an element out of order; the element at mid moves in the second and third. */
  lemma ExchangeKeeps(es0: seq<Element>, es: seq<Element>, c: Compare, lo: nat, bot: nat, mid: nat, top: nat, hi: nat)
    requires TotalPreorder(c) && Partitioning(es, c, lo, bot, mid, top, hi) && Permuted(es0, es, lo, hi)
    requires (bot < mid ==> c(es[bot], es[mid]) > 0) && (mid < top ==> c(es[mid], es[top]) > 0)
    ensures bot < mid < top ==> Exchanged(es0, es, c, lo, bot, top, bot + 1, mid, top - 1, hi, es[mid])
    ensures bot == mid < top ==> Exchanged(es0, es, c, lo, bot, top, bot + 1, top, top, hi, es[mid])
    ensures bot < mid == top ==> Exchanged(es0, es, c, lo, bot, mid, bot, bot, top - 1, hi, es[mid])
  {
    assert Opposite(c, es[bot], es[mid]) && Opposite(c, es[mid], es[top]);
    forall k: nat | lo <= k < bot ensures c(es[k], es[mid]) <= 0 {
      assert InOrder(es, c, k, mid);
    }
    forall k: nat | top < k < hi ensures c(es[mid], es[k]) <= 0 {
      assert InOrder(es, c, mid, k);
    }
    ExchangePermuted(es0, es, bot, top, lo, hi);
  }

  /** After exchanging i and j the pivot p is at mid and everything is in order for going on. */
  ghost predicate Exchanged(es0: seq<Element>, es: seq<Element>, c: Compare, lo: nat, i: nat, j: nat,
                            bot: nat, mid: nat, top: nat, hi: nat, p: Element) {
    && i < |es| && j < |es|
    && Partitioning(Swapped(es, i, j), c, lo, bot, mid, top, hi)
    && Permuted(es0, Swapped(es, i, j), lo, hi) && Swapped(es, i, j)[mid] == p
  }

  lemma ExchangePermuted(es0: seq<Element>, es: seq<Element>, i: nat, j: nat, lo: nat, hi: nat)
    requires Permuted(es0, es, lo, hi) && lo <= i < hi && lo <= j < hi
    ensures Permuted(es0, Swapped(es, i, j), lo, hi)
  {
    SwappedPermuted(es, i, j, lo, hi);
    PermutedCompose(es0, es, Swapped(es, i, j), lo, hi);
  }

  /** The range from a to b is sorted except within the range from lo to hi. */
  ghost predicate SortedAround(es: seq<Element>, c: Compare, a: nat, lo: nat, hi: nat, b: nat) {
    && a <= lo <= hi <= b <= |es|
    && forall i, j {:trigger InOrder(es, c, i, j)} :: a <= i <= j < b && !(lo <= i && j < hi) ==> InOrder(es, c, i, j)
  }

  lemma AroundFinish(es: seq<Element>, c: Compare, a: nat, lo: nat, hi: nat, b: nat)
    requires SortedAround(es, c, a, lo, hi, b) && Sorted(es, c, lo, hi)
    ensures Sorted(es, c, a, b)
  {
  }

  /** Rearranging the unsorted range leaves the rest sorted around it. */
  lemma AroundPermuted(es0: seq<Element>, es1: seq<Element>, c: Compare, a: nat, lo: nat, hi: nat, b: nat)
    requires SortedAround(es0, c, a, lo, hi, b) && Permuted(es0, es1, lo, hi)
    ensures SortedAround(es1, c, a, lo, hi, b)
  {
    forall i, j | a <= i <= j < b && !(lo <= i && j < hi) ensures InOrder(es1, c, i, j) {
      if lo <= i < hi {
        var i0 := PermutedFrom(es0, es1, lo, hi, i);
        assert es1[j] == es0[j] && InOrder(es0, c, i0, j);
      } else if lo <= j < hi {
        var j0 := PermutedFrom(es0, es1, lo, hi, j);
        assert es1[i] == es0[i] && InOrder(es0, c, i, j0);
      } else {
        assert es1[i] == es0[i] && es1[j] == es0[j] && InOrder(es0, c, i, j);
      }
    }
  }

  /** So does rearranging one side of a partition. */
  lemma PartitionedPermuted(es0: seq<Element>, es1: seq<Element>, c: Compare, lo: nat, mid: nat, hi: nat, x: nat,
                            y: nat)
    requires Partitioned(es0, c, lo, mid, hi) && Permuted(es0, es1, x, y)
    requires (lo <= x && y <= mid) || (mid < x && y <= hi)
    ensures Partitioned(es1, c, lo, mid, hi)
  {
    forall k: nat | lo <= k < mid ensures InOrder(es1, c, k, mid) {
      var k0 := k;
      if x <= k < y { k0 := PermutedFrom(es0, es1, x, y, k); }
      assert InOrder(es0, c, k0, mid);
    }
    forall k: nat | mid < k < hi ensures InOrder(es1, c, mid, k) {
      var k0 := k;
      if x <= k < y { k0 := PermutedFrom(es0, es1, x, y, k); }
      assert InOrder(es0, c, mid, k0);
    }
  }

  /** Once the upper side of a partition is sorted, only the lower one remains. */
  lemma AroundLower(es: seq<Element>, c: Compare, a: nat, lo: nat, mid: nat, hi: nat, b: nat)
    requires TotalPreorder(c) && SortedAround(es, c, a, lo, hi, b) && Partitioned(es, c, lo, mid, hi)
    requires Sorted(es, c, mid + 1, hi)
    ensures SortedAround(es, c, a, lo, mid, b)
  {
    forall i, j | a <= i <= j < b && !(lo <= i && j < mid) ensures InOrder(es, c, i, j) {
      if lo <= i && j < hi { PartitionOrders(es, c, lo, mid, hi, i, j); }
    }
  }

  lemma AroundUpper(es: seq<Element>, c: Compare, a: nat, lo: nat, mid: nat, hi: nat, b: nat)
    requires TotalPreorder(c) && SortedAround(es, c, a, lo, hi, b) && Partitioned(es, c, lo, mid, hi)
    requires Sorted(es, c, lo, mid)
    ensures SortedAround(es, c, a, mid + 1, hi, b)
  {
    forall i, j | a <= i <= j < b && !(mid + 1 <= i && j < hi) ensures InOrder(es, c, i, j) {
      if lo <= i && j < hi { PartitionOrders(es, c, lo, mid, hi, i, j); }
    }
  }

  lemma PartitionOrders(es: seq<Element>, c: Compare, lo: nat, mid: nat, hi: nat, i: nat, j: nat)
    requires TotalPreorder(c) && Partitioned(es, c, lo, mid, hi) && lo <= i <= j < hi
    requires (j < mid && Sorted(es, c, lo, mid)) || (mid < i && Sorted(es, c, mid + 1, hi)) || i <= mid <= j
    ensures InOrder(es, c, i, j)
  {
    if i <= mid <= j {
      Reflexive(c, es[mid]);
      if i < mid && mid < j {
        assert InOrder(es, c, i, mid) && InOrder(es, c, mid, j) && Transitive(c, es[i], es[mid], es[j]);
      }
    }
  }

  /** p is one of the three elements and lies between the other two. */
  ghost predicate IsMedian(c: Compare, p: Element, x: Element, y: Element, z: Element) {
    (p == x && Between(c, p, y, z)) || (p == y && Between(c, p, x, z)) || (p == z && Between(c, p, x, y))
  }

  ghost predicate Between(c: Compare, p: Element, x: Element, y: Element) {
    (c(x, p) <= 0 && c(p, y) <= 0) || (c(y, p) <= 0 && c(p, x) <= 0)
  }

  lemma PermutedSame(es: seq<Element>, lo: nat, hi: nat)
    requires lo <= hi <= |es|
    ensures Permuted(es, es, lo, hi)
  {
  }

  /** At most one element is sorted. */
  lemma ShortSorted(es: seq<Element>, c: Compare, lo: nat, n: nat)
    requires TotalPreorder(c) && n <= 1 && lo + n <= |es|
    ensures Sorted(es, c, lo, lo + n) && Permuted(es, es, lo, lo + n)
  {
    if n == 1 { Reflexive(c, es[lo]); }
  }

  lemma PairSorted(es: seq<Element>, c: Compare, i: nat)
    requires TotalPreorder(c) && i + 1 < |es|
    ensures c(es[i + 1], es[i]) >= 0 ==> Sorted(es, c, i, i + 2)
    ensures c(es[i + 1], es[i]) < 0 ==> Sorted(Swapped(es, i + 1, i), c, i, i + 2)
    ensures Permuted(es, Swapped(es, i + 1, i), i, i + 2)
  {
    Reflexive(c, es[i]);
    Reflexive(c, es[i + 1]);
    assert Opposite(c, es[i], es[i + 1]);
    SwappedPermuted(es, i + 1, i, i, i + 2);
  }

  /** If the middle one of three elements is not less than one and greater than the other, the tests find the median. */
  lemma MedianCases(c: Compare, x: Element, y: Element, z: Element)
    requires TotalPreorder(c)
    ensures c(x, y) < 0 && c(y, z) > 0 ==> IsMedian(c, if c(x, z) < 0 then z else x, x, y, z)
    ensures c(x, y) > 0 && c(y, z) < 0 ==> IsMedian(c, if c(x, z) > 0 then z else x, x, y, z)
    ensures !(c(x, y) < 0 && c(y, z) > 0) && !(c(x, y) > 0 && c(y, z) < 0) ==> IsMedian(c, y, x, y, z)
  {
    assert Opposite(c, x, y) && Opposite(c, y, z) && Opposite(c, x, z);
  }

  /** The element at mid is now the median of the elements that were at bot, mid and top. */
  ghost predicate MedianAt(c: Compare, es0: seq<Element>, es1: seq<Element>, bot: nat, mid: nat, top: nat) {
    && |es1| == |es0| && bot < |es0| && mid < |es0| && top < |es0|
    && IsMedian(c, es1[mid], es0[bot], es0[mid], es0[top])
  }

  lemma MedianSwapped(c: Compare, es: seq<Element>, t1: nat, bot: nat, mid: nat, top: nat)
    requires bot < mid < top < |es| && bot <= t1 <= top
    requires IsMedian(c, es[t1], es[bot], es[mid], es[top])
    ensures MedianAt(c, es, Swapped(es, t1, mid), bot, mid, top) && Permuted(es, Swapped(es, t1, mid), bot, top + 1)
    ensures t1 == mid ==> Swapped(es, t1, mid) == es
  {
    SwappedPermuted(es, t1, mid, bot, top + 1);
    SwappedAt(es, t1, mid);
  }

  lemma SwappedAt(es: seq<Element>, i: nat, j: nat)
    requires i < |es| && j < |es|
    ensures |Swapped(es, i, j)| == |es| && Swapped(es, i, j)[j] == es[i] && (i == j ==> Swapped(es, i, j) == es)
  {
  }

  // ---------- what remains to be sorted ----------

  /** es is es0 with the range from a to b rearranged, and sorted except within the range from lo to hi. */
  ghost predicate Remaining(es0: seq<Element>, es: seq<Element>, c: Compare, a: nat, lo: nat, hi: nat, b: nat) {
    Permuted(es0, es, a, b) && SortedAround(es, c, a, lo, hi, b)
  }

  lemma RemainingPermuted(es0: seq<Element>, es: seq<Element>, es': seq<Element>, c: Compare, a: nat, lo: nat, hi: nat,
                          b: nat)
    requires Remaining(es0, es, c, a, lo, hi, b) && Permuted(es, es', lo, hi)
    ensures Remaining(es0, es', c, a, lo, hi, b)
  {
    AroundPermuted(es, es', c, a, lo, hi, b);
    PermutedWiden(es, es', lo, hi, a, b);
    PermutedCompose(es0, es, es', a, b);
  }

  lemma RemainingSorted(es0: seq<Element>, es: seq<Element>, es': seq<Element>, c: Compare, a: nat, lo: nat, hi: nat,
                        b: nat)
    requires Remaining(es0, es, c, a, lo, hi, b) && Permuted(es, es', lo, hi) && Sorted(es', c, lo, hi)
    ensures Permuted(es0, es', a, b) && Sorted(es', c, a, b)
  {
    RemainingPermuted(es0, es, es', c, a, lo, hi, b);
    AroundFinish(es', c, a, lo, hi, b);
  }

  lemma RemainingLower(es0: seq<Element>, es: seq<Element>, es': seq<Element>, c: Compare, a: nat, lo: nat, mid: nat,
                       hi: nat, b: nat)
    requires TotalPreorder(c) && Remaining(es0, es, c, a, lo, hi, b) && Partitioned(es, c, lo, mid, hi)
    requires Permuted(es, es', mid + 1, hi) && Sorted(es', c, mid + 1, hi)
    ensures Remaining(es0, es', c, a, lo, mid, b)
  {
    PartitionedPermuted(es, es', c, lo, mid, hi, mid + 1, hi);
    PermutedWiden(es, es', mid + 1, hi, lo, hi);
    RemainingPermuted(es0, es, es', c, a, lo, hi, b);
    AroundLower(es', c, a, lo, mid, hi, b);
  }

  lemma RemainingUpper(es0: seq<Element>, es: seq<Element>, es': seq<Element>, c: Compare, a: nat, lo: nat, mid: nat,
                       hi: nat, b: nat)
    requires TotalPreorder(c) && Remaining(es0, es, c, a, lo, hi, b) && Partitioned(es, c, lo, mid, hi)
    requires Permuted(es, es', lo, mid) && Sorted(es', c, lo, mid)
    ensures Remaining(es0, es', c, a, mid + 1, hi, b)
  {
    PartitionedPermuted(es, es', c, lo, mid, hi, lo, mid);
    PermutedWiden(es, es', lo, mid, lo, hi);
    RemainingPermuted(es0, es, es', c, a, lo, hi, b);
    AroundUpper(es', c, a, lo, mid, hi, b);
  }

  lemma RemainingSides(es0: seq<Element>, es: seq<Element>, es': seq<Element>, c: Compare, a: nat, lo: nat, mid: nat,
                       hi: nat, b: nat, x: nat, n: nat)
    requires TotalPreorder(c) && Remaining(es0, es, c, a, lo, hi, b) && Partitioned(es, c, lo, mid, hi)
    requires Permuted(es, es', x, x + n) && Sorted(es', c, x, x + n)
    ensures x == mid + 1 && n == hi - (mid + 1) ==> Remaining(es0, es', c, a, lo, mid, b)
    ensures x == lo && n == mid - lo ==> Remaining(es0, es', c, a, mid + 1, hi, b)
  {
    if x == mid + 1 && n == hi - (mid + 1) {
      assert x + n == hi;
      RemainingLower(es0, es, es', c, a, lo, mid, hi, b);
    }
    if x == lo && n == mid - lo {
      assert x + n == mid;
      RemainingUpper(es0, es, es', c, a, lo, mid, hi, b);
    }
  }
}
