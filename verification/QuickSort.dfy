/** The sorting routines on an array of bytes. */
module QuickSort {
  import opened Elements
  import opened Orders

  /** Smallest partition for which a median is looked for. */
  const MTHRESH: nat := 6
  /** Smallest partition that is partitioned further. */
  const THRESH: nat := 4

  /** The SWAP macro: exchanges two areas byte by byte; both pointers end behind their areas. */
  method SwapAreas(a: array<Byte>, p0: nat, q0: nat, size: nat) returns (p: nat, q: nat)
    requires size >= 1 && p0 + size <= a.Length && q0 + size <= a.Length
    requires p0 + size <= q0 || q0 + size <= p0
    modifies a
    ensures p == p0 + size && q == q0 + size
    ensures AreasSwapped(old(a[..]), a[..], p0, q0, size)
  {
    ghost var s := a[..];
    p, q := p0, q0;
    var cnt := size;
    while true
      invariant 1 <= cnt <= size && p == p0 + size - cnt && q == q0 + size - cnt
      invariant forall y :: p0 <= y < p ==> a[y] == s[y - p0 + q0]
      invariant forall y :: q0 <= y < q ==> a[y] == s[y - q0 + p0]
      invariant forall y :: 0 <= y < a.Length && !(p0 <= y < p || q0 <= y < q) ==> a[y] == old(a[y])
      decreases cnt
    {
      var ch := a[p];
      a[p] := a[q];
      p := p + 1;
      a[q] := ch;
      q := q + 1;
      cnt := cnt - 1;
      if cnt == 0 {
        break;
      }
    }
  }

  method StoreByte(a: array<Byte>, p: int, b: Byte)
    requires 0 <= p < a.Length
    modifies a
    ensures a[..] == old(a[..])[p := b]
  {
    a[p] := b;
  }

  /** Shifts one column of the bytes of the elements from i up to j - 1 to the next element, and that of j to i. */
  method RotateColumn(a: array<Byte>, l: Layout, t1: int, t2: int, ghost i: nat, ghost j: nat, ghost c: nat,
                      ghost s0: seq<Byte>)
    requires l.Fits(a.Length) && |s0| == a.Length && i <= j < l.count && c < l.size
    requires t1 == l.At(j, c) && t2 == l.Row(i)
    requires ColumnsRotated(s0, a[..], l, i, j, c) && SameAround(s0, a[..], l)
    modifies a
    ensures ColumnsRotated(s0, a[..], l, i, j, c + 1) && SameAround(s0, a[..], l)
  {
    ElemsAt(a[..], l, j, c);
    var ch := a[t1];
    var s1, s2 := t1, t1 - l.size;
    ghost var k := j;
    while s2 >= t2
      invariant i <= k <= j && s1 == l.At(k, c) && s2 == s1 - l.size
      invariant Shifted(s0, a[..], l, i, j, c, k) && SameAround(s0, a[..], l)
      decreases k
    {
      ColumnAbove(l, i, k, c);
      ghost var s := a[..];
      ShiftStep(s0, s, l, i, j, c, k);
      StoreByte(a, s1, a[s2]);
      s1 := s2;
      s2 := s2 - l.size;
      k := k - 1;
    }
    ColumnAbove(l, i, k, c);
    ghost var s := a[..];
    ShiftLast(s0, s, l, i, j, c, ch);
    StoreByte(a, s1, ch);
  }

  lemma ShiftStep(s0: seq<Byte>, s: seq<Byte>, l: Layout, i: nat, j: nat, c: nat, k: nat)
    requires l.Fits(|s0|) && |s| == |s0| && i < k <= j < l.count && c < l.size
    requires Shifted(s0, s, l, i, j, c, k) && SameAround(s0, s, l)
    ensures 0 <= l.At(k, c) < |s| && 0 <= l.At(k - 1, c) < |s|
    ensures var t := s[l.At(k, c) := s[l.At(k - 1, c)]];
            Shifted(s0, t, l, i, j, c, k - 1) && SameAround(s0, t, l)
  {
    ElemsAt(s, l, k, c);
    ElemsAt(s, l, k - 1, c);
    var b := s[l.At(k - 1, c)];
    var t := s[l.At(k, c) := b];
    StoreExact(s, t, l, k, c, b);
    assert Rotated(Elems(s0, l), i, j)[k] == Elems(s0, l)[k - 1];
  }

  lemma ShiftLast(s0: seq<Byte>, s: seq<Byte>, l: Layout, i: nat, j: nat, c: nat, ch: Byte)
    requires l.Fits(|s0|) && |s| == |s0| && i <= j < l.count && c < l.size
    requires Shifted(s0, s, l, i, j, c, i) && SameAround(s0, s, l) && ch == Elems(s0, l)[j][c]
    ensures 0 <= l.At(i, c) < |s|
    ensures var t := s[l.At(i, c) := ch];
            ColumnsRotated(s0, t, l, i, j, c + 1) && SameAround(s0, t, l)
  {
    ElemsAt(s, l, i, c);
    var t := s[l.At(i, c) := ch];
    StoreExact(s, t, l, i, c, ch);
    assert Rotated(Elems(s0, l), i, j)[i] == Elems(s0, l)[j];
    forall k | 0 <= k < l.count && !(i <= k <= j) ensures Rotated(Elems(s0, l), i, j)[k] == Elems(s0, l)[k] {
    }
  }

  /** One byte of one element has been overwritten. */
  lemma StoreExact(s: seq<Byte>, t: seq<Byte>, l: Layout, k: nat, c: nat, b: Byte)
    requires l.Fits(|s|) && k < l.count && c < l.size && 0 <= l.At(k, c) < |s| && t == s[l.At(k, c) := b]
    ensures SameAround(s, t, l) && Elems(t, l)[k][c] == b
    ensures forall k', x :: 0 <= k' < l.count && 0 <= x < l.size && !(k' == k && x == c) ==>
              Elems(t, l)[k'][x] == Elems(s, l)[k'][x]
  {
    AtRange(l, k);
    ElemsAt(t, l, k, c);
    forall k', x | 0 <= k' < l.count && 0 <= x < l.size && !(k' == k && x == c)
      ensures Elems(t, l)[k'][x] == Elems(s, l)[k'][x]
    {
      ElemsAt(s, l, k', x);
      ElemsAt(t, l, k', x);
      if l.At(k', x) == l.At(k, c) { AtInjective(l, k', x, k, c); }
    }
  }

  /** Stepping down a column stays at or above the start of element i exactly while there is one more element. */
  lemma ColumnAbove(l: Layout, i: nat, k: nat, c: nat)
    requires i <= k && c < l.size
    ensures l.At(k, c) - l.size >= l.Row(i) <==> k > i
    ensures k > i ==> l.At(k, c) - l.size == l.At(k - 1, c)
  {
    if k > i && k - 1 > i { RowApart(l, i, k - 1); }
  }

  /** In column c the elements above k have been shifted; the columns below c are rotated. */
  ghost predicate Shifted(s: seq<Byte>, t: seq<Byte>, l: Layout, i: nat, j: nat, c: nat, k: nat)
    requires l.Fits(|s|) && l.Fits(|t|) && i <= k <= j < l.count && c < l.size
  {
    forall k', x :: 0 <= k' < l.count && 0 <= x < l.size ==>
      Elems(t, l)[k'][x] ==
      if x < c || (x == c && k < k' <= j) then Rotated(Elems(s, l), i, j)[k'][x] else Elems(s, l)[k'][x]
  }

  /** An array of bytes holding elements, and the comparison to sort them by. Elements are named by their number. */
  class Sorter {
    const a: array<Byte>
    const l: Layout
    const compar: Compare

    constructor (a: array<Byte>, l: Layout, compar: Compare)
      requires l.Fits(a.Length) && TotalPreorder(compar)
      ensures Valid() && this.a == a && this.l == l && this.compar == compar
    {
      this.a, this.l, this.compar := a, l, compar;
    }

    ghost predicate Valid() {
      l.Fits(a.Length) && TotalPreorder(compar)
    }

    ghost function Now(): (es: seq<Element>)
      requires Valid()
      reads a
      ensures |es| == l.count
    {
      Elems(a[..], l)
    }

    /** The bytes around the elements are what they were. */
    twostate predicate AroundUnchanged()
      reads a
    {
      SameAround(old(a[..]), a[..], l)
    }

    /** The comparison of the elements i and j. */
    function CompareAt(i: nat, j: nat): (n: int)
      requires Valid() && i < l.count && j < l.count
      reads a
      ensures n == compar(Now()[i], Now()[j])
    {
      PrefixAt(a[..], l, l.count, i);
      PrefixAt(a[..], l, l.count, j);
      compar(ElementAt(a[..], l, i), ElementAt(a[..], l, j))
    }

    /** Exchanges two elements; both pointers move on to the next element. */
    method Swap(i: nat, j: nat) returns (i': nat, j': nat)
      requires Valid() && i < l.count && j < l.count && i != j
      modifies a
      ensures Now() == Swapped(old(Now()), i, j) && AroundUnchanged()
      ensures i' == i + 1 && j' == j + 1
    {
      AreasApart(l, i, j);
      ghost var s := a[..];
      var p, q := SwapAreas(a, l.Row(i), l.Row(j), l.size);
      SwapExact(s, a[..], l, i, j);
      i', j' := i + 1, j + 1;
    }

    /** Moves the element j in front of the element i, column of bytes by column. */
    method BubbleUp(i: nat, j: nat)
      requires Valid() && i <= j < l.count
      modifies a
      ensures Now() == Rotated(old(Now()), i, j) && AroundUnchanged()
    {
      var t1, t2 := l.Row(j), l.Row(i);
      var cnt := l.size;
      ghost var s := a[..];
      while cnt > 0
        invariant 0 <= cnt <= l.size && t1 == l.At(j, l.size - cnt)
        invariant ColumnsRotated(s, a[..], l, i, j, l.size - cnt) && SameAround(s, a[..], l)
      {
        RotateColumn(a, l, t1, t2, i, j, l.size - cnt, s);
        cnt := cnt - 1;
        t1 := t1 + 1;
      }
      RotateExact(s, a[..], l, i, j);
    }

    /** The place of the element t1 among the sorted elements from bot on in front of it. */
    method FindPlace(bot: nat, t1: nat) returns (t2: int)
      requires Valid() && bot <= t1 < l.count
      ensures bot <= t2 <= t1 && IsPlace(Now(), compar, bot, t2, t1)
    {
      t2 := t1 - 1;
      while t2 >= bot && CompareAt(t1, t2) < 0
        invariant bot - 1 <= t2 < t1
        invariant forall k :: t2 < k < t1 ==> compar(Now()[t1], Now()[k]) < 0
      {
        t2 := t2 - 1;
      }
      t2 := t2 + 1;
    }

    method InsertionSort(bot: nat, nmemb: nat)
      requires Valid() && bot + nmemb <= l.count
      modifies a
      ensures Permuted(old(Now()), Now(), bot, bot + nmemb) && Sorted(Now(), compar, bot, bot + nmemb)
      ensures AroundUnchanged()
    {
      var top := bot + nmemb;
      var t1 := bot + 1;
      if nmemb > 0 { Reflexive(compar, Now()[bot]); }
      while t1 < top
        invariant nmemb > 0 ==> t1 <= top && Sorted(Now(), compar, bot, t1)
        invariant Permuted(old(Now()), Now(), bot, top)
        invariant AroundUnchanged()
      {
        var t2 := FindPlace(bot, t1);
        InsertStep(old(Now()), Now(), compar, bot, t2, t1, top);
        if t1 != t2 {
          BubbleUp(t2, t1);
        }
        t1 := t1 + 1;
      }
    }

    /** The median of three elements. */
    method Median(bot: nat, mid: nat, top: nat) returns (t1: nat)
      requires Valid() && bot < mid < top < l.count
      ensures t1 == bot || t1 == mid || t1 == top
      ensures IsMedian(compar, Now()[t1], Now()[bot], Now()[mid], Now()[top])
    {
      var n1, n2 := CompareAt(bot, mid), CompareAt(mid, top);
      MedianCases(compar, Now()[bot], Now()[mid], Now()[top]);
      if n1 < 0 && n2 > 0 {
        t1 := if CompareAt(bot, top) < 0 then top else bot;
      } else if n1 > 0 && n2 < 0 {
        t1 := if CompareAt(bot, top) > 0 then top else bot;
      } else {
        t1 := mid;
      }
    }

    /** Brings the median of the first, middle and last element to the middle, unless the partition is small. */
    method SelectPivot(bot: nat, nmemb: nat) returns (mid: nat)
      requires Valid() && 1 <= nmemb && bot + nmemb <= l.count
      modifies a
      ensures mid == bot + nmemb / 2 && bot <= mid < bot + nmemb
      ensures Permuted(old(Now()), Now(), bot, bot + nmemb) && AroundUnchanged()
      ensures nmemb >= MTHRESH ==> MedianAt(compar, old(Now()), Now(), bot, mid, bot + nmemb - 1)
    {
      mid := bot + nmemb / 2;
      var top := bot + nmemb - 1;
      if nmemb >= MTHRESH {
        var t1 := Median(bot, mid, top);
        MedianSwapped(compar, Now(), t1, bot, mid, top);
        if t1 != mid {
          t1, mid := Swap(t1, mid);
          mid := mid - 1;
        }
      }
    }

    /** Moves bot up over elements that need not be exchanged. */
    method ScanLower(bot0: nat, mid: nat) returns (bot: nat)
      requires Valid() && bot0 <= mid < l.count
      ensures bot0 <= bot <= mid && (bot < mid ==> compar(Now()[bot], Now()[mid]) > 0)
      ensures forall k {:trigger InOrder(Now(), compar, k, mid)} :: bot0 <= k < bot ==> InOrder(Now(), compar, k, mid)
    {
      bot := bot0;
      while bot < mid && CompareAt(bot, mid) <= 0
        invariant bot0 <= bot <= mid
        invariant forall k :: bot0 <= k < bot ==> compar(Now()[k], Now()[mid]) <= 0
      {
        bot := bot + 1;
      }
    }

    /** Moves top down over elements that need not be exchanged. */
    method ScanUpper(mid: nat, top0: nat) returns (top: nat)
      requires Valid() && mid <= top0 < l.count
      ensures mid <= top <= top0 && (mid < top ==> compar(Now()[mid], Now()[top]) > 0)
      ensures forall k {:trigger InOrder(Now(), compar, mid, k)} :: top < k <= top0 ==> InOrder(Now(), compar, mid, k)
    {
      top := top0;
      while top > mid && CompareAt(mid, top) <= 0
        invariant mid <= top <= top0
        invariant forall k :: top < k <= top0 ==> compar(Now()[mid], Now()[k]) <= 0
      {
        top := top - 1;
      }
    }

    /**
     * Partitions by the element at mid0. The place of that element changes in the course of it. If nothing had to be
     * exchanged, nothing has changed.
     */
    method Partition(bsv: nat, nmemb: nat, mid0: nat) returns (mid: nat, didswap: bool)
      requires Valid() && bsv <= mid0 < bsv + nmemb <= l.count
      modifies a
      ensures Permuted(old(Now()), Now(), bsv, bsv + nmemb) && Partitioned(Now(), compar, bsv, mid, bsv + nmemb)
      ensures Now()[mid] == old(Now())[mid0] && AroundUnchanged()
      ensures !didswap ==> mid == mid0 && Now() == old(Now())
    {
      var bot, top := bsv, bsv + nmemb - 1;
      ghost var end := bsv + nmemb;
      mid, didswap := mid0, false;
      while true
        invariant bsv <= bot <= mid <= top < end && Partitioning(Now(), compar, bsv, bot, mid, top, end)
        invariant Permuted(old(Now()), Now(), bsv, end) && Now()[mid] == old(Now())[mid0] && AroundUnchanged()
        invariant !didswap ==> mid == mid0 && Now() == old(Now())
        decreases top - bot
      {
        bot := ScanLower(bot, mid);
        top := ScanUpper(mid, top);
        if top <= mid && bot == mid {
          break;
        }
        ExchangeKeeps(old(Now()), Now(), compar, bsv, bot, mid, top, end);
        var newbot, replace;
        if top > mid {
          newbot := bot + 1;
          if bot == mid {
            mid := top;
            replace := top;
          } else {
            replace := top;
            top := top - 1;
          }
        } else {
          replace := mid;
          mid := bot;
          newbot := bot;
          top := top - 1;
        }
        bot, replace := Swap(bot, replace);
        bot := newbot;
        didswap := true;
      }
    }

    /** Puts two neighbours in order; the pointer moves on to the second if they are exchanged. */
    method SortPair(bot: nat) returns (bot': nat)
      requires Valid() && bot + 2 <= l.count
      modifies a
      ensures Permuted(old(Now()), Now(), bot, bot + 2) && Sorted(Now(), compar, bot, bot + 2) && AroundUnchanged()
    {
      ghost var es := Now();
      bot' := bot;
      var t1 := bot + 1;
      PairSorted(es, compar, bot);
      if CompareAt(t1, bot) < 0 {
        t1, bot' := Swap(t1, bot);
      } else {
        PermutedSame(es, bot, bot + 2);
      }
    }

    /** The SORT macro, for at most a few elements; the pointer may have moved on when it is done. */
    method SortSmall(bot: nat, n: nat) returns (bot': nat)
      requires Valid() && bot + n <= l.count
      modifies a
      ensures Permuted(old(Now()), Now(), bot, bot + n) && Sorted(Now(), compar, bot, bot + n) && AroundUnchanged()
    {
      bot' := bot;
      if n > 1 {
        if n == 2 {
          bot' := SortPair(bot);
        } else {
          InsertionSort(bot, n);
        }
      } else {
        ShortSorted(Now(), compar, bot, n);
      }
    }

    /** Chooses a pivot and partitions the range by it. */
    method PartitionRange(bot: nat, nmemb: nat) returns (mid: nat, didswap: bool)
      requires Valid() && 1 <= nmemb && bot + nmemb <= l.count
      modifies a
      ensures Permuted(old(Now()), Now(), bot, bot + nmemb) && AroundUnchanged()
      ensures Partitioned(Now(), compar, bot, mid, bot + nmemb)
    {
      ghost var es0 := Now();
      mid := SelectPivot(bot, nmemb);
      ghost var es1 := Now();
      mid, didswap := Partition(bot, nmemb, mid);
      PermutedCompose(es0, es1, Now(), bot, bot + nmemb);
    }

    /** Sorts the last, small part of a range, which finishes the whole range from a0 to end. */
    method SortRest(ghost es0: seq<Element>, ghost a0: nat, ghost end: nat, bot: nat, n: nat)
      requires Valid() && end <= l.count && Remaining(es0, Now(), compar, a0, bot, bot + n, end)
      modifies a
      ensures Permuted(es0, Now(), a0, end) && Sorted(Now(), compar, a0, end) && AroundUnchanged()
    {
      ghost var es := Now();
      var bot' := SortSmall(bot, n);
      RemainingSorted(es0, es, Now(), compar, a0, bot, bot + n, end);
    }

    /** Partitions the unsorted part of a range, or finishes the range if there is nothing to exchange in it. */
    method PartitionStep(ghost es0: seq<Element>, ghost a0: nat, ghost end: nat, bot: nat, nmemb: nat)
      returns (mid: nat, didswap: bool)
      requires Valid() && 1 <= nmemb && end <= l.count && Remaining(es0, Now(), compar, a0, bot, bot + nmemb, end)
      modifies a
      ensures !didswap ==> Permuted(es0, Now(), a0, end) && Sorted(Now(), compar, a0, end)
      ensures didswap ==>
                Remaining(es0, Now(), compar, a0, bot, bot + nmemb, end)
                && Partitioned(Now(), compar, bot, mid, bot + nmemb)
      ensures AroundUnchanged()
    {
      ghost var es := Now();
      mid, didswap := PartitionRange(bot, nmemb);
      RemainingPermuted(es0, es, Now(), compar, a0, bot, bot + nmemb, end);
      if !didswap {
        es := Now();
        InsertionSort(bot, nmemb);
        RemainingSorted(es0, es, Now(), compar, a0, bot, bot + nmemb, end);
      }
    }

    /**
     * Sorts the n elements from bot on, which are the upper or the lower side of a partition at mid of the unsorted
     * range from lo to hi: small ones by SORT and others recursively. The ghost arguments a0 and end bound the range
     * being sorted by the caller. The pointer returned is bot, moved on if SORT moved it; the depth returned counts the
     * recursive call.
     */
    method SortSide(ghost es0: seq<Element>, ghost a0: nat, ghost lo: nat, ghost mid: nat, ghost hi: nat,
                    ghost end: nat, bot: nat, n: nat) returns (bot': nat, ghost depth: nat)
      requires Valid() && end <= l.count && Partitioned(Now(), compar, lo, mid, hi) && 2 * n < hi - lo
      requires Remaining(es0, Now(), compar, a0, lo, hi, end)
      requires (bot == mid + 1 && n == hi - (mid + 1)) || (bot == lo && n == mid - lo)
      modifies a
      ensures bot == mid + 1 && n == hi - (mid + 1) ==> Remaining(es0, Now(), compar, a0, lo, mid, end)
      ensures bot == lo && n == mid - lo ==> Remaining(es0, Now(), compar, a0, mid + 1, hi, end)
      ensures AroundUnchanged() && Pow2(depth) <= hi - lo
      decreases hi - lo, 0
    {
      ghost var es := Now();
      bot', depth := bot, 0;
      if n >= THRESH {
        depth := Quick(bot, n);
        depth := depth + 1;
      } else {
        bot' := SortSmall(bot, n);
      }
      RemainingSides(es0, es, Now(), compar, a0, lo, mid, hi, end, bot, n);
    }

    /**
     * The loop of a range's sort: partitions the nmemb elements from bot on, sorts the smaller side recursively, and
     * goes on with the larger side unless both are small.
     */
    method Round(ghost es0: seq<Element>, ghost a0: nat, ghost end: nat, bot: nat, nmemb: nat)
      returns (done: bool, bot': nat, nmemb': nat, ghost depth: nat)
      requires Valid() && 1 <= nmemb && end <= l.count && Remaining(es0, Now(), compar, a0, bot, bot + nmemb, end)
      modifies a
      ensures done ==> Permuted(es0, Now(), a0, end) && Sorted(Now(), compar, a0, end)
      ensures !done ==> 1 <= nmemb' < nmemb && Remaining(es0, Now(), compar, a0, bot', bot' + nmemb', end)
      ensures nmemb' <= nmemb && AroundUnchanged() && Pow2(depth) <= nmemb
      decreases nmemb, 1
    {
      done, bot', nmemb', depth := true, bot, nmemb, 0;
      var mid, didswap := PartitionStep(es0, a0, end, bot, nmemb);
      if didswap {
        var nlower := mid - bot;
        var nupper := nmemb - nlower - 1;
        ghost var hi, m := bot + nmemb, mid;
        mid := mid + 1;
        if nlower > nupper {
          mid, depth := SortSide(es0, a0, bot, m, hi, end, mid, nupper);
          done, nmemb' := nupper < THRESH && nlower < THRESH, nlower;
        } else {
          bot', depth := SortSide(es0, a0, bot, m, hi, end, bot, nlower);
          done, bot', nmemb' := nlower < THRESH && nupper < THRESH, mid, nupper;
        }
        if done {
          SortRest(es0, a0, end, bot', nmemb');
        }
      }
    }

    /**
     * Sorts a range, recursively its smaller side and then its larger side in the same loop. The depth of the
     * recursion is at most the logarithm of the number of elements.
     */
    method Quick(bot0: nat, nmemb0: nat) returns (ghost depth: nat)
      requires Valid() && 1 <= nmemb0 && bot0 + nmemb0 <= l.count
      modifies a
      ensures Permuted(old(Now()), Now(), bot0, bot0 + nmemb0) && Sorted(Now(), compar, bot0, bot0 + nmemb0)
      ensures AroundUnchanged() && Pow2(depth) <= nmemb0
      decreases nmemb0, 2
    {
      ghost var es0, end := Now(), bot0 + nmemb0;
      var done, bot: nat, nmemb: nat := false, bot0, nmemb0;
      depth := 0;
      while !done
        invariant nmemb <= nmemb0 && Pow2(depth) <= nmemb0 && AroundUnchanged()
        invariant !done ==> 1 <= nmemb && Remaining(es0, Now(), compar, bot0, bot, bot + nmemb, end)
        invariant done ==> Permuted(es0, Now(), bot0, end) && Sorted(Now(), compar, bot0, end)
        decreases !done, nmemb
      {
        ghost var d;
        done, bot, nmemb, d := Round(es0, bot0, end, bot, nmemb);
        depth := if d > depth then d else depth;
      }
    }

    /** Sorts all elements: the result is a sorted rearrangement, and no byte around the elements changes. */
    method Sort()
      requires Valid()
      modifies a
      ensures multiset(Now()) == multiset(old(Now())) && Sorted(Now(), compar, 0, l.count) && AroundUnchanged()
    {
      var nmemb := l.count;
      assert Now()[0..nmemb] == Now();
      if nmemb <= 1 {
        if nmemb == 1 { Reflexive(compar, Now()[0]); }
        return;
      }
      if nmemb >= THRESH {
        ghost var depth := Quick(0, nmemb);
      } else {
        InsertionSort(0, nmemb);
      }
      assert Now()[0..nmemb] == Now();
    }
  }

  /** Sorts the elements laid out in an array of bytes by any total preorder. */
  method Qsort(a: array<Byte>, l: Layout, compar: Compare)
    requires l.Fits(a.Length) && TotalPreorder(compar)
    modifies a
    ensures multiset(Elems(a[..], l)) == multiset(old(Elems(a[..], l)))
    ensures forall i, j :: 0 <= i < j < l.count ==> compar(Elems(a[..], l)[i], Elems(a[..], l)[j]) <= 0
    ensures SameAround(old(a[..]), a[..], l)
  {
    var sorter := new Sorter(a, l, compar);
    sorter.Sort();
    forall i, j | 0 <= i < j < l.count ensures compar(Elems(a[..], l)[i], Elems(a[..], l)[j]) <= 0 {
      assert InOrder(Elems(a[..], l), compar, i, j);
    }
  }

  function Pow2(n: nat): nat {
    if n == 0 then 1 else 2 * Pow2(n - 1)
  }
}
