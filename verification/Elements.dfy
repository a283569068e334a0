/** Elements of a fixed size stored one after another among bytes, and what moving bytes does to them. */
module Elements {
  type Byte = x: int | 0 <= x < 256
  type Element = seq<Byte>

  /** `count` elements of `size` bytes each, the first of them at byte `base`. */
  datatype Layout = Layout(base: nat, size: nat, count: nat) {
    /** The address of element k, or of the end if k is the number of elements. */
    function Row(k: nat): nat {
      if k == 0 then base else Row(k - 1) + size
    }

    /** The elements lie within n bytes. */
    ghost predicate Fits(n: nat) {
      size >= 1 && Row(count) <= n
    }

    /** The address of byte x of element k. */
    function At(k: nat, x: int): int {
      Row(k) + x
    }
  }

  lemma {:induction false} RowExact(l: Layout, k: nat)
    ensures l.Row(k) == l.base + k * l.size
  {
    if k > 0 {
      RowExact(l, k - 1);
      assert k * l.size == (k - 1) * l.size + l.size;
    }
  }

  /** Different elements do not overlap. */
  lemma {:induction false} RowApart(l: Layout, i: nat, j: nat)
    requires i < j
    ensures l.Row(i) + l.size <= l.Row(j)
    decreases j
  {
    if i < j - 1 { RowApart(l, i, j - 1); }
  }

  lemma {:induction false} RowFrom(l: Layout, k: nat)
    ensures l.base <= l.Row(k)
  {
    if k > 0 { RowFrom(l, k - 1); }
  }

  lemma AtRange(l: Layout, k: nat)
    requires l.size >= 1 && k < l.count
    ensures l.base <= l.Row(k) && l.Row(k) + l.size <= l.Row(l.count)
  {
    RowFrom(l, k);
    RowApart(l, k, l.count);
  }

  /** Two addresses within elements are the same only for the same byte of the same element. */
  lemma AtInjective(l: Layout, i: nat, x: int, j: nat, y: int)
    requires 0 <= x < l.size && 0 <= y < l.size && l.At(i, x) == l.At(j, y)
    ensures i == j && x == y
  {
    if i < j { RowApart(l, i, j); } else if j < i { RowApart(l, j, i); }
  }

  function ElementAt(s: seq<Byte>, l: Layout, k: nat): (e: Element)
    requires l.Fits(|s|) && k < l.count
    ensures |e| == l.size
  {
    AtRange(l, k);
    seq(l.size, x requires 0 <= x < l.size => s[l.Row(k) + x])
  }

  /** The first n elements stored in the bytes s. */
  function Prefix(s: seq<Byte>, l: Layout, n: nat): (es: seq<Element>)
    requires l.Fits(|s|) && n <= l.count
    ensures |es| == n && forall k :: 0 <= k < n ==> |es[k]| == l.size
  {
    if n == 0 then [] else Prefix(s, l, n - 1) + [ElementAt(s, l, n - 1)]
  }

  /** The elements stored in the bytes s. */
  function Elems(s: seq<Byte>, l: Layout): (es: seq<Element>)
    requires l.Fits(|s|)
    ensures |es| == l.count && forall k :: 0 <= k < l.count ==> |es[k]| == l.size
  {
    Prefix(s, l, l.count)
  }

  lemma {:induction false} PrefixAt(s: seq<Byte>, l: Layout, n: nat, k: nat)
    requires l.Fits(|s|) && k < n <= l.count
    ensures Prefix(s, l, n)[k] == ElementAt(s, l, k)
  {
    if k < n - 1 { PrefixAt(s, l, n - 1, k); }
  }

  lemma ElemsAt(s: seq<Byte>, l: Layout, k: nat, x: nat)
    requires l.Fits(|s|) && k < l.count && x < l.size
    ensures 0 <= l.At(k, x) < |s| && |Elems(s, l)[k]| == l.size && Elems(s, l)[k][x] == s[l.At(k, x)]
  {
    AtRange(l, k);
    PrefixAt(s, l, l.count, k);
  }

  /** Bytes that belong to no element are the same in both. */
  ghost predicate SameAround(s: seq<Byte>, t: seq<Byte>, l: Layout) {
    |s| == |t| && forall y :: 0 <= y < |s| && !(l.base <= y < l.Row(l.count)) ==> t[y] == s[y]
  }

  function Swapped<T>(es: seq<T>, i: nat, j: nat): seq<T>
    requires i < |es| && j < |es|
  {
    es[i := es[j]][j := es[i]]
  }

  /** The element j moved in front of element i. */
  function Rotated<T>(es: seq<T>, i: nat, j: nat): seq<T>
    requires i <= j < |es|
  {
    es[..i] + [es[j]] + es[i..j] + es[j + 1..]
  }

  /** The bytes t are s with the areas of n bytes at p and q exchanged. */
  ghost predicate AreasSwapped(s: seq<Byte>, t: seq<Byte>, p: nat, q: nat, n: nat) {
    && |s| == |t| && p + n <= |s| && q + n <= |s|
    && (forall y {:trigger t[y]} :: p <= y < p + n ==> t[y] == s[y - p + q])
    && (forall y {:trigger t[y]} :: q <= y < q + n ==> t[y] == s[y - q + p])
    && forall y {:trigger t[y]} :: 0 <= y < |s| && !(p <= y < p + n || q <= y < q + n) ==> t[y] == s[y]
  }

  lemma AreasApart(l: Layout, i: nat, j: nat)
    requires l.size >= 1 && i < l.count && j < l.count && i != j
    ensures l.Row(i) + l.size <= l.Row(j) || l.Row(j) + l.size <= l.Row(i)
    ensures l.Row(i) + l.size <= l.Row(l.count) && l.Row(j) + l.size <= l.Row(l.count)
  {
    AtRange(l, i);
    AtRange(l, j);
    if i < j { RowApart(l, i, j); } else { RowApart(l, j, i); }
  }

  lemma ElementMoved(s: seq<Byte>, t: seq<Byte>, l: Layout, i: nat, j: nat)
    requires |s| == |t| && l.Fits(|s|) && i < l.count && j < l.count
    requires l.Row(i) + l.size <= |s| && l.Row(j) + l.size <= |s|
    requires forall y {:trigger t[y]} :: l.Row(i) <= y < l.Row(i) + l.size ==> t[y] == s[y - l.Row(i) + l.Row(j)]
    ensures ElementAt(t, l, i) == ElementAt(s, l, j)
  {
  }

  lemma ElementKept(s: seq<Byte>, t: seq<Byte>, l: Layout, i: nat, j: nat, k: nat)
    requires l.Fits(|s|) && i < l.count && j < l.count && k < l.count && k != i && k != j
    requires AreasSwapped(s, t, l.Row(i), l.Row(j), l.size)
    ensures ElementAt(t, l, k) == ElementAt(s, l, k)
  {
    AreasApart(l, k, i);
    AreasApart(l, k, j);
  }

  lemma SwapElement(s: seq<Byte>, t: seq<Byte>, l: Layout, i: nat, j: nat)
    requires l.Fits(|s|) && i < l.count && j < l.count && i != j
    requires AreasSwapped(s, t, l.Row(i), l.Row(j), l.size)
    ensures Elems(t, l)[i] == Elems(s, l)[j]
  {
    PrefixAt(s, l, l.count, j);
    PrefixAt(t, l, l.count, i);
    ElementMoved(s, t, l, i, j);
  }

  lemma SwapOther(s: seq<Byte>, t: seq<Byte>, l: Layout, i: nat, j: nat, k: nat)
    requires l.Fits(|s|) && i < l.count && j < l.count && k < l.count && k != i && k != j
    requires AreasSwapped(s, t, l.Row(i), l.Row(j), l.size)
    ensures Elems(t, l)[k] == Elems(s, l)[k]
  {
    PrefixAt(s, l, l.count, k);
    PrefixAt(t, l, l.count, k);
    ElementKept(s, t, l, i, j, k);
  }

  lemma SwapAround(s: seq<Byte>, t: seq<Byte>, l: Layout, i: nat, j: nat)
    requires l.Fits(|s|) && i < l.count && j < l.count && AreasSwapped(s, t, l.Row(i), l.Row(j), l.size)
    ensures SameAround(s, t, l)
  {
    AtRange(l, i);
    AtRange(l, j);
  }

  /** Exchanging two areas byte by byte exchanges two elements and nothing around the elements. */
  lemma SwapExact(s: seq<Byte>, t: seq<Byte>, l: Layout, i: nat, j: nat)
    requires l.Fits(|s|) && i < l.count && j < l.count && i != j
    requires AreasSwapped(s, t, l.Row(i), l.Row(j), l.size)
    ensures Elems(t, l) == Swapped(Elems(s, l), i, j) && SameAround(s, t, l)
  {
    SwapAround(s, t, l, i, j);
    assert AreasSwapped(s, t, l.Row(j), l.Row(i), l.size);
    forall k: nat | k < l.count ensures Elems(t, l)[k] == Swapped(Elems(s, l), i, j)[k] {
      if k == i {
        SwapElement(s, t, l, i, j);
      } else if k == j {
        SwapElement(s, t, l, j, i);
      } else {
        SwapOther(s, t, l, i, j, k);
      }
    }
  }

  /** The bytes t are s with element j moved in front of element i, in the first c columns only. */
  ghost predicate ColumnsRotated(s: seq<Byte>, t: seq<Byte>, l: Layout, i: nat, j: nat, c: nat)
    requires l.Fits(|s|) && l.Fits(|t|) && i <= j < l.count && c <= l.size
  {
    forall k, x :: 0 <= k < l.count && 0 <= x < l.size ==>
      Elems(t, l)[k][x] == if x < c then Rotated(Elems(s, l), i, j)[k][x] else Elems(s, l)[k][x]
  }

  lemma RotateExact(s: seq<Byte>, t: seq<Byte>, l: Layout, i: nat, j: nat)
    requires l.Fits(|s|) && l.Fits(|t|) && i <= j < l.count && ColumnsRotated(s, t, l, i, j, l.size)
    ensures Elems(t, l) == Rotated(Elems(s, l), i, j)
  {
    forall k | 0 <= k < l.count ensures Elems(t, l)[k] == Rotated(Elems(s, l), i, j)[k] {
      assert |Rotated(Elems(s, l), i, j)[k]| == l.size;
      forall x | 0 <= x < l.size ensures Elems(t, l)[k][x] == Rotated(Elems(s, l), i, j)[k][x] {
      }
    }
  }
}
