/** `sort` and `binary_search` over an array of `cnt` elements of `size` bytes each
    (pintos/src/lib/stdlib.c). The methods move bytes in place; what they promise is stated on the
    sequence of elements those bytes make up. */
module Stdlib {
  import opened Bytes
  import opened Heap
  import opened Nonlinear
  import opened Options

  type Element = seq<byte>

  /** Element k, counted from 0. */
  function Slot(s: seq<byte>, size: nat, cnt: nat, k: nat): (e: Element)
    requires |s| == cnt * size && k < cnt
    ensures |e| == size
  {
    SlotFits(size, cnt, k);
    s[k * size..k * size + size]
  }

  function Elements(s: seq<byte>, size: nat, cnt: nat): (v: seq<Element>)
    requires |s| == cnt * size
    ensures |v| == cnt
    ensures forall k :: 0 <= k < cnt ==> v[k] == Slot(s, size, cnt, k)
  {
    seq(cnt, k requires 0 <= k < cnt => Slot(s, size, cnt, k))
  }

  // ---------- Swapping two elements byte by byte ----------

  lemma SlotsDisjoint(size: nat, i: nat, j: nat)
    requires i != j
    ensures i * size + size <= j * size || j * size + size <= i * size
  {
    if i < j { MulMono(i + 1, j, size); } else { MulMono(j + 1, i, size); }
    MulDist(i, 1, size);
    MulDist(j, 1, size);
  }

  lemma SlotFits(size: nat, cnt: nat, k: nat)
    requires k < cnt
    ensures 0 <= k * size <= k * size + size <= cnt * size
  {
    MulMono(0, k, size);
    MulMono(k + 1, cnt, size);
    MulDist(k, 1, size);
  }

  /** t is s with the byte ranges of length size at p and q exchanged. */
  ghost predicate Exchanged(s: seq<byte>, t: seq<byte>, p: nat, q: nat, size: nat)
    requires p + size <= |s| && q + size <= |s|
  {
    && |t| == |s|
    && (forall b :: p <= b < p + size ==> t[b] == s[b - p + q])
    && (forall b :: q <= b < q + size ==> t[b] == s[b - q + p])
    && (forall b :: 0 <= b < |s| && !(p <= b < p + size) && !(q <= b < q + size) ==> t[b] == s[b])
  }

  predicate Apart(p: nat, r: nat, size: nat) { r + size <= p || p + size <= r }

  predicate SameRange(s: seq<byte>, t: seq<byte>, r: nat, size: nat)
    requires r + size <= |s| && |t| == |s|
  {
    t[r..r + size] == s[r..r + size]
  }

  /** The same said of whole ranges. */
  ghost predicate RangesExchanged(s: seq<byte>, t: seq<byte>, p: nat, q: nat, size: nat)
    requires p + size <= |s| && q + size <= |s|
  {
    && |t| == |s| && t[p..p + size] == s[q..q + size] && t[q..q + size] == s[p..p + size]
    && forall r: nat {:trigger SameRange(s, t, r, size)} ::
         r + size <= |s| && Apart(p, r, size) && Apart(q, r, size) ==> SameRange(s, t, r, size)
  }

  lemma ExchangedRanges(s: seq<byte>, t: seq<byte>, p: nat, q: nat, size: nat)
    requires p + size <= |s| && q + size <= |s| && Exchanged(s, t, p, q, size)
    ensures RangesExchanged(s, t, p, q, size)
  {
  }

  lemma SlotsApart(size: nat, cnt: nat, i: nat, j: nat, k: nat)
    requires i < cnt && j < cnt && k < cnt
    ensures i * size + size <= cnt * size && j * size + size <= cnt * size && k * size + size <= cnt * size
    ensures (k != i ==> Apart(i * size, k * size, size)) && (k != j ==> Apart(j * size, k * size, size))
  {
    SlotFits(size, cnt, i);
    SlotFits(size, cnt, j);
    SlotFits(size, cnt, k);
    if k != i { SlotsDisjoint(size, k, i); }
    if k != j { SlotsDisjoint(size, k, j); }
  }

  lemma RangeAfterExchange(s: seq<byte>, t: seq<byte>, p: nat, q: nat, r: nat, size: nat)
    requires p + size <= |s| && q + size <= |s| && r + size <= |s| && RangesExchanged(s, t, p, q, size)
    requires (r == p || Apart(p, r, size)) && (r == q || Apart(q, r, size))
    ensures r == p ==> t[r..r + size] == s[q..q + size]
    ensures r == q ==> t[r..r + size] == s[p..p + size]
    ensures Apart(p, r, size) && Apart(q, r, size) ==> t[r..r + size] == s[r..r + size]
  {
    if Apart(p, r, size) && Apart(q, r, size) { assert SameRange(s, t, r, size); }
  }

  lemma SlotAfterExchange(s: seq<byte>, t: seq<byte>, size: nat, cnt: nat, i: nat, j: nat, k: nat)
    requires |s| == |t| == cnt * size && i < cnt && j < cnt && k < cnt
    requires i * size + size <= |s| && j * size + size <= |s| && RangesExchanged(s, t, i * size, j * size, size)
    ensures Slot(t, size, cnt, k) == Slot(s, size, cnt, if k == i then j else if k == j then i else k)
  {
    SlotsApart(size, cnt, i, j, k);
    RangeAfterExchange(s, t, i * size, j * size, k * size, size);
    SlotFromRange(s, t, size, cnt, i, j, k);
  }

  lemma SlotFromRange(s: seq<byte>, t: seq<byte>, size: nat, cnt: nat, i: nat, j: nat, k: nat)
    requires |s| == |t| == cnt * size && i < cnt && j < cnt && k < cnt
    requires i * size + size <= |s| && j * size + size <= |s| && k * size + size <= |s|
    requires k == i ==> t[k * size..k * size + size] == s[j * size..j * size + size]
    requires k == j ==> t[k * size..k * size + size] == s[i * size..i * size + size]
    requires k != i && k != j ==> t[k * size..k * size + size] == s[k * size..k * size + size]
    ensures Slot(t, size, cnt, k) == Slot(s, size, cnt, if k == i then j else if k == j then i else k)
  {
  }

  /** Exchanging the byte ranges of two slots exchanges the elements and nothing else. */
  lemma ExchangedSlots(s: seq<byte>, t: seq<byte>, size: nat, cnt: nat, i: nat, j: nat)
    requires |s| == |t| == cnt * size && i < cnt && j < cnt
    requires i * size + size <= |s| && j * size + size <= |s| && RangesExchanged(s, t, i * size, j * size, size)
    ensures Elements(t, size, cnt) == Swap(Elements(s, size, cnt), i + 1, j + 1)
  {
    var v, w := Elements(s, size, cnt), Elements(t, size, cnt);
    forall k | 0 <= k < cnt ensures w[k] == Swap(v, i + 1, j + 1)[k] {
      SlotAfterExchange(s, t, size, cnt, i, j, k);
    }
  }

  /** The byte loop of `do_swap`. */
  method ExchangeBytes(a: array<byte>, p: nat, q: nat, size: nat)
    requires p + size <= a.Length && q + size <= a.Length
    requires p == q || p + size <= q || q + size <= p
    modifies a
    ensures Exchanged(old(a[..]), a[..], p, q, size)
  {
    ghost var before := a[..];
    for i := 0 to size
      invariant Exchanged(before, a[..], p, q, i)
    {
      var t := a[p + i];
      a[p + i] := a[q + i];
      a[q + i] := t;
    }
  }

  method ExchangeRanges(a: array<byte>, p: nat, q: nat, size: nat)
    requires p + size <= a.Length && q + size <= a.Length && (p == q || Apart(p, q, size))
    modifies a
    ensures RangesExchanged(old(a[..]), a[..], p, q, size)
  {
    ExchangeBytes(a, p, q, size);
    ExchangedRanges(old(a[..]), a[..], p, q, size);
  }

  method DoSwap(a: array<byte>, i: nat, j: nat, size: nat, ghost cnt: nat)
    requires a.Length == cnt * size && 1 <= i <= cnt && 1 <= j <= cnt
    modifies a
    ensures Elements(a[..], size, cnt) == Swap(old(Elements(a[..], size, cnt)), i, j)
  {
    SlotFits(size, cnt, i - 1);
    SlotFits(size, cnt, j - 1);
    if i != j { SlotsDisjoint(size, i - 1, j - 1); }
    ExchangeRanges(a, (i - 1) * size, (j - 1) * size, size);
    ExchangedSlots(old(a[..]), a[..], size, cnt, i - 1, j - 1);
  }

  method DoCompare(a: array<byte>, i: nat, j: nat, size: nat, cmp: (Element, Element) -> int, ghost cnt: nat)
    returns (r: int)
    requires a.Length == cnt * size && 1 <= i <= cnt && 1 <= j <= cnt
    ensures var v := Elements(a[..], size, cnt); r == cmp(At(v, i), At(v, j))
  {
    SlotFits(size, cnt, i - 1);
    SlotFits(size, cnt, j - 1);
    r := cmp(a[(i - 1) * size..(i - 1) * size + size], a[(j - 1) * size..(j - 1) * size + size]);
  }

  // ---------- Heapsort ----------

  method Heapify(a: array<byte>, start: nat, cnt: nat, size: nat, cmp: (Element, Element) -> int, ghost total: nat)
    requires a.Length == total * size && 1 <= start <= cnt <= total
    modifies a
    ensures Elements(a[..], size, total) == SiftDown(old(Elements(a[..], size, total)), start, cnt, cmp)
  {
    var i := start;
    while true
      invariant 1 <= i <= cnt
      invariant SiftDown(Elements(a[..], size, total), i, cnt, cmp)
             == SiftDown(old(Elements(a[..], size, total)), start, cnt, cmp)
      decreases cnt - i
    {
      ghost var v := Elements(a[..], size, total);
      var left, right := 2 * i, 2 * i + 1;
      var max := i;
      if left <= cnt {
        var c := DoCompare(a, left, max, size, cmp, total);
        if c > 0 { max := left; }
      }
      if right <= cnt {
        var c := DoCompare(a, right, max, size, cmp, total);
        if c > 0 { max := right; }
      }
      assert max == LargestOfFamily(v, i, cnt, cmp);
      if max == i { break; }
      DoSwap(a, i, max, size, total);
      i := max;
    }
  }

  /** One round of the first loop: node i joins the heap. */
  lemma BuildStep(v: seq<Element>, i: nat, cmp: (Element, Element) -> int)
    requires TotalPreorder(cmp) && 1 <= i <= |v| && HeapFrom(v, i + 1, |v|, cmp)
    ensures HeapFrom(SiftDown(v, i, |v|, cmp), i, |v|, cmp)
    ensures multiset(SiftDown(v, i, |v|, cmp)) == multiset(v)
  {
    assert HeapExcept(v, i, |v|, i, cmp);
    SiftDownRestores(v, i, |v|, i, cmp);
    SiftDownPermutes(v, i, |v|, cmp);
  }

  /** One round of the second: the largest goes to place i, and the heap shrinks by one. */
  lemma ExtractRound(v: seq<Element>, i: nat, cmp: (Element, Element) -> int)
    requires TotalPreorder(cmp) && 2 <= i <= |v| && HalfSorted(v, i, cmp)
    ensures HalfSorted(SiftDown(Swap(v, 1, i), 1, i - 1, cmp), i - 1, cmp)
    ensures multiset(SiftDown(Swap(v, 1, i), 1, i - 1, cmp)) == multiset(v)
  {
    ExtractStep(v, i, cmp);
    SwapPermutes(v, 1, i, |v|);
    SiftDownPermutes(Swap(v, 1, i), 1, i - 1, cmp);
  }

  /** The contract of `sort`: the same elements, in order. */
  method Sort(a: array<byte>, cnt: nat, size: nat, cmp: (Element, Element) -> int)
    requires size > 0 && a.Length == cnt * size && TotalPreorder(cmp)
    modifies a
    ensures Sorted(Elements(a[..], size, cnt), cmp)
    ensures multiset(Elements(a[..], size, cnt)) == multiset(old(Elements(a[..], size, cnt)))
  {
    var i := cnt / 2;
    while i > 0
      invariant 0 <= i <= cnt / 2
      invariant HeapFrom(Elements(a[..], size, cnt), i + 1, cnt, cmp)
      invariant multiset(Elements(a[..], size, cnt)) == multiset(old(Elements(a[..], size, cnt)))
    {
      BuildStep(Elements(a[..], size, cnt), i, cmp);
      Heapify(a, i, cnt, size, cmp, cnt);
      i := i - 1;
    }
    i := cnt;
    while i > 1
      invariant 0 <= i <= cnt
      invariant HalfSorted(Elements(a[..], size, cnt), i, cmp)
      invariant multiset(Elements(a[..], size, cnt)) == multiset(old(Elements(a[..], size, cnt)))
    {
      ExtractRound(Elements(a[..], size, cnt), i, cmp);
      DoSwap(a, 1, i, size, cnt);
      Heapify(a, 1, i - 1, size, cmp, cnt);
      i := i - 1;
    }
    HalfSortedToOne(Elements(a[..], size, cnt), i, cmp);
  }

  lemma HalfSortedToOne<T(!new)>(v: seq<T>, i: nat, cmp: (T, T) -> int)
    requires i <= 1 && i <= |v| && HalfSorted(v, i, cmp)
    ensures Sorted(v, cmp)
  {
    forall j, k | 0 <= j < k < |v| ensures cmp(v[j], v[k]) <= 0 {
      assert v[i..][k - i] == v[k];
      if j < i { assert v[..i][j] == v[j]; } else { assert v[i..][j - i] == v[j]; }
    }
  }

  // ---------- Binary search ----------

  /** The elements below the key come first and those above it last. */
  ghost predicate PartitionedBy(v: seq<Element>, key: Element, cmp: (Element, Element) -> int) {
    forall i, j :: 0 <= i < j < |v| ==>
      && (cmp(key, v[i]) < 0 ==> cmp(key, v[j]) < 0)
      && (cmp(key, v[j]) > 0 ==> cmp(key, v[i]) > 0)
  }

  lemma SortedIsPartitioned(v: seq<Element>, key: Element, cmp: (Element, Element) -> int)
    requires TotalPreorder(cmp) && Sorted(v, cmp)
    ensures PartitionedBy(v, key, cmp)
  {
    forall i, j | 0 <= i < j < |v|
      ensures cmp(key, v[i]) < 0 ==> cmp(key, v[j]) < 0
      ensures cmp(key, v[j]) > 0 ==> cmp(key, v[i]) > 0
    {
      BelowStaysBelow(key, v[i], v[j], cmp);
    }
  }

  lemma BelowStaysBelow(key: Element, x: Element, y: Element, cmp: (Element, Element) -> int)
    requires TotalPreorder(cmp) && cmp(x, y) <= 0
    ensures cmp(key, x) < 0 ==> cmp(key, y) < 0
    ensures cmp(key, y) > 0 ==> cmp(key, x) > 0
  {
    assert cmp(key, y) >= 0 ==> cmp(y, key) <= 0;
    assert cmp(y, key) <= 0 ==> cmp(x, key) <= 0;
    assert cmp(key, x) <= 0 ==> cmp(x, key) >= 0;
    assert cmp(key, x) <= 0 ==> cmp(key, y) <= 0;
  }

  /** Searching succeeds exactly when some element matches, and then points at one. */
  method BinarySearch(key: Element, a: array<byte>, cnt: nat, size: nat, cmp: (Element, Element) -> int)
    returns (r: Option<nat>)
    requires size > 0 && a.Length == cnt * size
    requires PartitionedBy(Elements(a[..], size, cnt), key, cmp)
    ensures r.None? ==> forall k :: 0 <= k < cnt ==> cmp(key, Elements(a[..], size, cnt)[k]) != 0
    ensures r.Some? ==> exists k :: 0 <= k < cnt && r.value == k * size && cmp(key, Elements(a[..], size, cnt)[k]) == 0
  {
    var first, last := 0, size * cnt;
    ghost var lo, hi := 0, cnt;
    ghost var v := Elements(a[..], size, cnt);
    while first < last
      invariant 0 <= lo <= hi <= cnt && first == lo * size && last == hi * size
      invariant forall k :: 0 <= k < lo ==> cmp(key, v[k]) > 0
      invariant forall k :: hi <= k < cnt ==> cmp(key, v[k]) < 0
      decreases hi - lo
    {
      MulCancelLess(lo, hi, size);
      MulDist(hi, lo, size);
      QuotientIs(last - first, size, hi - lo);
      var range := (last - first) / size;
      var middle := first + (range / 2) * size;
      ghost var mid := lo + range / 2;
      MulDist(lo, range / 2, size);
      SlotFits(size, cnt, mid);
      var c := cmp(key, a[middle..middle + size]);
      assert a[..][middle..middle + size] == v[mid];
      if c < 0 {
        last, hi := middle, mid;
      } else if c > 0 {
        MulDist(mid, 1, size);
        first, lo := middle + size, mid + 1;
      } else {
        return Some(middle);
      }
    }
    if lo < hi { MulLess(lo, hi, size); }
    r := None;
  }
}
