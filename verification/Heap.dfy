/** The 1-based binary heap that `sort` maintains inside the array (pintos/src/lib/stdlib.c),
    on sequences of elements: what one float-down does, and why it restores the heap. */
module Heap {

  /** A strcmp-type comparison that orders the elements totally, ties allowed. */
  ghost predicate TotalPreorder<T(!new)>(cmp: (T, T) -> int) {
    && (forall x, y :: cmp(x, y) <= 0 <==> cmp(y, x) >= 0)
    && (forall x, y, z :: cmp(x, y) <= 0 && cmp(y, z) <= 0 ==> cmp(x, z) <= 0)
  }

  ghost predicate Sorted<T>(v: seq<T>, cmp: (T, T) -> int) {
    forall i, j :: 0 <= i < j < |v| ==> cmp(v[i], v[j]) <= 0
  }

  /** The element with 1-based index k. */
  function At<T>(v: seq<T>, k: nat): T
    requires 1 <= k <= |v|
  {
    v[k - 1]
  }

  function Swap<T>(v: seq<T>, i: nat, j: nat): (r: seq<T>)
    requires 1 <= i <= |v| && 1 <= j <= |v|
    ensures |r| == |v|
  {
    v[i - 1 := v[j - 1]][j - 1 := v[i - 1]]
  }

  /** The index of the largest among node i and its children: left first, then right, each taken
      only when strictly larger. */
  function LargestOfFamily<T>(v: seq<T>, i: nat, cnt: nat, cmp: (T, T) -> int): (m: nat)
    requires 1 <= i <= cnt <= |v|
    ensures m == i || (m <= cnt && m in {2 * i, 2 * i + 1})
  {
    var m := if 2 * i <= cnt && cmp(At(v, 2 * i), At(v, i)) > 0 then 2 * i else i;
    if 2 * i + 1 <= cnt && cmp(At(v, 2 * i + 1), At(v, m)) > 0 then 2 * i + 1 else m
  }

  /** Floating the element at i down the heap of cnt elements. */
  function SiftDown<T>(v: seq<T>, i: nat, cnt: nat, cmp: (T, T) -> int): (r: seq<T>)
    requires 1 <= i <= cnt <= |v|
    ensures |r| == |v|
    decreases cnt - i
  {
    var m := LargestOfFamily(v, i, cnt, cmp);
    if m == i then v else SiftDown(Swap(v, i, m), m, cnt, cmp)
  }

  /** Nodes from lo on dominate their children among the first cnt elements. */
  ghost predicate HeapFrom<T>(v: seq<T>, lo: nat, cnt: nat, cmp: (T, T) -> int)
    requires cnt <= |v|
  {
    forall j :: 2 <= j <= cnt && j / 2 >= lo ==> cmp(At(v, j), At(v, j / 2)) <= 0
  }

  /** A heap from lo on except that node i may be too small for its place: its children still do
      not exceed its parent. */
  ghost predicate HeapExcept<T>(v: seq<T>, lo: nat, cnt: nat, i: nat, cmp: (T, T) -> int)
    requires 1 <= i <= cnt <= |v| && 1 <= lo
  {
    && (forall j :: 2 <= j <= cnt && j / 2 >= lo && j / 2 != i ==> cmp(At(v, j), At(v, j / 2)) <= 0)
    && (forall j :: 2 <= j <= cnt && j / 2 == i && i / 2 >= lo ==> cmp(At(v, j), At(v, i / 2)) <= 0)
  }

  /** Element m is at least as large as node i and both its children, of which it may be one. */
  ghost predicate TopOfFamily<T>(v: seq<T>, i: nat, cnt: nat, m: nat, cmp: (T, T) -> int)
    requires 1 <= i <= cnt <= |v| && 1 <= m <= cnt
  {
    && (m == i || m / 2 == i)
    && cmp(At(v, i), At(v, m)) <= 0
    && (forall j :: 2 <= j <= cnt && j / 2 == i ==> cmp(At(v, j), At(v, m)) <= 0)
  }

  lemma LargestTopsFamily<T(!new)>(v: seq<T>, i: nat, cnt: nat, cmp: (T, T) -> int)
    requires TotalPreorder(cmp) && 1 <= i <= cnt <= |v|
    ensures TopOfFamily(v, i, cnt, LargestOfFamily(v, i, cnt, cmp), cmp)
  {
    forall j | 2 <= j <= cnt && j / 2 == i
      ensures cmp(At(v, j), At(v, LargestOfFamily(v, i, cnt, cmp))) <= 0
    {
      assert j == 2 * i || j == 2 * i + 1;
    }
  }

  /** One level of floating down: the hole moves to the larger child. */
  lemma SwapMovesHole<T>(v: seq<T>, lo: nat, cnt: nat, i: nat, m: nat, cmp: (T, T) -> int)
    requires 1 <= lo <= i < m <= cnt <= |v| && HeapExcept(v, lo, cnt, i, cmp)
    requires TopOfFamily(v, i, cnt, m, cmp)
    ensures HeapExcept(Swap(v, i, m), lo, cnt, m, cmp)
  {
    var w := Swap(v, i, m);
    forall j | 2 <= j <= cnt && j / 2 >= lo && j / 2 != m ensures cmp(At(w, j), At(w, j / 2)) <= 0 {
      if j / 2 == i {
        assert cmp(At(v, j), At(v, m)) <= 0;
      } else if j == i {
        assert cmp(At(v, m), At(v, i / 2)) <= 0;
      } else {
        assert At(w, j) == At(v, j) && At(w, j / 2) == At(v, j / 2);
      }
    }
    forall j | 2 <= j <= cnt && j / 2 == m ensures cmp(At(w, j), At(w, m / 2)) <= 0 {
      assert cmp(At(v, j), At(v, j / 2)) <= 0;
    }
  }

  /** Float-down restores the heap from any node whose subtrees are heaps. */
  lemma {:induction false} SiftDownRestores<T(!new)>(v: seq<T>, lo: nat, cnt: nat, i: nat, cmp: (T, T) -> int)
    requires TotalPreorder(cmp)
    requires 1 <= lo <= i <= cnt <= |v| && HeapExcept(v, lo, cnt, i, cmp)
    ensures HeapFrom(SiftDown(v, i, cnt, cmp), lo, cnt, cmp)
    decreases cnt - i
  {
    var m := LargestOfFamily(v, i, cnt, cmp);
    LargestTopsFamily(v, i, cnt, cmp);
    if m != i {
      SwapMovesHole(v, lo, cnt, i, m, cmp);
      SiftDownRestores(Swap(v, i, m), lo, cnt, m, cmp);
    }
  }

  lemma SwapPermutes<T>(v: seq<T>, i: nat, j: nat, cnt: nat)
    requires 1 <= i <= cnt <= |v| && 1 <= j <= cnt
    ensures multiset(Swap(v, i, j)[..cnt]) == multiset(v[..cnt])
    ensures Swap(v, i, j)[cnt..] == v[cnt..]
    ensures multiset(Swap(v, i, j)) == multiset(v)
  {
    assert Swap(v, i, j)[..cnt] == Swap(v[..cnt], i, j);
    PrefixAndRest(v, cnt);
    PrefixAndRest(Swap(v, i, j), cnt);
  }

  lemma PrefixAndRest<T>(v: seq<T>, cnt: nat)
    requires cnt <= |v|
    ensures multiset(v) == multiset(v[..cnt]) + multiset(v[cnt..])
  {
    assert v == v[..cnt] + v[cnt..];
  }

  /** Float-down only rearranges the first cnt elements. */
  lemma {:induction false} SiftDownPermutes<T>(v: seq<T>, i: nat, cnt: nat, cmp: (T, T) -> int)
    requires 1 <= i <= cnt <= |v|
    ensures multiset(SiftDown(v, i, cnt, cmp)[..cnt]) == multiset(v[..cnt])
    ensures SiftDown(v, i, cnt, cmp)[cnt..] == v[cnt..]
    ensures multiset(SiftDown(v, i, cnt, cmp)) == multiset(v)
    decreases cnt - i
  {
    var m := LargestOfFamily(v, i, cnt, cmp);
    if m != i {
      SwapPermutes(v, i, m, cnt);
      SiftDownPermutes(Swap(v, i, m), m, cnt, cmp);
    }
  }

  /** The root of a heap is its largest element. */
  lemma {:induction false} RootIsLargest<T(!new)>(v: seq<T>, cnt: nat, j: nat, cmp: (T, T) -> int)
    requires TotalPreorder(cmp)
    requires 1 <= j <= cnt <= |v| && HeapFrom(v, 1, cnt, cmp)
    ensures cmp(At(v, j), At(v, 1)) <= 0
    decreases j
  {
    if j > 1 {
      RootIsLargest(v, cnt, j / 2, cmp);
      assert cmp(At(v, j), At(v, j / 2)) <= 0;
    }
  }

  /** Where the second loop of `sort` stands before it handles index i: a heap of i elements,
      and above it the largest elements, in order. */
  ghost predicate HalfSorted<T>(v: seq<T>, i: nat, cmp: (T, T) -> int)
    requires i <= |v|
  {
    && HeapFrom(v, 1, i, cmp)
    && Sorted(v[i..], cmp)
    && (forall x, y :: x in v[..i] && y in v[i..] ==> cmp(x, y) <= 0)
  }

  /** One round of the second loop: the root goes to the end, the rest becomes a heap again. */
  lemma ExtractStep<T(!new)>(v: seq<T>, i: nat, cmp: (T, T) -> int)
    requires TotalPreorder(cmp)
    requires 2 <= i <= |v| && HalfSorted(v, i, cmp)
    ensures HalfSorted(SiftDown(Swap(v, 1, i), 1, i - 1, cmp), i - 1, cmp)
  {
    var w := Swap(v, 1, i);
    var r := SiftDown(w, 1, i - 1, cmp);
    assert HeapExcept(w, 1, i - 1, 1, cmp);
    SiftDownRestores(w, 1, i - 1, 1, cmp);
    SiftDownPermutes(w, 1, i - 1, cmp);
    RootOntoSuffix(v, i, cmp);
    SamePrefixElements(r, w, i - 1);
  }

  lemma SamePrefixElements<T>(r: seq<T>, w: seq<T>, n: nat)
    requires n <= |r| == |w| && multiset(r[..n]) == multiset(w[..n])
    ensures forall x :: x in r[..n] ==> x in w[..n]
  {
    forall x | x in r[..n] ensures x in w[..n] {
      assert x in multiset(r[..n]);
    }
  }

  /** Moving the root in front of the sorted suffix keeps the suffix sorted and maximal. */
  lemma RootOntoSuffix<T(!new)>(v: seq<T>, i: nat, cmp: (T, T) -> int)
    requires TotalPreorder(cmp)
    requires 2 <= i <= |v| && HalfSorted(v, i, cmp)
    ensures var w := Swap(v, 1, i);
            && Sorted(w[i - 1..], cmp)
            && forall x, y :: x in w[..i - 1] && y in w[i - 1..] ==> cmp(x, y) <= 0
  {
    var w := Swap(v, 1, i);
    assert w[i - 1..] == [v[0]] + v[i..];
    assert v[0] in v[..i];
    forall x | x in w[..i - 1] ensures x in v[..i] && cmp(x, v[0]) <= 0 {
      var k :| 0 <= k < i - 1 && w[k] == x;
      var s := if k == 0 then i - 1 else k;
      assert v[s] == x && v[..i][s] == x;
      RootIsLargest(v, i, s + 1, cmp);
    }
  }
}
