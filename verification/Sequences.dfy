/** Small facts about sequences and sets that several modules share. */
module Sequences {
  function Min(x: int, y: int): int { if x < y then x else y }

  ghost predicate NoDuplicates<T>(s: seq<T>) {
    forall i, j :: 0 <= i < j < |s| ==> s[i] != s[j]
  }

  lemma PopFront<T>(s: seq<T>)
    requires s != [] && NoDuplicates(s)
    ensures NoDuplicates(s[1..])
    ensures forall t :: t in s[1..] <==> t in s && t != s[0]
  {
    forall t | t in s && t != s[0] ensures t in s[1..] {
      var i :| 0 <= i < |s| && s[i] == t;
      assert s[1..][i - 1] == t;
    }
  }

  lemma SubsetSize<T>(s: set<T>, t: set<T>)
    requires s <= t
    ensures |s| <= |t|
    ensures |s| == |t| ==> s == t
  {
    assert t == s + (t - s);
  }
}
