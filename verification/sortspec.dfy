/** What "sorted" means for the sorting lab, and the fact that pins a sort's
    output down: there is only one sorted arrangement of a multiset. */
module SortSpec {

  predicate Sorted(s: seq<int>)
  {
    forall i, j :: 0 <= i < j < |s| ==> s[i] <= s[j]
  }

  /** r is a sorted rearrangement of s. */
  ghost predicate SortedPermutation(r: seq<int>, s: seq<int>)
  {
    Sorted(r) && multiset(r) == multiset(s)
  }

  /** The head of a non-empty sorted sequence is below every element. */
  lemma SortedHeadIsMin(a: seq<int>, x: int)
    requires Sorted(a) && x in multiset(a)
    ensures a[0] <= x
  {
    var k :| 0 <= k < |a| && a[k] == x;
  }

  lemma SortedTail(a: seq<int>)
    requires Sorted(a) && |a| > 0
    ensures Sorted(a[1..])
  {
  }

  lemma TailMultiset(a: seq<int>)
    requires |a| > 0
    ensures multiset(a[1..]) == multiset(a) - multiset{a[0]}
  {
    assert a == [a[0]] + a[1..];
  }

  /** Two sorted sequences holding the same multiset are equal. */
  lemma {:induction false} SortedUnique(a: seq<int>, b: seq<int>)
    requires Sorted(a) && Sorted(b)
    requires multiset(a) == multiset(b)
    ensures a == b
    decreases |a|
  {
    assert |a| == |b| by {
      assert |a| == |multiset(a)| && |b| == |multiset(b)|;
    }
    if |a| > 0 {
      assert a[0] == b[0] by {
        SortedHeadIsMin(a, b[0]);
        SortedHeadIsMin(b, a[0]);
      }
      assert multiset(a[1..]) == multiset(b[1..]) by {
        TailMultiset(a);
        TailMultiset(b);
      }
      SortedTail(a);
      SortedTail(b);
      SortedUnique(a[1..], b[1..]);
      assert a == [a[0]] + a[1..];
      assert b == [b[0]] + b[1..];
    }
  }

  /** Any two sorting functions that return sorted permutations agree, and
      sorting a sorted sequence gives it back. */
  lemma SortedPermutationUnique(r1: seq<int>, r2: seq<int>, s: seq<int>)
    requires SortedPermutation(r1, s) && SortedPermutation(r2, s)
    ensures r1 == r2
  {
    SortedUnique(r1, r2);
  }
}
