/**
  `quicksort` of the sorting lab: three-way partition around a randomly
  chosen pivot. The random draw is a parameter: `pick` maps the list being
  sorted to any natural number, reduced modulo its length.
 */
module QuickSort {
  import opened SortSpec

  datatype Parts = Parts(left: seq<int>, equal: seq<int>, right: seq<int>)

  /** The three parts are the elements below, equal to and above pivot,
      together holding exactly the elements of s. */
  ghost predicate IsPartition(p: Parts, s: seq<int>, pivot: int)
  {
    && (forall x :: x in p.left ==> x < pivot)
    && (forall x :: x in p.equal ==> x == pivot)
    && (forall x :: x in p.right ==> x > pivot)
    && multiset(p.left) + multiset(p.equal) + multiset(p.right) == multiset(s)
  }

  /** Appending x to the part it belongs in keeps the partition. */
  lemma PartitionAppend(p: Parts, init: seq<int>, x: int, pivot: int)
    requires IsPartition(p, init, pivot)
    ensures x < pivot ==> IsPartition(Parts(p.left + [x], p.equal, p.right), init + [x], pivot)
    ensures x == pivot ==> IsPartition(Parts(p.left, p.equal + [x], p.right), init + [x], pivot)
    ensures x > pivot ==> IsPartition(Parts(p.left, p.equal, p.right + [x]), init + [x], pivot)
  {
    assert multiset(init + [x]) == multiset(init) + multiset{x};
  }

  /** The partition loop (`for x in arr`), appending each element, in list
      order, to one of the three lists. */
  function Partition(s: seq<int>, pivot: int): (p: Parts)
    ensures IsPartition(p, s, pivot)
    ensures |p.left| + |p.equal| + |p.right| == |s|
  {
    if |s| == 0 then Parts([], [], [])
    else
      var init := s[..|s| - 1];
      var x := s[|s| - 1];
      var p := Partition(init, pivot);
      PartitionAppend(p, init, x, pivot);
      assert init + [x] == s;
      if x < pivot then Parts(p.left + [x], p.equal, p.right)
      else if x == pivot then Parts(p.left, p.equal + [x], p.right)
      else Parts(p.left, p.equal, p.right + [x])
  }

  /** Partitioning around an element of the list leaves both outer parts
      strictly shorter than the list. */
  lemma PartitionShrinks(s: seq<int>, pivot: int, p: Parts)
    requires IsPartition(p, s, pivot)
    requires pivot in s
    ensures |p.left| < |s| && |p.right| < |s|
  {
    assert pivot in multiset(s);
    assert pivot !in p.left && pivot !in p.right;
    assert pivot in multiset(p.equal);
    assert |multiset(s)| == |multiset(p.left)| + |multiset(p.equal)| + |multiset(p.right)|;
  }

  lemma SortedConcat(a: seq<int>, b: seq<int>, c: seq<int>, pivot: int)
    requires Sorted(a) && Sorted(c)
    requires forall x :: x in a ==> x < pivot
    requires forall x :: x in b ==> x == pivot
    requires forall x :: x in c ==> x > pivot
    ensures Sorted(a + b + c)
  {
    var s := a + b + c;
    forall i, j | 0 <= i < j < |s|
      ensures s[i] <= s[j]
    {
      if i < |a| {
        assert s[i] in a;
      }
      if j >= |a| + |b| {
        assert s[j] in c;
      }
      if |a| <= i < |a| + |b| {
        assert s[i] in b;
      }
      if |a| <= j < |a| + |b| {
        assert s[j] in b;
      }
    }
  }

  /** Gluing sorted versions of the outer parts around the equal part
      sorts the whole list. */
  lemma JoinSorted(s: seq<int>, pivot: int, p: Parts, l: seq<int>, r: seq<int>)
    requires IsPartition(p, s, pivot)
    requires SortedPermutation(l, p.left) && SortedPermutation(r, p.right)
    ensures SortedPermutation(l + p.equal + r, s)
  {
    forall x | x in l ensures x < pivot { assert x in multiset(l); assert x in multiset(p.left); assert x in p.left; }
    forall x | x in r ensures x > pivot { assert x in multiset(r); assert x in multiset(p.right); assert x in p.right; }
    SortedConcat(l, p.equal, r, pivot);
  }

  /** `quicksort(arr)`. Both recursive calls are on strictly shorter lists,
      because the equal part holds at least the pivot. */
  function Quicksort(arr: seq<int>, pick: seq<int> -> nat): (r: seq<int>)
    ensures SortedPermutation(r, arr)
    decreases |arr|
  {
    if |arr| <= 1 then arr
    else
      var pivot := arr[pick(arr) % |arr|];
      var p := Partition(arr, pivot);
      PartitionShrinks(arr, pivot, p);
      var l := Quicksort(p.left, pick);
      var r := Quicksort(p.right, pick);
      JoinSorted(arr, pivot, p, l, r);
      l + p.equal + r
  }

  /** The pivot draws do not matter: every choice gives the same list. */
  lemma QuicksortPivotIndependent(arr: seq<int>, pick1: seq<int> -> nat, pick2: seq<int> -> nat)
    ensures Quicksort(arr, pick1) == Quicksort(arr, pick2)
  {
    SortedPermutationUnique(Quicksort(arr, pick1), Quicksort(arr, pick2), arr);
  }

  /** Sorting an already sorted list returns it unchanged. */
  lemma QuicksortIdempotent(arr: seq<int>, pick: seq<int> -> nat)
    ensures Quicksort(Quicksort(arr, pick), pick) == Quicksort(arr, pick)
  {
    var r := Quicksort(arr, pick);
    SortedUnique(Quicksort(r, pick), r);
  }
}
