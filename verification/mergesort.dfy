/**
  `merge_sort` of the sorting lab. The merge loop itself is correct; the
  driver around it works only on local copies and drops the results of
  its recursive calls, so the caller sees no effect at all.
 */
module MergeSort {
  import opened SortSpec

  /** The merge the three loops perform: take the smaller head, and on a
      tie (`left[i] < right[j]` fails) take the head of the right half. */
  function MergeSpec(l: seq<int>, r: seq<int>): seq<int>
    decreases |l| + |r|
  {
    if |l| == 0 then r
    else if |r| == 0 then l
    else if l[0] < r[0] then [l[0]] + MergeSpec(l[1..], r)
    else [r[0]] + MergeSpec(l, r[1..])
  }

  lemma {:induction false} MergeSpecPermutation(l: seq<int>, r: seq<int>)
    ensures multiset(MergeSpec(l, r)) == multiset(l) + multiset(r)
    decreases |l| + |r|
  {
    if |l| == 0 || |r| == 0 {
    } else if l[0] < r[0] {
      MergeSpecPermutation(l[1..], r);
      assert l == [l[0]] + l[1..];
    } else {
      MergeSpecPermutation(l, r[1..]);
      assert r == [r[0]] + r[1..];
    }
  }

  /** Every element of the merge is at least `lo` when every input is. */
  lemma {:induction false} MergeSpecLowerBound(l: seq<int>, r: seq<int>, lo: int)
    requires forall x :: x in l ==> lo <= x
    requires forall x :: x in r ==> lo <= x
    ensures forall x :: x in MergeSpec(l, r) ==> lo <= x
  {
    MergeSpecPermutation(l, r);
    forall x | x in MergeSpec(l, r)
      ensures lo <= x
    {
      assert x in multiset(MergeSpec(l, r));
      assert x in multiset(l) || x in multiset(r);
      if x in multiset(l) {
        assert x in l;
      } else {
        assert x in r;
      }
    }
  }

  lemma {:induction false} MergeSpecSorted(l: seq<int>, r: seq<int>)
    requires Sorted(l) && Sorted(r)
    ensures Sorted(MergeSpec(l, r))
    decreases |l| + |r|
  {
    if |l| == 0 || |r| == 0 {
    } else if l[0] < r[0] {
      MergeSpecSorted(l[1..], r);
      MergeSpecLowerBound(l[1..], r, l[0]);
      var t := MergeSpec(l[1..], r);
      assert forall k :: 0 <= k < |t| ==> l[0] <= t[k] by {
        forall k | 0 <= k < |t| ensures l[0] <= t[k] { assert t[k] in t; }
      }
    } else {
      MergeSpecSorted(l, r[1..]);
      MergeSpecLowerBound(l, r[1..], r[0]);
      var t := MergeSpec(l, r[1..]);
      assert forall k :: 0 <= k < |t| ==> r[0] <= t[k] by {
        forall k | 0 <= k < |t| ensures r[0] <= t[k] { assert t[k] in t; }
      }
    }
  }

  lemma MergeSpecFacts(left: seq<int>, right: seq<int>)
    ensures multiset(MergeSpec(left, right)) == multiset(left + right)
    ensures Sorted(left) && Sorted(right) ==> Sorted(MergeSpec(left, right))
  {
    MergeSpecPermutation(left, right);
    if Sorted(left) && Sorted(right) {
      MergeSpecSorted(left, right);
    }
  }

  /** The merge of the suffixes left[i..] and right[j..], by position: the
      step the merge loops take at i, j. */
  function MergeFrom(left: seq<int>, right: seq<int>, i: int, j: int): seq<int>
    requires 0 <= i <= |left| && 0 <= j <= |right|
    decreases |left| - i + |right| - j
  {
    if i == |left| && j == |right| then []
    else if i < |left| && (j == |right| || left[i] < right[j]) then [left[i]] + MergeFrom(left, right, i + 1, j)
    else [right[j]] + MergeFrom(left, right, i, j + 1)
  }

  lemma {:induction false} MergeFromSpec(left: seq<int>, right: seq<int>, i: int, j: int)
    requires 0 <= i <= |left| && 0 <= j <= |right|
    ensures MergeFrom(left, right, i, j) == MergeSpec(left[i..], right[j..])
    decreases |left| - i + |right| - j
  {
    if i == |left| && j == |right| {
    } else if i < |left| && (j == |right| || left[i] < right[j]) {
      MergeFromSpec(left, right, i + 1, j);
      assert left[i..] == [left[i]] + left[i + 1..];
      assert left[i..][1..] == left[i + 1..];
    } else {
      MergeFromSpec(left, right, i, j + 1);
      assert right[j..] == [right[j]] + right[j + 1..];
      assert right[j..][1..] == right[j + 1..];
    }
  }

  lemma {:induction false} MergeFromLength(left: seq<int>, right: seq<int>, i: int, j: int)
    requires 0 <= i <= |left| && 0 <= j <= |right|
    ensures |MergeFrom(left, right, i, j)| == |left| - i + |right| - j
    decreases |left| - i + |right| - j
  {
    if i == |left| && j == |right| {
    } else if i < |left| && (j == |right| || left[i] < right[j]) {
      MergeFromLength(left, right, i + 1, j);
    } else {
      MergeFromLength(left, right, i, j + 1);
    }
  }

  /** A suffix that starts with x: x sits at k and the rest follows it. */
  lemma Peel(total: seq<int>, k: int, x: int, rest: seq<int>)
    requires 0 <= k < |total|
    requires total[k..] == [x] + rest
    ensures total[k] == x && total[k + 1..] == rest
  {
    assert total[k..][0] == total[k];
    assert total[k..][1..] == total[k + 1..];
  }

  /** One step of the first loop: the head taken is the next cell of the
      merge, and the merge of what is then unread follows it. */
  lemma PeelHead(left: seq<int>, right: seq<int>, total: seq<int>, i: int, j: int, k: int)
    requires 0 <= i < |left| && 0 <= j < |right| && 0 <= k < |total|
    requires total[k..] == MergeFrom(left, right, i, j)
    ensures left[i] < right[j] ==> total[k] == left[i] && total[k + 1..] == MergeFrom(left, right, i + 1, j)
    ensures !(left[i] < right[j]) ==> total[k] == right[j] && total[k + 1..] == MergeFrom(left, right, i, j + 1)
  {
    if left[i] < right[j] {
      Peel(total, k, left[i], MergeFrom(left, right, i + 1, j));
    } else {
      Peel(total, k, right[j], MergeFrom(left, right, i, j + 1));
    }
  }

  /** The first merge loop: while both halves have elements left, write
      the smaller head (the right one on ties) to arr[k]. The first k
      cells of arr agree with the whole merge `total`, and what remains
      to be written is the merge of the unread suffixes. */
  method MergeHeads(left: seq<int>, right: seq<int>, ghost total: seq<int>) returns (arr: seq<int>, i: int, j: int)
    requires total == MergeFrom(left, right, 0, 0)
    ensures 0 <= i <= |left| && 0 <= j <= |right|
    ensures i == |left| || j == |right|
    ensures |arr| == |left| + |right| == |total|
    ensures forall t :: 0 <= t < i + j ==> arr[t] == total[t]
    ensures total[i + j..] == MergeFrom(left, right, i, j)
  {
    MergeFromLength(left, right, 0, 0);
    arr := left + right;
    i, j := 0, 0;
    var k := 0;
    while i < |left| && j < |right|
      invariant 0 <= i <= |left| && 0 <= j <= |right| && k == i + j
      invariant |arr| == |left| + |right| == |total|
      invariant forall t :: 0 <= t < k ==> arr[t] == total[t]
      invariant total[k..] == MergeFrom(left, right, i, j)
    {
      PeelHead(left, right, total, i, j, k);
      if left[i] < right[j] {
        arr := arr[k := left[i]];
        i := i + 1;
      } else {
        arr := arr[k := right[j]];
        j := j + 1;
      }
      k := k + 1;
    }
  }

  /** The loops that copy what is left of one half: once the other half
      is used up, the merge of the unread suffixes is what is left of this
      one. */
  lemma PeelTail(left: seq<int>, right: seq<int>, total: seq<int>, i: int, j: int, k: int)
    requires 0 <= i <= |left| && 0 <= j <= |right| && 0 <= k < |total|
    requires (i < |left| && j == |right|) || (i == |left| && j < |right|)
    requires total[k..] == MergeFrom(left, right, i, j)
    ensures i < |left| ==> total[k] == left[i] && total[k + 1..] == MergeFrom(left, right, i + 1, j)
    ensures j < |right| ==> total[k] == right[j] && total[k + 1..] == MergeFrom(left, right, i, j + 1)
  {
    if i < |left| {
      Peel(total, k, left[i], MergeFrom(left, right, i + 1, j));
    } else {
      Peel(total, k, right[j], MergeFrom(left, right, i, j + 1));
    }
  }

  /** The second loop: copy the rest of the left half. */
  method CopyLeft(left: seq<int>, right: seq<int>, ghost total: seq<int>, arr0: seq<int>, i0: int)
    returns (arr: seq<int>)
    requires 0 <= i0 <= |left|
    requires |arr0| == |left| + |right| == |total|
    requires forall t :: 0 <= t < i0 + |right| ==> arr0[t] == total[t]
    requires total[i0 + |right|..] == MergeFrom(left, right, i0, |right|)
    ensures |arr| == |total|
    ensures forall t :: 0 <= t < |left| + |right| ==> arr[t] == total[t]
  {
    arr := arr0;
    var i, k := i0, i0 + |right|;
    while i < |left|
      invariant i0 <= i <= |left| && k == i + |right|
      invariant |arr| == |total|
      invariant forall t :: 0 <= t < k ==> arr[t] == total[t]
      invariant total[k..] == MergeFrom(left, right, i, |right|)
    {
      PeelTail(left, right, total, i, |right|, k);
      arr := arr[k := left[i]];
      i, k := i + 1, k + 1;
    }
  }

  /** The third loop: copy the rest of the right half. */
  method CopyRight(left: seq<int>, right: seq<int>, ghost total: seq<int>, arr0: seq<int>, j0: int)
    returns (arr: seq<int>)
    requires 0 <= j0 <= |right|
    requires |arr0| == |left| + |right| == |total|
    requires forall t :: 0 <= t < |left| + j0 ==> arr0[t] == total[t]
    requires total[|left| + j0..] == MergeFrom(left, right, |left|, j0)
    ensures |arr| == |total|
    ensures forall t :: 0 <= t < |left| + |right| ==> arr[t] == total[t]
  {
    arr := arr0;
    var j, k := j0, |left| + j0;
    while j < |right|
      invariant j0 <= j <= |right| && k == |left| + j
      invariant |arr| == |total|
      invariant forall t :: 0 <= t < k ==> arr[t] == total[t]
      invariant total[k..] == MergeFrom(left, right, |left|, j)
    {
      PeelTail(left, right, total, |left|, j, k);
      arr := arr[k := right[j]];
      j, k := j + 1, k + 1;
    }
  }

  /** The three merge loops, writing arr[k] of the copy `arr`, which starts
      out as left ++ right (the two halves it was cut into). */
  method Merge(left: seq<int>, right: seq<int>) returns (arr: seq<int>)
    ensures arr == MergeSpec(left, right)
    ensures multiset(arr) == multiset(left + right)
    ensures Sorted(left) && Sorted(right) ==> Sorted(arr)
  {
    ghost var total := MergeFrom(left, right, 0, 0);
    var i, j;
    arr, i, j := MergeHeads(left, right, total);
    if i < |left| {
      arr := CopyLeft(left, right, total, arr, i);
    } else {
      arr := CopyRight(left, right, total, arr, j);
    }
    assert arr == total;
    MergeFromSpec(left, right, 0, 0);
    assert left[0..] == left && right[0..] == right;
    MergeSpecFacts(left, right);
  }

  lemma Halves(a: seq<int>, mid: int)
    requires 0 <= mid <= |a|
    ensures a[..mid] + a[mid..] == a
  {
  }

  /** `merge_sort(a)` as written. The source returns nothing and only
      rebinds its own copy, so with sequences as values the caller's list
      is `a` after the call; `local` is that private copy after the merge
      loops. The recursive calls sort nothing visible to this frame, so
      `local` is one merge of the two unsorted halves. */
  method MergeSortAsWritten(a: seq<int>) returns (local: seq<int>)
    ensures multiset(local) == multiset(a)
    ensures |a| <= 1 ==> local == a
    ensures |a| > 1 ==> local == MergeSpec(a[..|a| / 2], a[|a| / 2..])
    decreases |a|
  {
    var arr := a;
    if |arr| > 1 {
      var mid := |arr| / 2;
      var leftHalf := arr[..mid];
      var rightHalf := arr[mid..];
      var _ := MergeSortAsWritten(leftHalf);
      var _ := MergeSortAsWritten(rightHalf);
      arr := Merge(leftHalf, rightHalf);
      Halves(a, mid);
    }
    local := arr;
  }

  /** The input [4, 3, 2, 1] shows the defect: the caller's list stays
      unsorted, and even the private copy ends as [2, 1, 4, 3]. */
  method MergeSortAsWrittenCounterexample() returns (local: seq<int>)
    ensures local == [2, 1, 4, 3] && !Sorted(local)
  {
    local := MergeSortAsWritten([4, 3, 2, 1]);
    MergeOfUnsortedHalves();
    assert local[0] > local[1];
  }

  /** The one merge the as-written sort performs on [4, 3, 2, 1]. */
  lemma MergeOfUnsortedHalves()
    ensures [4, 3, 2, 1][..2] == [4, 3] && [4, 3, 2, 1][2..] == [2, 1]
    ensures MergeSpec([4, 3], [2, 1]) == [2, 1, 4, 3]
  {
    assert [4, 3][1..] == [3];
    assert [2, 1][1..] == [1];
    assert MergeSpec([4, 3], [1]) == [1] + MergeSpec([4, 3], []);
  }

  /** Merging two sorted permutations of the halves of a sorts a. */
  lemma MergeHalves(a: seq<int>, mid: int, l: seq<int>, r: seq<int>)
    requires 0 <= mid <= |a|
    requires SortedPermutation(l, a[..mid]) && SortedPermutation(r, a[mid..])
    ensures SortedPermutation(MergeSpec(l, r), a)
  {
    MergeSpecPermutation(l, r);
    MergeSpecSorted(l, r);
    Halves(a, mid);
  }

  /** The evidently intended merge sort: use the sorted halves. */
  function MergeSortFixed(a: seq<int>): (r: seq<int>)
    ensures SortedPermutation(r, a)
    decreases |a|
  {
    if |a| <= 1 then a
    else
      var mid := |a| / 2;
      var l := MergeSortFixed(a[..mid]);
      var r := MergeSortFixed(a[mid..]);
      MergeHalves(a, mid, l, r);
      MergeSpec(l, r)
  }
}
