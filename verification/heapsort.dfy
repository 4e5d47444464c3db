/**
  `heap_sort` of the sorting lab: build a max heap in place, then move the
  root behind the shrinking heap and sift the new root down. The list is
  threaded through as a value; `n` is the heap size.
 */
module HeapSort {
  import opened SortSpec

  function Swap(s: seq<int>, a: int, b: int): (r: seq<int>)
    requires 0 <= a < |s| && 0 <= b < |s|
    ensures |r| == |s| && r[a] == s[b] && r[b] == s[a]
    ensures forall k :: 0 <= k < |s| && k != a && k != b ==> r[k] == s[k]
  {
    s[a := s[b]][b := s[a]]
  }

  /** Node k is at least as large as each of its children inside the heap. */
  ghost predicate HeapAt(s: seq<int>, n: int, k: int)
    requires 0 <= k && n <= |s|
  {
    && (2 * k + 1 < n ==> s[2 * k + 1] <= s[k])
    && (2 * k + 2 < n ==> s[2 * k + 2] <= s[k])
  }

  /** The max-heap property holds at every node of [lo, n). */
  ghost predicate HeapFrom(s: seq<int>, n: int, lo: int)
    requires 0 <= lo && n <= |s|
  {
    forall k :: lo <= k < n ==> HeapAt(s, n, k)
  }

  /** The index `largest` that `heapify` picks among i and its two children;
      a child replaces the current choice only when strictly larger. */
  function Largest(s: seq<int>, n: int, i: int): (c: int)
    requires 0 <= i && 0 <= n <= |s|
    ensures c == i || (i < c < n && (c == 2 * i + 1 || c == 2 * i + 2) && s[c] > s[i])
    ensures i < n ==> HeapAt(s[i := s[c]], n, i)
    ensures c != i ==> forall ch :: ch == 2 * i + 1 || ch == 2 * i + 2 ==> ch < n ==> s[ch] <= s[c]
  {
    var left := 2 * i + 1;
    var right := 2 * i + 2;
    var l := if left < n && s[left] > s[i] then left else i;
    if right < n && s[right] > s[l] then right else l
  }

  lemma SwapPrefixMultiset(s: seq<int>, n: int, a: int, b: int)
    requires 0 <= a < n && 0 <= b < n && n <= |s|
    ensures multiset(Swap(s, a, b)[..n]) == multiset(s[..n])
  {
    var t := Swap(s, a, b);
    assert t[..n] == s[..n][a := s[b]][b := s[a]];
  }

  /** `heapify(arr, n, i)`: sift s[i] down inside the heap s[..n]. Only the
      heap part is permuted; the entries from n on stay where they are. */
  function Heapify(s: seq<int>, n: int, i: int): (r: seq<int>)
    requires 0 <= i && 0 <= n <= |s|
    ensures |r| == |s|
    ensures multiset(r[..n]) == multiset(s[..n])
    ensures forall y :: n <= y < |s| ==> r[y] == s[y]
    decreases n - i
  {
    var c := Largest(s, n, i);
    if c == i then s
    else
      SwapPrefixMultiset(s, n, i, c);
      Heapify(Swap(s, i, c), n, c)
  }

  /** Swapping i with its larger child c leaves every node other than c
      in order. */
  lemma SwapKeepsHeap(s: seq<int>, n: int, i: int, c: int, lo: int)
    requires 0 <= lo <= i && 0 <= n <= |s| && c != i && c == Largest(s, n, i)
    requires forall k :: lo <= k < n && k != i ==> HeapAt(s, n, k)
    requires i > 0 && lo <= (i - 1) / 2 ==>
      forall ch :: (ch == 2 * i + 1 || ch == 2 * i + 2) && ch < n ==> s[ch] <= s[(i - 1) / 2]
    ensures forall k :: lo <= k < n && k != c ==> HeapAt(Swap(s, i, c), n, k)
  {
    var t := Swap(s, i, c);
    forall k | lo <= k < n && k != c
      ensures HeapAt(t, n, k)
    {
      if k == i {
      } else if i > 0 && k == (i - 1) / 2 {
        assert HeapAt(s, n, k);
      } else {
        assert HeapAt(s, n, k);
        assert 2 * k + 1 != i && 2 * k + 2 != i;
        assert 2 * k + 1 != c && 2 * k + 2 != c;
      }
    }
  }

  /** Sifting down at i repairs a heap that is broken only at i, provided
      the parent of i (when it lies in the heap range) dominates the
      children of i. */
  lemma {:induction false} HeapifyRestores(s: seq<int>, n: int, i: int, lo: int)
    requires 0 <= lo <= i && 0 <= n <= |s|
    requires forall k :: lo <= k < n && k != i ==> HeapAt(s, n, k)
    requires i > 0 && lo <= (i - 1) / 2 ==>
      forall ch :: (ch == 2 * i + 1 || ch == 2 * i + 2) && ch < n ==> s[ch] <= s[(i - 1) / 2]
    ensures HeapFrom(Heapify(s, n, i), n, lo)
    decreases n - i
  {
    var c := Largest(s, n, i);
    if c == i {
      if i < n {
        assert s[i := s[c]] == s;
      }
    } else {
      var t := Swap(s, i, c);
      SwapKeepsHeap(s, n, i, c, lo);
      assert (c - 1) / 2 == i;
      assert HeapAt(s, n, c);
      HeapifyRestores(t, n, c, lo);
    }
  }

  /** The root of a heap is its largest element. */
  lemma {:induction false} HeapRootMax(s: seq<int>, n: int, k: int)
    requires 0 <= n <= |s| && HeapFrom(s, n, 0)
    requires 0 <= k < n
    ensures s[k] <= s[0]
    decreases k
  {
    if k > 0 {
      var p := (k - 1) / 2;
      assert HeapAt(s, n, p);
      HeapRootMax(s, n, p);
    }
  }

  /** `build_max_heap`: heapify every inner node, last one first. The
      nodes from n / 2 on have no children, so they start out as heaps. */
  method BuildMaxHeap(a: seq<int>) returns (s: seq<int>)
    ensures |s| == |a| && multiset(s) == multiset(a)
    ensures HeapFrom(s, |s|, 0)
  {
    s := a;
    var n := |s|;
    var i := n / 2;
    assert HeapFrom(s, n, i) by {
      forall k | i <= k < n ensures HeapAt(s, n, k) { assert 2 * k + 1 >= n; }
    }
    while i > 0
      invariant 0 <= i <= n / 2 && |s| == n && multiset(s) == multiset(a)
      invariant HeapFrom(s, n, i)
    {
      i := i - 1;
      HeapifyRestores(s, n, i, i);
      assert s[..n] == s;
      s := Heapify(s, n, i);
      assert s[..n] == s;
    }
  }

  /** The state between extraction rounds with heap size m: a heap in front,
      a sorted tail behind it, and nothing in front above anything behind. */
  ghost predicate Extracted(s: seq<int>, m: int)
    requires 0 <= m <= |s|
  {
    && HeapFrom(s, m, 0)
    && (forall x, y :: m <= x < y < |s| ==> s[x] <= s[y])
    && (forall x, y :: 0 <= x < m <= y < |s| ==> s[x] <= s[y])
  }

  /** Swapping the root to position i leaves the heap on [0, i) broken at
      most at the root. */
  lemma SwapRootHeap(s: seq<int>, i: int)
    requires 1 <= i < |s| && HeapFrom(s, i + 1, 0)
    ensures forall k :: 0 < k < i ==> HeapAt(Swap(s, 0, i), i, k)
  {
    var t := Swap(s, 0, i);
    forall k | 0 < k < i ensures HeapAt(t, i, k) { assert HeapAt(s, i + 1, k); }
  }

  /** A permutation of a prefix keeps every bound on its elements. */
  lemma PrefixBound(t: seq<int>, r: seq<int>, i: int, bound: int)
    requires 0 <= i <= |t| && i <= |r|
    requires multiset(r[..i]) == multiset(t[..i])
    requires forall x :: 0 <= x < i ==> t[x] <= bound
    ensures forall x :: 0 <= x < i ==> r[x] <= bound
  {
    forall x | 0 <= x < i ensures r[x] <= bound
    {
      assert r[x] in multiset(r[..i]);
      var x' :| 0 <= x' < i && t[..i][x'] == r[x];
    }
  }

  lemma SplitMultiset(s: seq<int>, i: int)
    requires 0 <= i <= |s|
    ensures multiset(s) == multiset(s[..i]) + multiset(s[i..])
  {
    assert s == s[..i] + s[i..];
  }

  lemma SwapKeepsElements(s: seq<int>, a: int, b: int)
    requires 0 <= a < |s| && 0 <= b < |s|
    ensures multiset(Swap(s, a, b)) == multiset(s)
  {
    SwapPrefixMultiset(s, |s|, a, b);
    assert Swap(s, a, b)[..|s|] == Swap(s, a, b);
    assert s[..|s|] == s;
  }

  lemma HeapifyKeepsElements(s: seq<int>, n: int, i: int)
    requires 0 <= i && 0 <= n <= |s|
    ensures multiset(Heapify(s, n, i)) == multiset(s)
  {
    var r := Heapify(s, n, i);
    assert r[n..] == s[n..];
    SplitMultiset(s, n);
    SplitMultiset(r, n);
  }

  /** One extraction round keeps the elements of the list. */
  lemma ExtractKeepsElements(s: seq<int>, i: int)
    requires 1 <= i < |s|
    ensures multiset(Heapify(Swap(s, 0, i), i, 0)) == multiset(s)
  {
    SwapKeepsElements(s, 0, i);
    HeapifyKeepsElements(Swap(s, 0, i), i, 0);
  }

  /** One extraction round keeps the extraction state, one slot further. */
  lemma ExtractStep(s: seq<int>, i: int)
    requires 1 <= i < |s| && Extracted(s, i + 1)
    ensures Extracted(Heapify(Swap(s, 0, i), i, 0), i)
  {
    var t := Swap(s, 0, i);
    var r := Heapify(t, i, 0);
    assert HeapFrom(r, i, 0) by {
      SwapRootHeap(s, i);
      HeapifyRestores(t, i, 0, 0);
    }
    assert forall x :: 0 <= x < i ==> r[x] <= t[i] by {
      forall k | 0 <= k < i ensures t[k] <= t[i]
      {
        if k == 0 { HeapRootMax(s, i + 1, i); } else { HeapRootMax(s, i + 1, k); }
      }
      PrefixBound(t, r, i, t[i]);
    }
    assert forall y :: i < y < |s| ==> t[i] <= r[y] by {
      forall y | i < y < |s| ensures t[i] <= r[y] { assert s[0] <= s[y]; }
    }
    assert forall x, y :: i <= x < y < |s| ==> r[x] <= r[y] by {
      forall x, y | i <= x < y < |s| ensures r[x] <= r[y]
      {
        if x > i { assert s[x] <= s[y]; }
      }
    }
  }

  /** With at most one element left in the heap the whole list is sorted. */
  lemma ExtractedSorted(s: seq<int>, m: int)
    requires 0 <= m <= 1 && m <= |s| && Extracted(s, m)
    ensures Sorted(s)
  {
  }

  /** `heap_sort(arr)`: returns a sorted permutation of the input. */
  method HeapSort(a: seq<int>) returns (s: seq<int>)
    ensures SortedPermutation(s, a)
  {
    s := BuildMaxHeap(a);
    var n := |s|;
    var i := n - 1;
    while i > 0
      invariant -1 <= i < n && |s| == n && multiset(s) == multiset(a)
      invariant Extracted(s, i + 1)
    {
      ExtractStep(s, i);
      ExtractKeepsElements(s, i);
      s := Heapify(Swap(s, 0, i), i, 0);
      i := i - 1;
    }
    ExtractedSorted(s, i + 1);
  }
}
