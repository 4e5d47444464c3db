/**
  `counting_sort` of the sorting lab, on integers: find the range
  [min, max], count each value, turn the counts into running sums, then
  place every input element at the slot its running sum names, counting
  that sum down.

  The reference the placement is compared with is `Expanded(freq, lo)`:
  freq[0] copies of lo, then freq[1] copies of lo + 1, and so on. Block d
  of the output is the index range [Sum(freq[..d]), Sum(freq[..d + 1])).
 */
module CountingSort {
  import opened Wrappers
  import opened SortSpec

  /** The error the source raises on an empty list: `int(max_val - min_val)`
      is then `int(-inf - inf)`, which Python refuses with OverflowError. */
  datatype SortError = InfiniteRange

  /** How many times v occurs in s. */
  function Count(s: seq<int>, v: int): nat
  {
    multiset(s)[v]
  }

  function Sum(f: seq<int>): int
  {
    if |f| == 0 then 0 else Sum(f[..|f| - 1]) + f[|f| - 1]
  }

  function Repeat(v: int, c: int): (r: seq<int>)
    ensures |r| == if c < 0 then 0 else c
    ensures forall x :: x in r ==> x == v
    decreases c
  {
    if c <= 0 then [] else Repeat(v, c - 1) + [v]
  }

  /** freq[0] copies of lo, then freq[1] copies of lo + 1, and so on. */
  function Expanded(f: seq<int>, lo: int): seq<int>
  {
    if |f| == 0 then [] else Expanded(f[..|f| - 1], lo) + Repeat(lo + |f| - 1, f[|f| - 1])
  }

  ghost predicate NonNegative(f: seq<int>)
  {
    forall d :: 0 <= d < |f| ==> f[d] >= 0
  }

  /** All elements of s lie in [lo, hi]. */
  ghost predicate InRange(s: seq<int>, lo: int, hi: int)
  {
    forall k :: 0 <= k < |s| ==> lo <= s[k] <= hi
  }

  // -------------------------------------------------------------------
  // Facts about Sum, Repeat and Expanded.

  lemma SumStep(f: seq<int>, d: int)
    requires 0 <= d < |f|
    ensures Sum(f[..d + 1]) == Sum(f[..d]) + f[d]
  {
    assert f[..d + 1][..d] == f[..d];
  }

  /** Running sums of non-negative counts never decrease. */
  lemma {:induction false} SumMono(f: seq<int>, i: int, j: int)
    requires NonNegative(f) && 0 <= i <= j <= |f|
    ensures Sum(f[..i]) <= Sum(f[..j])
    decreases j - i
  {
    if i < j {
      SumMono(f, i, j - 1);
      SumStep(f, j - 1);
    }
  }

  lemma {:induction false} ExpandedLength(f: seq<int>, lo: int)
    requires NonNegative(f)
    ensures |Expanded(f, lo)| == Sum(f)
  {
    if |f| > 0 {
      ExpandedLength(f[..|f| - 1], lo);
    }
  }

  /** Every element of Expanded(f, lo) lies in [lo, lo + |f|). */
  lemma {:induction false} ExpandedRange(f: seq<int>, lo: int)
    ensures forall x :: x in Expanded(f, lo) ==> lo <= x < lo + |f|
  {
    if |f| > 0 {
      ExpandedRange(f[..|f| - 1], lo);
    }
  }

  lemma {:induction false} ExpandedSorted(f: seq<int>, lo: int)
    ensures Sorted(Expanded(f, lo))
  {
    if |f| > 0 {
      var a := Expanded(f[..|f| - 1], lo);
      var b := Repeat(lo + |f| - 1, f[|f| - 1]);
      ExpandedSorted(f[..|f| - 1], lo);
      ExpandedRange(f[..|f| - 1], lo);
      forall i, j | 0 <= i < j < |a + b|
        ensures (a + b)[i] <= (a + b)[j]
      {
        if j < |a| {
        } else if i < |a| {
          assert a[i] in a;
          assert b[j - |a|] in b;
        } else {
          assert b[i - |a|] in b;
          assert b[j - |a|] in b;
        }
      }
    }
  }

  lemma {:induction false} RepeatCount(v: int, c: int, w: int)
    ensures Count(Repeat(v, c), w) == if w == v && c > 0 then c else 0
    decreases c
  {
    if c > 0 {
      RepeatCount(v, c - 1, w);
      assert multiset(Repeat(v, c)) == multiset(Repeat(v, c - 1)) + multiset{v};
    }
  }

  /** The multiplicity of every value in Expanded(f, lo) is its count in f. */
  lemma {:induction false} ExpandedCount(f: seq<int>, lo: int, v: int)
    requires NonNegative(f)
    ensures Count(Expanded(f, lo), v) == if lo <= v < lo + |f| then f[v - lo] else 0
  {
    if |f| > 0 {
      var init := f[..|f| - 1];
      var w := lo + |f| - 1;
      var last := f[|f| - 1];
      var a := Expanded(init, lo);
      var b := Repeat(w, last);
      assert NonNegative(init);
      assert Count(a, v) == if lo <= v < w then f[v - lo] else 0 by {
        ExpandedCount(init, lo, v);
      }
      assert Count(b, v) == if v == w then last else 0 by {
        RepeatCount(w, last, v);
      }
      assert Expanded(f, lo) == a + b;
      assert multiset(a + b) == multiset(a) + multiset(b);
    }
  }

  /** Expanded(f[..j]) is a prefix of Expanded(f). */
  lemma {:induction false} ExpandedPrefix(f: seq<int>, lo: int, j: int)
    requires 0 <= j <= |f|
    ensures Expanded(f[..j], lo) <= Expanded(f, lo)
    decreases |f| - j
  {
    if j < |f| {
      ExpandedPrefix(f[..|f| - 1], lo, j);
      assert f[..|f| - 1][..j] == f[..j];
    } else {
      assert f[..j] == f;
    }
  }

  /** Block d of Expanded(f, lo) holds lo + d. */
  lemma ExpandedAt(f: seq<int>, lo: int, d: int, p: int)
    requires NonNegative(f) && 0 <= d < |f|
    requires 0 <= p && Sum(f[..d]) <= p < Sum(f[..d + 1])
    ensures p < |Expanded(f, lo)| && Expanded(f, lo)[p] == lo + d
  {
    var g := f[..d + 1];
    assert g[..|g| - 1] == f[..d];
    assert NonNegative(f[..d]);
    ExpandedLength(f[..d], lo);
    ExpandedPrefix(f, lo, d + 1);
    assert Expanded(g, lo) == Expanded(f[..d], lo) + Repeat(lo + d, f[d]);
    SumStep(f, d);
    assert Expanded(g, lo)[p] in Repeat(lo + d, f[d]);
  }

  /** Every index below Sum(f) lies in some block. */
  lemma {:induction false} BlockOf(f: seq<int>, p: int) returns (d: int)
    requires NonNegative(f) && 0 <= p < Sum(f)
    ensures 0 <= d < |f| && Sum(f[..d]) <= p < Sum(f[..d + 1])
  {
    var init := f[..|f| - 1];
    if p >= Sum(init) {
      d := |f| - 1;
      assert f[..d] == init && f[..d + 1] == f;
    } else {
      d := BlockOf(init, p);
      assert init[..d] == f[..d] && init[..d + 1] == f[..d + 1];
    }
  }

  /** The count of v in a suffix is at most its count in the whole list. */
  lemma SuffixCount(s: seq<int>, k: int, v: int)
    requires 0 <= k <= |s|
    ensures Count(s[k..], v) <= Count(s, v)
  {
    assert s == s[..k] + s[k..];
  }

  // -------------------------------------------------------------------
  // The four phases of counting_sort.

  /** The min/max scan. The source starts from -inf and +inf; on a
      non-empty list the first element replaces both, which is where this
      loop starts. */
  method FindRange(arr: seq<int>) returns (lo: int, hi: int)
    requires |arr| > 0
    ensures lo in arr && hi in arr
    ensures InRange(arr, lo, hi)
  {
    lo, hi := arr[0], arr[0];
    for k := 0 to |arr|
      invariant lo in arr && hi in arr
      invariant InRange(arr[..k], lo, hi)
    {
      if arr[k] > hi {
        hi := arr[k];
      }
      if arr[k] < lo {
        lo := arr[k];
      }
    }
    assert arr[..|arr|] == arr;
  }

  /** The frequency array: freq[d] counts the occurrences of lo + d. */
  method Frequencies(arr: seq<int>, lo: int, hi: int) returns (freq: seq<int>)
    requires lo <= hi && InRange(arr, lo, hi)
    ensures |freq| == hi - lo + 1
    ensures forall d :: 0 <= d < |freq| ==> freq[d] == Count(arr, lo + d)
  {
    freq := seq(hi - lo + 1, _ => 0);
    for k := 0 to |arr|
      invariant |freq| == hi - lo + 1
      invariant forall d :: 0 <= d < |freq| ==> freq[d] == Count(arr[..k], lo + d)
    {
      assert multiset(arr[..k + 1]) == multiset(arr[..k]) + multiset{arr[k]} by {
        assert arr[..k + 1] == arr[..k] + [arr[k]];
      }
      freq := freq[arr[k] - lo := freq[arr[k] - lo] + 1];
    }
    assert arr[..|arr|] == arr;
  }

  /** The running sums: cum[d] is the number of slots used by the blocks
      0..d together. */
  method CumulativeSums(freq: seq<int>) returns (cum: seq<int>)
    requires |freq| > 0
    ensures |cum| == |freq|
    ensures forall d :: 0 <= d < |cum| ==> cum[d] == Sum(freq[..d + 1])
  {
    cum := [freq[0]];
    assert freq[..1][..0] == [];
    for i := 1 to |freq|
      invariant |cum| == i
      invariant forall d :: 0 <= d < i ==> cum[d] == Sum(freq[..d + 1])
    {
      SumStep(freq, i);
      cum := cum + [cum[|cum| - 1] + freq[i]];
    }
  }

  /** After placing arr[..k], block d still has Count(arr[k..], lo + d)
      free slots at its front. */
  ghost predicate FrontsFree(arr: seq<int>, lo: int, freq: seq<int>, cum: seq<int>, k: int)
    requires 0 <= k <= |arr| && |cum| == |freq|
  {
    forall d :: 0 <= d < |freq| ==> cum[d] == Sum(freq[..d]) + Count(arr[k..], lo + d)
  }

  /** Every filled slot of block d, the slots from cum[d] to the block's
      end, holds lo + d. */
  ghost predicate BlocksFilled(lo: int, freq: seq<int>, cum: seq<int>, out: seq<int>)
    requires |cum| == |freq|
  {
    forall d, p :: 0 <= d < |freq| && cum[d] <= p < Sum(freq[..d + 1]) && 0 <= p < |out| ==> out[p] == lo + d
  }

  ghost predicate Counted(arr: seq<int>, lo: int, freq: seq<int>)
  {
    && |freq| > 0
    && NonNegative(freq)
    && Sum(freq) == |arr|
    && InRange(arr, lo, lo + |freq| - 1)
    && (forall d :: 0 <= d < |freq| ==> freq[d] == Count(arr, lo + d))
  }

  /** Placing arr[k] uses the last free slot of its block and leaves the
      other blocks' free fronts as they were. */
  lemma FrontsStep(arr: seq<int>, lo: int, freq: seq<int>, cum: seq<int>, k: int)
    requires 0 <= k < |arr| && |cum| == |freq|
    requires Counted(arr, lo, freq)
    requires FrontsFree(arr, lo, freq, cum, k)
    ensures 0 <= arr[k] - lo < |cum|
    ensures 0 <= Sum(freq[..arr[k] - lo]) <= cum[arr[k] - lo] - 1 < Sum(freq[..arr[k] - lo + 1]) <= |arr|
    ensures forall d :: 0 <= d < |freq| ==> Sum(freq[..d]) <= cum[d]
    ensures FrontsFree(arr, lo, freq, cum[arr[k] - lo := cum[arr[k] - lo] - 1], k + 1)
  {
    FrontSlot(arr, lo, freq, cum, k);
    FrontsAbove(arr, lo, freq, cum, k);
    FrontsNext(arr, lo, freq, cum, k);
  }

  lemma SuffixSplit(arr: seq<int>, k: int)
    requires 0 <= k < |arr|
    ensures multiset(arr[k..]) == multiset{arr[k]} + multiset(arr[k + 1..])
  {
    assert arr[k..] == [arr[k]] + arr[k + 1..];
  }

  /** The slot arr[k] goes to lies inside its block. */
  lemma FrontSlot(arr: seq<int>, lo: int, freq: seq<int>, cum: seq<int>, k: int)
    requires 0 <= k < |arr| && |cum| == |freq|
    requires Counted(arr, lo, freq)
    requires FrontsFree(arr, lo, freq, cum, k)
    ensures 0 <= arr[k] - lo < |cum|
    ensures 0 <= Sum(freq[..arr[k] - lo]) <= cum[arr[k] - lo] - 1 < Sum(freq[..arr[k] - lo + 1]) <= |arr|
  {
    var v := arr[k];
    var e := v - lo;
    FrontCount(arr, k);
    assert cum[e] == Sum(freq[..e]) + Count(arr[k..], v);
    assert freq[e] == Count(arr, v);
    SumStep(freq, e);
    SumMono(freq, 0, e);
    SumMono(freq, e + 1, |freq|);
    assert freq[..|freq|] == freq;
  }

  /** arr[k] occurs in arr[k..], and no more often there than in arr. */
  lemma FrontCount(arr: seq<int>, k: int)
    requires 0 <= k < |arr|
    ensures 1 <= Count(arr[k..], arr[k]) <= Count(arr, arr[k])
  {
    SuffixSplit(arr, k);
    SuffixCount(arr, k, arr[k]);
  }

  lemma FrontsAbove(arr: seq<int>, lo: int, freq: seq<int>, cum: seq<int>, k: int)
    requires 0 <= k <= |arr| && |cum| == |freq|
    requires FrontsFree(arr, lo, freq, cum, k)
    ensures forall d :: 0 <= d < |freq| ==> Sum(freq[..d]) <= cum[d]
  {
  }

  lemma FrontsNext(arr: seq<int>, lo: int, freq: seq<int>, cum: seq<int>, k: int)
    requires 0 <= k < |arr| && |cum| == |freq|
    requires Counted(arr, lo, freq)
    requires FrontsFree(arr, lo, freq, cum, k)
    ensures 0 <= arr[k] - lo < |cum|
    ensures FrontsFree(arr, lo, freq, cum[arr[k] - lo := cum[arr[k] - lo] - 1], k + 1)
  {
    SuffixSplit(arr, k);
  }

  /** Writing lo + e into the last free slot of block e keeps every block
      filled correctly. */
  lemma BlocksStep(lo: int, freq: seq<int>, cum: seq<int>, out: seq<int>, e: int, v: int)
    requires |cum| == |freq| && NonNegative(freq) && 0 <= e < |freq| && v == lo + e
    requires forall d :: 0 <= d < |freq| ==> Sum(freq[..d]) <= cum[d]
    requires 0 <= Sum(freq[..e]) <= cum[e] - 1 < Sum(freq[..e + 1]) && cum[e] - 1 < |out|
    requires BlocksFilled(lo, freq, cum, out)
    ensures BlocksFilled(lo, freq, cum[e := cum[e] - 1], out[cum[e] - 1 := v])
  {
    var pos := cum[e] - 1;
    var cum' := cum[e := pos];
    var out' := out[pos := v];
    forall d, p | 0 <= d < |freq| && cum'[d] <= p < Sum(freq[..d + 1]) && 0 <= p < |out'|
      ensures out'[p] == lo + d
    {
      if d < e {
        SumMono(freq, d + 1, e);
      } else if d > e {
        SumMono(freq, e + 1, d);
      }
    }
  }

  /** The body of the placement loop for the element arr[k]. */
  method PlaceOne(arr: seq<int>, lo: int, freq: seq<int>, cum: seq<int>, out: seq<int>, k: int)
    returns (cum': seq<int>, out': seq<int>)
    requires 0 <= k < |arr| && |cum| == |freq| && |out| == |arr|
    requires Counted(arr, lo, freq)
    requires FrontsFree(arr, lo, freq, cum, k) && BlocksFilled(lo, freq, cum, out)
    ensures |cum'| == |freq| && |out'| == |arr|
    ensures FrontsFree(arr, lo, freq, cum', k + 1) && BlocksFilled(lo, freq, cum', out')
  {
    FrontsStep(arr, lo, freq, cum, k);
    var e := arr[k] - lo;
    BlocksStep(lo, freq, cum, out, e, arr[k]);
    out' := out[cum[e] - 1 := arr[k]];
    cum' := cum[e := cum[e] - 1];
  }

  /** The placement loop: for each input element, in list order, write it at
      slot cum[val - lo] - 1 and decrement that running sum. */
  method Place(arr: seq<int>, lo: int, freq: seq<int>, cum0: seq<int>) returns (out: seq<int>)
    requires Counted(arr, lo, freq)
    requires |cum0| == |freq|
    requires forall d :: 0 <= d < |cum0| ==> cum0[d] == Sum(freq[..d + 1])
    ensures |out| == |arr|
    ensures forall d, p :: 0 <= d < |freq| && Sum(freq[..d]) <= p < Sum(freq[..d + 1]) && 0 <= p < |out| ==> out[p] == lo + d
  {
    out := seq(|arr|, _ => 0);
    var cum := cum0;
    PlaceStart(arr, lo, freq, cum, out);
    for k := 0 to |arr|
      invariant |cum| == |freq| && |out| == |arr|
      invariant FrontsFree(arr, lo, freq, cum, k) && BlocksFilled(lo, freq, cum, out)
    {
      cum, out := PlaceOne(arr, lo, freq, cum, out, k);
    }
    PlaceDone(arr, lo, freq, cum, out);
  }

  lemma PlaceStart(arr: seq<int>, lo: int, freq: seq<int>, cum: seq<int>, out: seq<int>)
    requires |cum| == |freq|
    requires forall d :: 0 <= d < |cum| ==> cum[d] == Sum(freq[..d + 1])
    requires forall d :: 0 <= d < |freq| ==> freq[d] == Count(arr, lo + d)
    ensures FrontsFree(arr, lo, freq, cum, 0) && BlocksFilled(lo, freq, cum, out)
  {
    assert arr[0..] == arr;
    forall d | 0 <= d < |freq| ensures cum[d] == Sum(freq[..d]) + Count(arr[0..], lo + d)
    {
      SumStep(freq, d);
    }
  }

  /** Once every element is placed, the free fronts are empty. */
  lemma PlaceDone(arr: seq<int>, lo: int, freq: seq<int>, cum: seq<int>, out: seq<int>)
    requires |cum| == |freq|
    requires FrontsFree(arr, lo, freq, cum, |arr|) && BlocksFilled(lo, freq, cum, out)
    ensures forall d, p :: 0 <= d < |freq| && Sum(freq[..d]) <= p < Sum(freq[..d + 1]) && 0 <= p < |out| ==> out[p] == lo + d
  {
    assert forall v :: Count(arr[|arr|..], v) == 0;
  }

  /** The counts of arr, read from lo on, describe arr completely. */
  lemma CountedFacts(arr: seq<int>, lo: int, freq: seq<int>)
    requires |freq| > 0 && InRange(arr, lo, lo + |freq| - 1)
    requires forall d :: 0 <= d < |freq| ==> freq[d] == Count(arr, lo + d)
    ensures NonNegative(freq)
    ensures multiset(Expanded(freq, lo)) == multiset(arr)
    ensures Sum(freq) == |arr|
  {
    assert NonNegative(freq);
    forall v ensures multiset(Expanded(freq, lo))[v] == multiset(arr)[v]
    {
      ExpandedCount(freq, lo, v);
      if !(lo <= v < lo + |freq|) {
        assert v !in arr;
      }
    }
    assert multiset(Expanded(freq, lo)) == multiset(arr);
    ExpandedLength(freq, lo);
    assert |multiset(Expanded(freq, lo))| == |multiset(arr)|;
  }

  /** `counting_sort(arr)`: the empty list raises; any other list of
      integers comes back sorted, holding the same elements, laid out as
      the count blocks of its value range. */
  method CountingSort(arr: seq<int>) returns (r: Result<seq<int>, SortError>)
    ensures r.Failure? <==> |arr| == 0
    ensures r.Success? ==> SortedPermutation(r.value, arr)
  {
    if |arr| == 0 {
      return Failure(InfiniteRange);
    }
    var lo, hi := FindRange(arr);
    var freq := Frequencies(arr, lo, hi);
    var cum := CumulativeSums(freq);
    CountedFacts(arr, lo, freq);
    var out := Place(arr, lo, freq, cum);
    assert out == Expanded(freq, lo) by {
      ExpandedLength(freq, lo);
      forall p | 0 <= p < |out| ensures out[p] == Expanded(freq, lo)[p]
      {
        var d := BlockOf(freq, p);
        ExpandedAt(freq, lo, d, p);
      }
    }
    ExpandedSorted(freq, lo);
    r := Success(out);
  }
}
