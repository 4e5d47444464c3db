/**
  The five primality-table variants of the third lab. Each builds a list of
  n + 1 booleans where entry k says "k is prime"; they differ in how they
  strike composites out and in what they leave at index 0.
 */
module Sieves {
  import opened Wrappers

  /** d divides k (d is never 0 where this is used). */
  predicate Divides(d: int, k: int)
  {
    d != 0 && k % d == 0
  }

  /** No d with lo <= d < hi divides k. */
  ghost predicate NoDivisorIn(k: int, lo: int, hi: int)
  {
    forall d :: lo <= d < hi ==> !Divides(d, k)
  }

  ghost predicate IsPrime(k: int)
  {
    k >= 2 && NoDivisorIn(k, 2, k)
  }

  /** The common shape of every variant's result: n + 1 entries, entry k
      (1 <= k <= n) is true exactly for primes, and entry 0 is `zero`. */
  ghost predicate IsPrimeTable(c: seq<bool>, n: int, zero: bool)
  {
    && n >= 0
    && |c| == n + 1
    && c[0] == zero
    && forall k :: 1 <= k <= n ==> (c[k] <==> IsPrime(k))
  }

  /** The smaller of two integers. */
  function Min(a: int, b: int): (r: int)
    ensures r <= a && r <= b && (r == a || r == b)
  {
    if a < b then a else b
  }

  // Small facts about multiplication and Euclidean division.

  lemma DivExact(d: int, k: int)
    requires d > 0 && k % d == 0
    ensures k == d * (k / d)
  {
  }

  lemma MulLeMono(a: int, x: int, y: int)
    requires a >= 0 && x <= y
    ensures a * x <= a * y
  {
  }

  /** Every multiple d * m is divisible by d. */
  lemma MultipleDivisible(d: int, m: int)
    requires d > 0
    ensures Divides(d, d * m)
  {
    var k := d * m;
    var q, r := k / d, k % d;
    assert k == d * q + r;
    assert d * (m - q) == r;
    if m - q >= 1 {
      MulLeMono(d, 1, m - q);
    }
    if m - q <= -1 {
      MulLeMono(d, m - q, -1);
    }
  }

  /** Divisibility is transitive: d | i and i | k give d | k. */
  lemma DividesTransitive(d: int, i: int, k: int)
    requires d > 0 && i > 0
    requires Divides(d, i) && Divides(i, k)
    ensures Divides(d, k)
  {
    var q := i / d;
    var r := k / i;
    DivExact(d, i);
    DivExact(i, k);
    assert k == (d * q) * r;
    assert k == d * (q * r);
    MultipleDivisible(d, q * r);
  }

  /** No multiple of i lies strictly between i * m and i * (m + 1). */
  lemma NoMultipleBetween(i: int, m: int, k: int)
    requires i > 0 && Divides(i, k)
    ensures k <= i * m || i * m + i <= k
  {
    var q := k / i;
    DivExact(i, k);
    if q <= m {
      MulLeMono(i, q, m);
    } else {
      MulLeMono(i, m + 1, q);
    }
  }

  lemma NoDivisorStep(k: int, lo: int, hi: int)
    requires lo <= hi
    ensures NoDivisorIn(k, lo, hi + 1) <==> NoDivisorIn(k, lo, hi) && !Divides(hi, k)
  {
  }

  /** Striking out the proper multiples of i keeps the marking invariant:
      NoDivisorIn(k, 2, Min(i + 1, k)) is NoDivisorIn(k, 2, Min(i, k)) with
      the extra test "i does not properly divide k". */
  lemma ExtendBound(k: int, i: int)
    requires 2 <= i && 2 <= k
    ensures NoDivisorIn(k, 2, Min(i + 1, k))
        <==> NoDivisorIn(k, 2, Min(i, k)) && !(Divides(i, k) && i < k)
  {
  }

  /** If i is composite, each multiple k > i already has a smaller divisor,
      so striking out multiples of i changes nothing. */
  lemma CompositeMultiple(k: int, i: int)
    requires 2 <= i < k
    requires !NoDivisorIn(i, 2, i)
    requires Divides(i, k)
    ensures !NoDivisorIn(k, 2, Min(i, k))
  {
    var d :| 2 <= d < i && Divides(d, i);
    DividesTransitive(d, i, k);
  }

  /** The marking invariant shared by the striking-out variants (1, 2, 3):
      after all i' < i are processed, a k >= 2 is still marked exactly when
      no d in [2, min(i, k)) divides it. */
  ghost predicate Marked(c: seq<bool>, n: int, i: int)
    requires |c| == n + 1
  {
    forall k :: 2 <= k <= n ==> (c[k] <==> NoDivisorIn(k, 2, Min(i, k)))
  }

  lemma MarkedDone(c: seq<bool>, n: int, i: int)
    requires |c| == n + 1 && i > n
    requires Marked(c, n, i)
    ensures forall k :: 2 <= k <= n ==> (c[k] <==> IsPrime(k))
  {
  }

  /** The inner loop of variants 1 and 2: strikes out 2i, 3i, ... <= n. */
  method StrikeMultiples(c0: seq<bool>, n: int, i: int) returns (c: seq<bool>)
    requires 2 <= i <= n && |c0| == n + 1
    ensures |c| == n + 1
    ensures c[0] == c0[0] && c[1] == c0[1]
    ensures forall k :: 2 <= k <= n ==> (c[k] <==> c0[k] && !(Divides(i, k) && i < k))
  {
    c := c0;
    var j := 2 * i;
    ghost var m := 2;
    while j <= n
      invariant |c| == n + 1
      invariant 2 <= m && j == i * m
      invariant c[0] == c0[0] && c[1] == c0[1]
      invariant forall k :: 2 <= k <= n ==> (c[k] <==> c0[k] && !(Divides(i, k) && i < k < j))
    {
      c := c[j := false];
      MultipleDivisible(i, m);
      forall k | 2 <= k <= n && Divides(i, k)
        ensures k <= j || j + i <= k
      {
        NoMultipleBetween(i, m, k);
      }
      j := j + i;
      m := m + 1;
    }
  }

  /** `algorithm_1`: the sieve of Eratosthenes, striking multiples of every
      i still marked. Index 0 is never touched and stays true. */
  method Algorithm1(n: int) returns (r: Option<seq<bool>>)
    ensures r.None? <==> n < 1
    ensures r.Some? ==> IsPrimeTable(r.value, n, true)
  {
    if n < 1 {
      return None;
    }
    var c := seq(n + 1, _ => true);
    c := c[1 := false];
    var i := 2;
    while i <= n
      invariant 2 <= i <= n + 1
      invariant |c| == n + 1
      invariant c[0] && !c[1]
      invariant Marked(c, n, i)
    {
      if c[i] {
        var c' := StrikeMultiples(c, n, i);
        forall k | 2 <= k <= n
          ensures c'[k] <==> NoDivisorIn(k, 2, Min(i + 1, k))
        {
          ExtendBound(k, i);
        }
        c := c';
      } else {
        forall k | 2 <= k <= n
          ensures c[k] <==> NoDivisorIn(k, 2, Min(i + 1, k))
        {
          ExtendBound(k, i);
          if Divides(i, k) && i < k {
            CompositeMultiple(k, i);
          }
        }
      }
      i := i + 1;
    }
    MarkedDone(c, n, i);
    r := Some(c);
  }

  /** `algorithm_2`: strikes the multiples of every i, marked or not. */
  method Algorithm2(n: int) returns (r: Option<seq<bool>>)
    ensures r.None? <==> n < 1
    ensures r.Some? ==> IsPrimeTable(r.value, n, true)
  {
    if n < 1 {
      return None;
    }
    var c := seq(n + 1, _ => true);
    c := c[1 := false];
    var i := 2;
    while i <= n
      invariant 2 <= i <= n + 1
      invariant |c| == n + 1
      invariant c[0] && !c[1]
      invariant Marked(c, n, i)
    {
      var c' := StrikeMultiples(c, n, i);
      forall k | 2 <= k <= n
        ensures c'[k] <==> NoDivisorIn(k, 2, Min(i + 1, k))
      {
        ExtendBound(k, i);
        if Divides(i, k) && i < k && !NoDivisorIn(i, 2, i) {
          CompositeMultiple(k, i);
        }
      }
      c := c';
      i := i + 1;
    }
    MarkedDone(c, n, i);
    r := Some(c);
  }

  /** `algorithm_3`: clears c[0] and c[1], and for each marked i scans every
      j > i, striking the ones i divides. */
  method Algorithm3(n: int) returns (r: Option<seq<bool>>)
    ensures r.None? <==> n < 1
    ensures r.Some? ==> IsPrimeTable(r.value, n, false)
  {
    if n < 1 {
      return None;
    }
    var c := seq(n + 1, _ => true);
    c := c[0 := false][1 := false];
    var i := 2;
    while i <= n
      invariant 2 <= i <= n + 1
      invariant |c| == n + 1
      invariant !c[0] && !c[1]
      invariant Marked(c, n, i)
    {
      if c[i] {
        var c0 := c;
        var j := i + 1;
        while j <= n
          invariant i + 1 <= j <= n + 1
          invariant |c| == n + 1
          invariant !c[0] && !c[1]
          invariant forall k :: 2 <= k <= n ==> (c[k] <==> c0[k] && !(Divides(i, k) && i < k < j))
        {
          if j % i == 0 {
            c := c[j := false];
          }
          j := j + 1;
        }
        forall k | 2 <= k <= n
          ensures c[k] <==> NoDivisorIn(k, 2, Min(i + 1, k))
        {
          ExtendBound(k, i);
        }
      } else {
        forall k | 2 <= k <= n
          ensures c[k] <==> NoDivisorIn(k, 2, Min(i + 1, k))
        {
          ExtendBound(k, i);
          if Divides(i, k) && i < k {
            CompositeMultiple(k, i);
          }
        }
      }
      i := i + 1;
    }
    MarkedDone(c, n, i);
    r := Some(c);
  }

  /** `algorithm_4`: trial division of each i by every j in [2, i), leaving
      the inner loop at the first divisor. Index 0 stays true. */
  method Algorithm4(n: int) returns (r: Option<seq<bool>>)
    ensures r.None? <==> n < 1
    ensures r.Some? ==> IsPrimeTable(r.value, n, true)
  {
    if n < 1 {
      return None;
    }
    var c := seq(n + 1, _ => true);
    c := c[1 := false];
    var i := 2;
    while i <= n
      invariant 2 <= i <= n + 1
      invariant |c| == n + 1
      invariant c[0] && !c[1]
      invariant forall k :: 2 <= k < i ==> (c[k] <==> IsPrime(k))
      invariant forall k :: i <= k <= n ==> c[k]
    {
      var j := 2;
      var isPrime := true;
      while j < i
        invariant 2 <= j <= i
        invariant isPrime <==> NoDivisorIn(i, 2, j)
        invariant !isPrime ==> j < i
        decreases i - j, isPrime
      {
        if i % j == 0 {
          isPrime := false;
          break;
        }
        j := j + 1;
      }
      if isPrime {
        assert j == i;
      } else {
        assert Divides(j, i) && 2 <= j < i;
      }
      assert isPrime <==> IsPrime(i);
      if !isPrime {
        c := c[i := false];
      }
      i := i + 1;
    }
    r := Some(c);
  }

  /** A composite k has a divisor d with d * d <= k. */
  lemma SmallDivisor(k: int, e: int)
    requires 2 <= e < k && Divides(e, k)
    ensures exists d :: 2 <= d && d * d <= k && Divides(d, k)
  {
    var f := k / e;
    DivExact(e, k);
    if f <= 1 {
      MulLeMono(e, f, 1);
    }
    assert k == f * e;
    MultipleDivisible(f, e);
    if e <= f {
      MulLeMono(e, e, f);
    } else {
      MulLeMono(f, f, e);
    }
  }

  /** A divisor d >= 2 with d * d <= i is a proper divisor. */
  lemma SmallDivisorIsProper(i: int, d: int)
    requires 2 <= d && d * d <= i
    ensures d < i
  {
    MulLeMono(d, 2, d);
  }

  /** i >= 2 is composite exactly when some d >= 2 with d * d <= i divides it. */
  lemma CompositeIffSmallDivisor(i: int)
    requires i >= 2
    ensures !IsPrime(i) <==> exists d :: 2 <= d && d * d <= i && Divides(d, i)
  {
    if !IsPrime(i) {
      var e :| 2 <= e < i && Divides(e, i);
      SmallDivisor(i, e);
    }
    if exists d :: 2 <= d && d * d <= i && Divides(d, i) {
      var d :| 2 <= d && d * d <= i && Divides(d, i);
      SmallDivisorIsProper(i, d);
    }
  }

  /** In a prime table, entry i (i >= 2) is false exactly when a divisor
      d >= 2 with d * d <= i exists: the test `algorithm_5` runs. */
  lemma TableBySmallDivisors(c: seq<bool>, n: int)
    requires IsPrimeTable(c, n, false)
    ensures forall i :: 2 <= i <= n ==> (!c[i] <==> exists j :: 2 <= j && j * j <= i && Divides(j, i))
  {
    forall i | 2 <= i <= n
      ensures !c[i] <==> exists j :: 2 <= j && j * j <= i && Divides(j, i)
    {
      CompositeIffSmallDivisor(i);
    }
  }

  /** Trial division by every d < j, where j is the first number with
      j * j > i, decides primality. */
  lemma SqrtBoundSuffices(i: int, j: int)
    requires 2 <= i && 2 <= j && i < j * j
    requires (j - 1) * (j - 1) <= i
    ensures NoDivisorIn(i, 2, j) <==> IsPrime(i)
  {
    if NoDivisorIn(i, 2, j) {
      SqrtBoundComplete(i, j);
    }
    if IsPrime(i) {
      SqrtBoundSound(i, j);
    }
  }

  /** No divisor below j, where i < j * j, leaves i prime. */
  lemma SqrtBoundComplete(i: int, j: int)
    requires 2 <= i && 2 <= j && i < j * j && NoDivisorIn(i, 2, j)
    ensures IsPrime(i)
  {
    if !IsPrime(i) {
      CompositeIffSmallDivisor(i);
      var d :| 2 <= d && d * d <= i && Divides(d, i);
      if d >= j {
        MulLeMono(d, j, d);
        MulLeMono(j, j, d);
      }
    }
  }

  /** A prime i with (j - 1)^2 <= i has no divisor in [2, j). */
  lemma SqrtBoundSound(i: int, j: int)
    requires 2 <= i && 2 <= j && (j - 1) * (j - 1) <= i && IsPrime(i)
    ensures NoDivisorIn(i, 2, j)
  {
    if !NoDivisorIn(i, 2, j) {
      var d :| 2 <= d < j && Divides(d, i);
      if d >= i {
        MulLeMono(d, d, j - 1);
        MulLeMono(j - 1, d, j - 1);
        MulLeMono(d, 2, d);
      }
    }
  }


  /** The inner loop of `algorithm_5`: clears c[i] for every divisor j of i
      with j * j <= i, touching no other entry. */
  method TrialDivideToSqrt(c0: seq<bool>, n: int, i: int) returns (c: seq<bool>)
    requires 2 <= i <= n && |c0| == n + 1
    ensures |c| == n + 1
    ensures forall k :: 0 <= k <= n && k != i ==> c[k] == c0[k]
    ensures c[i] <==> c0[i] && IsPrime(i)
  {
    c := c0;
    var j := 2;
    while j * j <= i
      invariant 2 <= j
      invariant (j - 1) * (j - 1) <= i
      invariant |c| == n + 1
      invariant forall k :: 0 <= k <= n && k != i ==> c[k] == c0[k]
      invariant c[i] <==> c0[i] && NoDivisorIn(i, 2, j)
      decreases i - j
    {
      SmallDivisorIsProper(i, j);
      NoDivisorStep(i, 2, j);
      if i % j == 0 {
        c := c[i := false];
      }
      j := j + 1;
    }
    SqrtBoundSuffices(i, j);
  }

  /** `algorithm_5`: trial division of i by every j with j <= sqrt(i),
      written here as j * j <= i; it keeps testing after a divisor is found.
      Sets c[0] and c[1] false like `algorithm_3`. */
  method Algorithm5(n: int) returns (r: Option<seq<bool>>)
    ensures r.None? <==> n < 1
    ensures r.Some? ==> IsPrimeTable(r.value, n, false)
    ensures r.Some? ==> forall i :: 2 <= i <= n ==> (!r.value[i] <==> exists j :: 2 <= j && j * j <= i && Divides(j, i))
  {
    if n < 1 {
      return None;
    }
    var c := seq(n + 1, _ => true);
    c := c[0 := false][1 := false];
    var i := 2;
    while i <= n
      invariant 2 <= i <= n + 1
      invariant |c| == n + 1
      invariant !c[0] && !c[1]
      invariant forall k :: 2 <= k < i ==> (c[k] <==> IsPrime(k))
      invariant forall k :: i <= k <= n ==> c[k]
    {
      c := TrialDivideToSqrt(c, n, i);
      i := i + 1;
    }
    TableBySmallDivisors(c, n);
    r := Some(c);
  }

  /** Two tables with the same entry at 0 are equal: so variants 1, 2 and 4
      return the same list, and so do variants 3 and 5. */
  lemma PrimeTableUnique(c1: seq<bool>, c2: seq<bool>, n: int, zero: bool)
    requires IsPrimeTable(c1, n, zero) && IsPrimeTable(c2, n, zero)
    ensures c1 == c2
  {
  }

  /** Variants that disagree at index 0 agree everywhere else. */
  lemma PrimeTablesDifferOnlyAtZero(c1: seq<bool>, c2: seq<bool>, n: int)
    requires IsPrimeTable(c1, n, true) && IsPrimeTable(c2, n, false)
    ensures c1[1..] == c2[1..]
    ensures c1 != c2
  {
  }
}
