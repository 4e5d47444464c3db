/**
  Integer Fibonacci variants of the first lab: the (broken) two-variable
  loop, the two list-building loops and the logarithmic power routine over
  the ring Z[phi], where phi * phi == phi + 1.
 */
module Fibonacci {
  import opened Wrappers

  /** The Fibonacci numbers: F(0) = 0, F(1) = 1, F(k) = F(k-1) + F(k-2). */
  function Fib(n: nat): nat
  {
    if n < 2 then n else Fib(n - 1) + Fib(n - 2)
  }

  /** What `fib[n]` evaluates to in the list-building variants: Python reads
      a negative index from the end of the two-element list `[0, 1]`. */
  ghost function ListFibResult(n: int): int
    requires n >= -2
  {
    if n >= 0 then Fib(n) else if n == -1 then 1 else 0
  }

  // ---------------------------------------------------------------------
  // iterative_fib, as written: both accumulators start at 0.

  method IterativeFib(n: int) returns (r: int)
    ensures r == 0
  {
    var i, j := 0, 0;
    var k := 0;
    while k < n
      invariant i == 0 && j == 0
    {
      j := i + j;
      i := j - i;
      k := k + 1;
    }
    r := j;
  }

  /** Running the as-written loop on any n >= 1 misses F(n), which is
      positive; n = 1 returns 0 instead of F(1) = 1. */
  method IterativeFibDiffers(n: int) returns (r: int)
    requires n >= 1
    ensures r != Fib(n)
  {
    r := IterativeFib(n);
    FibPositive(n);
  }

  lemma {:induction false} FibPositive(n: nat)
    requires n >= 1
    ensures Fib(n) > 0
  {
    if n > 2 {
      FibPositive(n - 1);
    }
  }

  /** The same loop with the evidently intended start (i, j) = (1, 0), that is
      (F(-1), F(0)): after k rounds j == F(k) and i == F(k-1). */
  method IterativeFibCorrected(n: int) returns (r: int)
    ensures n >= 0 ==> r == Fib(n)
    ensures n < 0 ==> r == 0
  {
    var i, j := 1, 0;
    var k := 0;
    while k < n
      invariant 0 <= k
      invariant n >= 0 ==> k <= n
      invariant n < 0 ==> k == 0
      invariant j == Fib(k)
      invariant k == 0 ==> i == 1
      invariant k >= 1 ==> i == Fib(k - 1)
    {
      j := i + j;
      i := j - i;
      k := k + 1;
    }
    r := j;
  }

  // ---------------------------------------------------------------------
  // iterative_fib_with_memoization and fibonacci_dynamic: grow the list
  // [0, 1] to n + 1 entries and read entry n.

  /** Python's `xs[n]` on a list of length `len`: negative indices count
      from the end; anything outside [-len, len) raises IndexError. */
  function PyIndex(len: nat, n: int): (k: int)
    requires 0 <= len + n && n < len
    ensures 0 <= k < len
    ensures n >= 0 ==> k == n
    ensures n < 0 ==> k + (-n) == len
  {
    if n >= 0 then n else len + n
  }

  /** None stands for the IndexError of `fib[n]` when n < -2. */
  method IterativeFibWithMemoization(n: int) returns (r: Option<int>)
    ensures r.None? <==> n < -2
    ensures r.Some? ==> r.value == ListFibResult(n)
    ensures n >= 0 ==> r == Some(Fib(n))
  {
    var fib := [0, 1];
    var i := 2;
    while i < n + 1
      invariant 2 <= i
      invariant |fib| == i
      invariant n >= 1 ==> i <= n + 1
      invariant n < 1 ==> i == 2
      invariant forall k :: 0 <= k < i ==> fib[k] == Fib(k)
    {
      fib := fib + [fib[i - 1] + fib[i - 2]];
      i := i + 1;
    }
    if n < -|fib| {
      return None;
    }
    r := Some(fib[PyIndex(|fib|, n)]);
  }

  method FibonacciDynamic(num: int) returns (r: Option<int>)
    ensures r.None? <==> num < -2
    ensures r.Some? ==> r.value == ListFibResult(num)
    ensures num >= 0 ==> r == Some(Fib(num))
  {
    var fibonacci := [0, 1];
    for i := 2 to if num + 1 < 2 then 2 else num + 1
      invariant |fibonacci| == i
      invariant forall k :: 0 <= k < i ==> fibonacci[k] == Fib(k)
    {
      fibonacci := fibonacci + [fibonacci[i - 1] + fibonacci[i - 2]];
    }
    if num < -|fibonacci| {
      return None;
    }
    r := Some(fibonacci[PyIndex(|fibonacci|, num)]);
  }

  // ---------------------------------------------------------------------
  // eigen_fib_optimized: the pair (a, b) stands for a * phi + b.

  datatype Phi = Phi(a: int, b: int)

  /** `multiply`: (a phi + b)(x phi + y), reduced with phi^2 = phi + 1. */
  function Multiply(p: Phi, q: Phi): Phi
  {
    Phi(q.a * (p.a + p.b) + p.a * q.b, p.a * q.a + p.b * q.b)
  }

  /** `square`: the source doubles `a * b` with a left shift by one bit,
      which on Python's unbounded integers is multiplication by 2. */
  function Square(p: Phi): (r: Phi)
    ensures r == Multiply(p, p)
  {
    Phi(p.a * p.a + (p.a * p.b) * 2, p.a * p.a + p.b * p.b)
  }

  /** A 2x2 integer matrix [[m00, m01], [m10, m11]]. */
  datatype Mat = Mat(m00: int, m01: int, m10: int, m11: int)

  function MatMul(x: Mat, y: Mat): Mat
  {
    Mat(x.m00 * y.m00 + x.m01 * y.m10, x.m00 * y.m01 + x.m01 * y.m11,
        x.m10 * y.m00 + x.m11 * y.m10, x.m10 * y.m01 + x.m11 * y.m11)
  }

  /** a phi + b acts on the basis (phi, 1) as the matrix a Q + b I, where
      Q = [[1, 1], [1, 0]] is the Fibonacci matrix. */
  function ToMat(p: Phi): Mat
  {
    Mat(p.a + p.b, p.a, p.a, p.b)
  }

  /** The pair arithmetic agrees with matrix multiplication: `multiply` is
      the product in Z[phi], the ring generated by the Fibonacci matrix. */
  lemma MultiplyIsMatrixProduct(p: Phi, q: Phi)
    ensures ToMat(Multiply(p, q)) == MatMul(ToMat(p), ToMat(q))
  {
  }

  lemma MultiplyCommutes(p: Phi, q: Phi)
    ensures Multiply(p, q) == Multiply(q, p)
  {
  }

  lemma MultiplyAssociates(p: Phi, q: Phi, s: Phi)
    ensures Multiply(Multiply(p, q), s) == Multiply(p, Multiply(q, s))
  {
    var pq := Multiply(p, q);
    var qs := Multiply(q, s);
    assert Multiply(pq, s).a == s.a * (pq.a + pq.b) + pq.a * s.b;
    assert Multiply(p, qs).a == qs.a * (p.a + p.b) + p.a * qs.b;
  }

  /** (0, 1) is the unit 1 of the ring. */
  lemma MultiplyUnit(p: Phi)
    ensures Multiply(Phi(0, 1), p) == p
  {
  }

  /** Repeated multiplication: p^m in Z[phi], with p^0 = (0, 1). */
  function PhiPow(p: Phi, m: nat): Phi
  {
    if m == 0 then Phi(0, 1) else Multiply(PhiPow(p, m - 1), p)
  }

  lemma {:induction false} PhiPowAdd(p: Phi, i: nat, j: nat)
    ensures PhiPow(p, i + j) == Multiply(PhiPow(p, i), PhiPow(p, j))
    decreases j
  {
    if j == 0 {
      MultiplyUnit(PhiPow(p, i));
      MultiplyCommutes(PhiPow(p, i), Phi(0, 1));
    } else {
      PhiPowAdd(p, i, j - 1);
      MultiplyAssociates(PhiPow(p, i), PhiPow(p, j - 1), p);
    }
  }

  ghost predicate IsPow2(k: int)
    decreases if k < 0 then 0 else k
  {
    k == 1 || (k >= 2 && k % 2 == 0 && IsPow2(k / 2))
  }

  /** The doubling loop of `power` (lines `while n <= m`): squares (x, y)
      until n exceeds m. On exit h = n // 2 is the largest power of two not
      above m, and (x, y) is p^h. */
  method SquareUntil(p: Phi, m: int) returns (q: Phi, n: int)
    requires m >= 2
    ensures n % 2 == 0 && IsPow2(n / 2)
    ensures n / 2 <= m < n
    ensures q == PhiPow(p, n / 2)
  {
    n := 2;
    q := p;
    ghost var h := 1;
    assert PhiPow(p, 1) == p by { MultiplyUnit(p); }
    while n <= m
      invariant n == h + h && h >= 1 && IsPow2(h)
      invariant h <= m
      invariant q == PhiPow(p, h)
      decreases m - n
    {
      PhiPowAdd(p, h, h);
      Pow2Double(h);
      q := Square(q);
      n := n * 2;
      h := h + h;
    }
  }

  lemma Pow2Double(h: int)
    requires IsPow2(h)
    ensures IsPow2(h + h)
  {
    assert (h + h) / 2 == h;
  }

  /** `power(a, b, m)`: p^m by binary splitting. A negative exponent makes
      the source recurse forever (m - 1 each time), hence the requirement. */
  method Power(p: Phi, m: int) returns (r: Phi)
    requires m >= 0
    ensures r == PhiPow(p, m)
    decreases m
  {
    if m == 0 {
      r := Phi(0, 1);
    } else if m == 1 {
      r := p;
      MultiplyUnit(p);
    } else {
      var x, n := SquareUntil(p, m);
      var rest := Power(p, m - n / 2);
      r := Multiply(x, rest);
      PhiPowAdd(p, n / 2, m - n / 2);
    }
  }

  /** phi^(m+1) == F(m+1) phi + F(m), i.e. (1, 0)^(m+1) == (F(m+1), F(m)). */
  lemma {:induction false} PhiPowFib(m: nat)
    ensures PhiPow(Phi(1, 0), m + 1) == Phi(Fib(m + 1), Fib(m))
  {
    if m == 0 {
      PhiStep(0);
    } else {
      PhiPowFib(m - 1);
      PhiStep(m);
      FibPairStep(m, PhiPow(Phi(1, 0), m), PhiPow(Phi(1, 0), m + 1));
    }
  }

  /** One more factor of phi takes (a, b) to (a + b, a). */
  lemma PhiStep(m: nat)
    ensures PhiPow(Phi(1, 0), m + 1).a == PhiPow(Phi(1, 0), m).a + PhiPow(Phi(1, 0), m).b
    ensures PhiPow(Phi(1, 0), m + 1).b == PhiPow(Phi(1, 0), m).a
  {
    MultiplyByPhi(PhiPow(Phi(1, 0), m));
  }

  /** The pair step (a, b) to (a + b, a) advances (F(m), F(m-1)) by one. */
  lemma FibPairStep(m: nat, q: Phi, r: Phi)
    requires m >= 1 && q == Phi(Fib(m), Fib(m - 1))
    requires r.a == q.a + q.b && r.b == q.a
    ensures r == Phi(Fib(m + 1), Fib(m))
  {
  }

  /** Multiplying by phi shifts the pair one Fibonacci step: (a, b) phi == (a + b, a). */
  lemma MultiplyByPhi(p: Phi)
    ensures Multiply(p, Phi(1, 0)) == Phi(p.a + p.b, p.a)
  {
    assert 1 * (p.a + p.b) + p.a * 0 == p.a + p.b;
    assert p.a * 1 + p.b * 0 == p.a;
  }

  method EigenFibOptimized(n: int) returns (r: int)
    requires n >= 0
    ensures r == Fib(n)
  {
    var res := Power(Phi(1, 0), n);
    PhiPowFirst(n, res);
    r := res.a;
  }

  /** The first component of phi^n is F(n). */
  lemma PhiPowFirst(n: int, res: Phi)
    requires n >= 0 && res == PhiPow(Phi(1, 0), n)
    ensures res.a == Fib(n)
  {
    if n >= 1 {
      PhiPowFib(n - 1);
    }
  }

}
