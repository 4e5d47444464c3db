/**
  `kruskal(graph)` of the spanning-tree lab: list the edges of the upper
  triangle, sort them by weight (stably), and keep each edge whose ends the
  disjoint-set forest still has apart, merging their sets.
 */
module Kruskal {
  import opened ShortestPaths
  import opened SpanningTree
  import opened UnionFind

  /** An edge `kruskal` lists: u below v, a non-zero entry, and its weight. */
  ghost predicate IsCandidate(graph: Matrix, e: Edge)
    requires Square(graph)
  {
    0 <= e.u < e.v < |graph| && graph[e.u][e.v] != 0 && e.w == graph[e.u][e.v]
  }

  /** The order of the two nested loops over u and v. */
  predicate Before(a: Edge, b: Edge)
  {
    a.u < b.u || (a.u == b.u && a.v < b.v)
  }

  predicate Ordered(s: seq<Edge>)
  {
    forall i, j :: 0 <= i < j < |s| ==> Before(s[i], s[j])
  }

  /** Every listed pair (a, b) with a below `row`, or on `row` and b below
      `col`, is present. */
  ghost predicate ListedUpTo(graph: Matrix, edges: seq<Edge>, row: int, col: int)
    requires Square(graph)
  {
    forall a, b :: 0 <= a < b < |graph| && graph[a][b] != 0 && (a < row || (a == row && b < col)) ==>
      Edge(a, b, graph[a][b]) in edges
  }

  /** The inner loop over v for one u. */
  method CandidatesFrom(graph: Matrix, u: int, edges: seq<Edge>) returns (edges': seq<Edge>)
    requires Square(graph) && 0 <= u < |graph|
    requires forall i :: 0 <= i < |edges| ==> IsCandidate(graph, edges[i]) && edges[i].u < u
    requires Ordered(edges) && ListedUpTo(graph, edges, u, 0)
    ensures forall i :: 0 <= i < |edges'| ==> IsCandidate(graph, edges'[i]) && edges'[i].u <= u
    ensures Ordered(edges') && ListedUpTo(graph, edges', u + 1, 0)
  {
    edges' := edges;
    for v := u + 1 to |graph|
      invariant forall i :: 0 <= i < |edges'| ==> IsCandidate(graph, edges'[i]) && Before(edges'[i], Edge(u, v, 0))
      invariant Ordered(edges') && ListedUpTo(graph, edges', u, v)
    {
      var weight := graph[u][v];
      if weight != 0 {
        edges' := edges' + [Edge(u, v, weight)];
      }
    }
  }

  /** The first part of `kruskal`: every non-zero entry above the diagonal
      as a triple `(u, v, weight)`, each exactly once, in row order. */
  method Candidates(graph: Matrix) returns (edges: seq<Edge>)
    requires Square(graph)
    ensures forall i :: 0 <= i < |edges| ==> IsCandidate(graph, edges[i])
    ensures forall u, v :: 0 <= u < v < |graph| && graph[u][v] != 0 ==> Edge(u, v, graph[u][v]) in edges
    ensures Ordered(edges)
  {
    edges := [];
    for u := 0 to |graph|
      invariant forall i :: 0 <= i < |edges| ==> IsCandidate(graph, edges[i]) && edges[i].u < u
      invariant Ordered(edges) && ListedUpTo(graph, edges, u, 0)
    {
      edges := CandidatesFrom(graph, u, edges);
    }
  }

  predicate ByWeight(s: seq<Edge>)
  {
    forall i, j :: 0 <= i < j < |s| ==> s[i].w <= s[j].w
  }

  /** The edges of weight w, in their order in s. */
  function WithWeight(s: seq<Edge>, w: int): seq<Edge>
  {
    if |s| == 0 then [] else (if s[0].w == w then [s[0]] else []) + WithWeight(s[1..], w)
  }

  lemma {:induction false} WithWeightMembers(s: seq<Edge>, w: int, x: Edge)
    requires x in WithWeight(s, w)
    ensures x.w == w && x in s
  {
    if !(s[0].w == w && s[0] == x) {
      WithWeightMembers(s[1..], w, x);
    }
  }

  /** e placed before the first edge at least as heavy. */
  function Insert(e: Edge, s: seq<Edge>): (r: seq<Edge>)
    requires ByWeight(s)
    ensures ByWeight(r) && multiset(r) == multiset(s) + multiset{e}
    ensures |r| == |s| + 1 && (r[0] == e || (|s| > 0 && r[0] == s[0]))
  {
    if |s| == 0 || e.w <= s[0].w then
      ByWeightCons(e, s);
      [e] + s
    else
      var t := Insert(e, s[1..]);
      ByWeightCons(s[0], t);
      assert s == [s[0]] + s[1..];
      [s[0]] + t
  }

  /** An edge no heavier than the head of a sorted list extends it. */
  lemma ByWeightCons(x: Edge, t: seq<Edge>)
    requires ByWeight(t) && (|t| > 0 ==> x.w <= t[0].w)
    ensures ByWeight([x] + t)
  {
    forall i, j | 0 <= i < j < |[x] + t| ensures ([x] + t)[i].w <= ([x] + t)[j].w
    {
      if i == 0 && j > 1 {
        assert t[0].w <= t[j - 1].w;
      }
    }
  }

  /** `sorted(edges, key=lambda x: x[2])`: Python's sort is stable, which
      this insertion sort is too (see SortKeepsTies). */
  function SortByWeight(s: seq<Edge>): (r: seq<Edge>)
    ensures ByWeight(r) && multiset(r) == multiset(s)
  {
    if |s| == 0 then []
    else
      assert s == [s[0]] + s[1..];
      Insert(s[0], SortByWeight(s[1..]))
  }

  lemma WithWeightCons(x: Edge, s: seq<Edge>, w: int)
    ensures WithWeight([x] + s, w) == (if x.w == w then [x] else []) + WithWeight(s, w)
  {
    assert ([x] + s)[1..] == s;
  }

  lemma {:induction false} InsertKeepsTies(e: Edge, s: seq<Edge>, w: int)
    requires ByWeight(s)
    ensures WithWeight(Insert(e, s), w) == (if e.w == w then [e] else []) + WithWeight(s, w)
  {
    if |s| == 0 || e.w <= s[0].w {
      assert Insert(e, s) == [e] + s;
      WithWeightCons(e, s, w);
    } else {
      var t := Insert(e, s[1..]);
      assert Insert(e, s) == [s[0]] + t;
      WithWeightCons(s[0], t, w);
      WithWeightCons(s[0], s[1..], w);
      assert s == [s[0]] + s[1..];
      InsertKeepsTies(e, s[1..], w);
      var rest := WithWeight(s[1..], w);
      if s[0].w == w {
        assert e.w != w;
        assert WithWeight(t, w) == rest;
        assert WithWeight(Insert(e, s), w) == [s[0]] + rest == WithWeight(s, w);
      } else {
        assert WithWeight(Insert(e, s), w) == WithWeight(t, w);
        assert WithWeight(s, w) == rest;
      }
    }
  }

  /** The sort is stable: the edges of each weight keep their order. */
  lemma {:induction false} SortKeepsTies(s: seq<Edge>, w: int)
    ensures WithWeight(SortByWeight(s), w) == WithWeight(s, w)
  {
    if |s| > 0 {
      SortKeepsTies(s[1..], w);
      InsertKeepsTies(s[0], SortByWeight(s[1..]), w);
    }
  }

  lemma {:induction false} InWithWeight(s: seq<Edge>, x: Edge)
    requires x in s
    ensures x in WithWeight(s, x.w)
  {
    if s[0] != x {
      InWithWeight(s[1..], x);
    }
  }

  /** Ordering by weight and keeping the order within each weight fixes the
      result: a stable sort has only one possible output. */
  lemma {:induction false} StableSortUnique(a: seq<Edge>, b: seq<Edge>)
    requires ByWeight(a) && ByWeight(b)
    requires forall w :: WithWeight(a, w) == WithWeight(b, w)
    ensures a == b
  {
    if |a| == 0 || |b| == 0 {
      if |a| != |b| {
        var c := if |a| == 0 then b else a;
        InWithWeight(c, c[0]);
        assert false;
      }
    } else {
      assert a[0].w == b[0].w by {
        InWithWeight(b, b[0]);
        WithWeightMembers(a, b[0].w, b[0]);
        InWithWeight(a, a[0]);
        WithWeightMembers(b, a[0].w, a[0]);
      }
      assert a[0] == b[0] by {
        assert WithWeight(a, a[0].w)[0] == a[0];
        assert WithWeight(b, a[0].w)[0] == b[0];
      }
      forall w ensures WithWeight(a[1..], w) == WithWeight(b[1..], w)
      {
        var head := if a[0].w == w then [a[0]] else [];
        assert WithWeight(a, w) == head + WithWeight(a[1..], w);
        assert WithWeight(b, w) == head + WithWeight(b[1..], w);
        assert WithWeight(a[1..], w) == WithWeight(a, w)[|head|..];
        assert WithWeight(b[1..], w) == WithWeight(b, w)[|head|..];
      }
      StableSortUnique(a[1..], b[1..]);
      assert a == [a[0]] + a[1..] && b == [b[0]] + b[1..];
    }
  }

  /** What the loop body of `kruskal` does to the forest: the two `find`
      calls of the test (each compressing a path), then `union` when the
      roots differ. The sets of u and v merge under one of their two roots,
      every other set is untouched, and the set count drops by one exactly
      when the edge is kept. */
  method Consider(f: Forest, e: Edge) returns (kept: bool, g: Forest)
    requires Valid(f) && 0 <= e.u < |f.parent| && 0 <= e.v < |f.parent|
    ensures Valid(g) && |g.parent| == |f.parent| && Merged(f, e, kept, g)
  {
    var b := FindBoth(f, e.u, e.v);
    kept := b.root1 != b.root2;
    if kept {
      g := Union(b.forest, e.u, e.v);
      KeptMerges(f, e, b);
    } else {
      g := b.forest;
      SkippedKeeps(f, e, b);
    }
  }

  /** The sets of u and v are merged under one of their two roots, every
      other set is untouched, and the set count drops by one exactly when
      the edge is kept. */
  ghost predicate Merged(f: Forest, e: Edge, kept: bool, g: Forest)
    requires Valid(f) && Valid(g) && |g.parent| == |f.parent|
    requires 0 <= e.u < |f.parent| && 0 <= e.v < |f.parent|
  {
    && (kept <==> Root(f, e.u) != Root(f, e.v))
    && Root(g, e.u) == Root(g, e.v)
    && (Root(g, e.u) == Root(f, e.u) || Root(g, e.u) == Root(f, e.v))
    && (forall x :: 0 <= x < |f.parent| ==>
          Root(g, x) == if Root(f, x) == Root(f, e.u) || Root(f, x) == Root(f, e.v) then Root(g, e.u) else Root(f, x))
    && RootCount(g.parent, |f.parent|) + (if kept then 1 else 0) == RootCount(f.parent, |f.parent|)
  }

  lemma KeptMerges(f: Forest, e: Edge, b: Roots)
    requires Valid(f) && 0 <= e.u < |f.parent| && 0 <= e.v < |f.parent|
    requires b == FindBoth(f, e.u, e.v) && b.root1 != b.root2
    ensures Merged(f, e, true, Union(b.forest, e.u, e.v))
  {
    var h := b.forest;
    var g := Union(h, e.u, e.v);
    UnionMerges(h, e.u, e.v);
    assert Root(h, e.u) == Root(f, e.u) && Root(h, e.v) == Root(f, e.v);
    forall x | 0 <= x < |f.parent|
      ensures Root(g, x) == if Root(f, x) == Root(f, e.u) || Root(f, x) == Root(f, e.v) then Root(g, e.u) else Root(f, x)
    {
      assert Root(h, x) == Root(f, x);
    }
  }

  lemma SkippedKeeps(f: Forest, e: Edge, b: Roots)
    requires Valid(f) && 0 <= e.u < |f.parent| && 0 <= e.v < |f.parent|
    requires b == FindBoth(f, e.u, e.v) && b.root1 == b.root2
    ensures Merged(f, e, false, b.forest)
  {
  }

  /** After an edge is considered, every vertex is still joined to its
      root by the kept edges. */
  lemma ConsiderJoins(f: Forest, g: Forest, e: Edge, mst: seq<Edge>, mst': seq<Edge>, kept: bool)
    requires Valid(f) && Valid(g) && |g.parent| == |f.parent|
    requires 0 <= e.u < |f.parent| && 0 <= e.v < |f.parent|
    requires Merged(f, e, kept, g)
    requires mst' == if kept then mst + [e] else mst
    requires forall x :: 0 <= x < |f.parent| ==> Joins(mst, x, Root(f, x))
    ensures forall x :: 0 <= x < |f.parent| ==> Joins(mst', x, Root(g, x))
  {
    forall x | 0 <= x < |f.parent| ensures Joins(mst', x, Root(g, x))
    {
      if !kept {
        assert Root(g, x) == Root(f, x);
      } else {
        JoinsMore(mst, e, x, Root(f, x));
        if Root(g, x) != Root(f, x) {
          var ru, rv := Root(f, e.u), Root(f, e.v);
          JoinsMore(mst, e, e.u, ru);
          JoinsMore(mst, e, e.v, rv);
          JoinsEdge(mst, e);
          if Root(f, x) == ru {
            // x to ru, back to u, across to v, up to rv
            JoinsBack(mst', e.u, ru);
            JoinsThen(mst', x, ru, e.u);
            JoinsThen(mst', x, e.u, e.v);
            JoinsThen(mst', x, e.v, rv);
          } else {
            JoinsBack(mst', e.v, rv);
            JoinsBack(mst', e.u, e.v);
            JoinsThen(mst', x, rv, e.v);
            JoinsThen(mst', x, e.v, e.u);
            JoinsThen(mst', x, e.u, ru);
          }
        }
      }
    }
  }

  /** Both ends of e are vertices of f, in one set. */
  ghost predicate Together(f: Forest, e: Edge)
    requires Valid(f)
  {
    0 <= e.u < |f.parent| && 0 <= e.v < |f.parent| && Root(f, e.u) == Root(f, e.v)
  }

  /** The edges kept after the first k sorted edges: listed edges, in
      non-decreasing weight, none heavier than an edge still to come. */
  ghost predicate KeptSoFar(graph: Matrix, sorted: seq<Edge>, k: int, mst: seq<Edge>)
    requires Square(graph) && 0 <= k <= |sorted|
  {
    && (forall i :: 0 <= i < |mst| ==> IsCandidate(graph, mst[i]))
    && ByWeight(mst)
    && (forall i, j :: 0 <= i < |mst| && k <= j < |sorted| ==> mst[i].w <= sorted[j].w)
  }

  /** The forest after the first k sorted edges: one set fewer per kept
      edge, both ends of each edge seen so far in one set, and every vertex
      joined to its root by kept edges. */
  ghost predicate ForestSoFar(n: int, sorted: seq<Edge>, k: int, mst: seq<Edge>, f: Forest)
    requires 0 <= k <= |sorted|
  {
    && Valid(f) && |f.parent| == n
    && |mst| + RootCount(f.parent, n) == n
    && (forall j :: 0 <= j < k ==> Together(f, sorted[j]))
    && (forall x :: 0 <= x < n ==> Joins(mst, x, Root(f, x)))
  }

  /** The state of the main loop after the first k sorted edges. */
  ghost predicate Progress(graph: Matrix, sorted: seq<Edge>, k: int, mst: seq<Edge>, f: Forest)
    requires Square(graph) && 0 <= k <= |sorted|
  {
    KeptSoFar(graph, sorted, k, mst) && ForestSoFar(|graph|, sorted, k, mst, f)
  }

  /** The forest `kruskal` starts from: every vertex its own set. */
  function Singletons(n: nat): (f: Forest)
    ensures Valid(f) && |f.parent| == n && RootCount(f.parent, n) == n
    ensures forall x :: 0 <= x < n ==> Root(f, x) == x
  {
    var f := Forest(seq(n, i => i), seq(n, i => 0));
    assert RootCount(f.parent, n) == n by {
      RootsUpTo(f.parent, n);
    }
    f
  }

  lemma {:induction false} RootsUpTo(p: seq<int>, k: int)
    requires 0 <= k <= |p| && forall x :: 0 <= x < |p| ==> p[x] == x
    ensures RootCount(p, k) == k
  {
    if k > 0 {
      RootsUpTo(p, k - 1);
    }
  }

  lemma StartProgress(graph: Matrix, sorted: seq<Edge>)
    requires Square(graph)
    ensures Progress(graph, sorted, 0, [], Singletons(|graph|))
  {
    forall x | 0 <= x < |graph| ensures Joins([], x, Root(Singletons(|graph|), x))
    {
      JoinsSelf([], x);
    }
  }

  /** One turn of the main loop keeps its state. */
  method Turn(graph: Matrix, sorted: seq<Edge>, k: int, mst: seq<Edge>, f: Forest)
    returns (mst': seq<Edge>, g: Forest)
    requires Square(graph) && 0 <= k < |sorted| && ByWeight(sorted)
    requires forall j :: 0 <= j < |sorted| ==> IsCandidate(graph, sorted[j])
    requires Progress(graph, sorted, k, mst, f)
    ensures Progress(graph, sorted, k + 1, mst', g)
    ensures mst' == mst || mst' == mst + [sorted[k]]
  {
    var e := sorted[k];
    assert IsCandidate(graph, e);
    var kept;
    kept, g := Consider(f, e);
    mst' := if kept then mst + [e] else mst;
    KeptStep(graph, sorted, k, mst, mst');
    ForestStep(|graph|, sorted, k, mst, f, kept, g, mst');
  }

  lemma KeptStep(graph: Matrix, sorted: seq<Edge>, k: int, mst: seq<Edge>, mst': seq<Edge>)
    requires Square(graph) && 0 <= k < |sorted| && ByWeight(sorted) && IsCandidate(graph, sorted[k])
    requires KeptSoFar(graph, sorted, k, mst)
    requires mst' == mst || mst' == mst + [sorted[k]]
    ensures KeptSoFar(graph, sorted, k + 1, mst')
  {
    if mst' != mst {
      assert forall i :: 0 <= i < |mst| ==> mst[i].w <= sorted[k].w;
    }
  }

  lemma ForestStep(n: int, sorted: seq<Edge>, k: int, mst: seq<Edge>, f: Forest, kept: bool, g: Forest, mst': seq<Edge>)
    requires 0 <= k < |sorted| && ForestSoFar(n, sorted, k, mst, f)
    requires 0 <= sorted[k].u < n && 0 <= sorted[k].v < n
    requires Valid(g) && |g.parent| == n && Merged(f, sorted[k], kept, g)
    requires mst' == if kept then mst + [sorted[k]] else mst
    ensures ForestSoFar(n, sorted, k + 1, mst', g)
  {
    ConsiderJoins(f, g, sorted[k], mst, mst', kept);
    TogetherStep(n, sorted, k, f, kept, g);
  }

  /** A merge keeps the ends of every earlier edge in one set and joins the
      ends of the current one. */
  lemma TogetherStep(n: int, sorted: seq<Edge>, k: int, f: Forest, kept: bool, g: Forest)
    requires 0 <= k < |sorted| && Valid(f) && |f.parent| == n && Valid(g) && |g.parent| == n
    requires 0 <= sorted[k].u < n && 0 <= sorted[k].v < n
    requires Merged(f, sorted[k], kept, g)
    requires forall j :: 0 <= j < k ==> Together(f, sorted[j])
    ensures forall j :: 0 <= j < k + 1 ==> Together(g, sorted[j])
  {
    forall j | 0 <= j < k + 1 ensures Together(g, sorted[j])
    {
      if j < k {
        TogetherKept(f, sorted[k], kept, g, sorted[j]);
      }
    }
  }

  /** Ends that share a set before a merge still share one after it. */
  lemma TogetherKept(f: Forest, e: Edge, kept: bool, g: Forest, d: Edge)
    requires Valid(f) && Valid(g) && |g.parent| == |f.parent|
    requires 0 <= e.u < |f.parent| && 0 <= e.v < |f.parent|
    requires Merged(f, e, kept, g) && Together(f, d)
    ensures Together(g, d)
  {
  }

  /** The sorted list holds exactly the candidate edges. */
  lemma SortedCandidates(graph: Matrix, edges: seq<Edge>, sorted: seq<Edge>)
    requires Square(graph) && multiset(sorted) == multiset(edges)
    requires forall i :: 0 <= i < |edges| ==> IsCandidate(graph, edges[i])
    ensures forall j :: 0 <= j < |sorted| ==> IsCandidate(graph, sorted[j])
    ensures forall e :: e in edges ==> e in sorted
  {
    forall j | 0 <= j < |sorted| ensures IsCandidate(graph, sorted[j])
    {
      assert sorted[j] in multiset(edges);
    }
    forall e | e in edges ensures e in sorted
    {
      assert e in multiset(sorted);
    }
  }

  /** Equal roots at both ends of every listed edge of a symmetric graph
      spread along any walk. */
  lemma {:induction false} SameRootAlong(graph: Matrix, f: Forest, p: seq<int>)
    requires Square(graph) && Symmetric(graph) && Valid(f) && |f.parent| == |graph|
    requires forall u, v :: 0 <= u < v < |graph| && graph[u][v] != 0 ==> Root(f, u) == Root(f, v)
    requires IsWalk(graph, p)
    ensures Root(f, p[|p| - 1]) == Root(f, p[0])
  {
    if |p| > 1 {
      var q := p[..|p| - 1];
      assert IsWalk(graph, q);
      SameRootAlong(graph, f, q);
      var a, b := p[|p| - 2], p[|p| - 1];
      assert Usable(graph, a, b);
    }
  }

  /** Every listed edge ends up inside one set. */
  lemma ListedTogether(graph: Matrix, edges: seq<Edge>, sorted: seq<Edge>, forest: Forest)
    requires Square(graph) && Valid(forest) && |forest.parent| == |graph|
    requires forall u, v :: 0 <= u < v < |graph| && graph[u][v] != 0 ==> Edge(u, v, graph[u][v]) in edges
    requires forall e :: e in edges ==> e in sorted
    requires forall j :: 0 <= j < |sorted| ==> Together(forest, sorted[j])
    ensures forall u, v :: 0 <= u < v < |graph| && graph[u][v] != 0 ==> Root(forest, u) == Root(forest, v)
  {
    forall u, v | 0 <= u < v < |graph| && graph[u][v] != 0 ensures Root(forest, u) == Root(forest, v)
    {
      var j :| 0 <= j < |sorted| && sorted[j] == Edge(u, v, graph[u][v]);
      assert Together(forest, sorted[j]);
    }
  }

  /** Two vertices of one set are joined by kept edges. */
  lemma SetsJoined(n: int, mst: seq<Edge>, forest: Forest)
    requires Valid(forest) && |forest.parent| == n
    requires forall x :: 0 <= x < n ==> Joins(mst, x, Root(forest, x))
    ensures forall x, y :: 0 <= x < n && 0 <= y < n && Root(forest, x) == Root(forest, y) ==> Joins(mst, x, y)
  {
    forall x, y | 0 <= x < n && 0 <= y < n && Root(forest, x) == Root(forest, y) ensures Joins(mst, x, y)
    {
      JoinsBack(mst, y, Root(forest, y));
      JoinsThen(mst, x, Root(forest, x), y);
    }
  }

  /** On a symmetric graph in which vertex 0 reaches every vertex, the
      forest ends as a single set, so n-1 edges were kept. */
  lemma Spanning(graph: Matrix, mst: seq<Edge>, forest: Forest)
    requires Square(graph) && Symmetric(graph) && Connected(graph) && |graph| > 0
    requires Valid(forest) && |forest.parent| == |graph|
    requires |mst| + RootCount(forest.parent, |graph|) == |graph|
    requires forall u, v :: 0 <= u < v < |graph| && graph[u][v] != 0 ==> Root(forest, u) == Root(forest, v)
    ensures |mst| == |graph| - 1
  {
    forall x | 0 <= x < |graph| ensures Root(forest, x) == Root(forest, 0)
    {
      assert Reaches(graph, 0, x);
      var p :| IsWalk(graph, p) && p[0] == 0 && p[|p| - 1] == x;
      SameRootAlong(graph, forest, p);
    }
    OneSet(forest, Root(forest, 0));
  }

  /** `kruskal(graph)`. The kept edges are listed edges in non-decreasing
      weight. The final forest puts the two ends of every listed edge in
      one set and joins the members of each set through kept edges, while
      each kept edge merged two sets: the kept edges form a spanning forest
      with one edge fewer than vertices per set. On a symmetric graph in
      which vertex 0 reaches every vertex, that is a spanning tree of n-1
      edges. The forest is the source's `parent` and `rank` dictionaries,
      returned here as a ghost value only to state this. */
  method Kruskal(graph: Matrix) returns (mst: seq<Edge>, ghost forest: Forest)
    requires Square(graph)
    ensures Valid(forest) && |forest.parent| == |graph|
    ensures forall i :: 0 <= i < |mst| ==> IsCandidate(graph, mst[i])
    ensures ByWeight(mst)
    ensures |mst| + RootCount(forest.parent, |graph|) == |graph|
    ensures |graph| > 0 ==> |mst| <= |graph| - 1
    ensures forall u, v :: 0 <= u < v < |graph| && graph[u][v] != 0 ==> Root(forest, u) == Root(forest, v)
    ensures forall x, y :: 0 <= x < |graph| && 0 <= y < |graph| && Root(forest, x) == Root(forest, y) ==>
      Joins(mst, x, y)
    ensures Symmetric(graph) && Connected(graph) && |graph| > 0 ==> |mst| == |graph| - 1
  {
    var n := |graph|;
    var edges := Candidates(graph);
    var sorted := SortByWeight(edges);
    SortedCandidates(graph, edges, sorted);
    var f;
    mst, f := KeepEdges(graph, sorted);
    forest := f;
    Finish(graph, edges, sorted, mst, forest);
  }

  /** The loop `for edge in edges` of `kruskal`, from singleton sets: one
      turn per sorted candidate. */
  method KeepEdges(graph: Matrix, sorted: seq<Edge>) returns (mst: seq<Edge>, f: Forest)
    requires Square(graph) && ByWeight(sorted)
    requires forall j :: 0 <= j < |sorted| ==> IsCandidate(graph, sorted[j])
    ensures Progress(graph, sorted, |sorted|, mst, f)
  {
    f := Singletons(|graph|);
    mst := [];
    StartProgress(graph, sorted);
    for k := 0 to |sorted|
      invariant Progress(graph, sorted, k, mst, f)
    {
      mst, f := Turn(graph, sorted, k, mst, f);
    }
  }

  lemma Finish(graph: Matrix, edges: seq<Edge>, sorted: seq<Edge>, mst: seq<Edge>, forest: Forest)
    requires Square(graph) && Progress(graph, sorted, |sorted|, mst, forest)
    requires forall u, v :: 0 <= u < v < |graph| && graph[u][v] != 0 ==> Edge(u, v, graph[u][v]) in edges
    requires forall e :: e in edges ==> e in sorted
    ensures |graph| > 0 ==> |mst| <= |graph| - 1
    ensures forall u, v :: 0 <= u < v < |graph| && graph[u][v] != 0 ==> Root(forest, u) == Root(forest, v)
    ensures forall x, y :: 0 <= x < |graph| && 0 <= y < |graph| && Root(forest, x) == Root(forest, y) ==>
      Joins(mst, x, y)
    ensures Symmetric(graph) && Connected(graph) && |graph| > 0 ==> |mst| == |graph| - 1
  {
    var n := |graph|;
    if n > 0 {
      SomeRoot(forest);
    }
    ListedTogether(graph, edges, sorted, forest);
    SetsJoined(n, mst, forest);
    if Symmetric(graph) && Connected(graph) && n > 0 {
      Spanning(graph, mst, forest);
    }
  }
}
