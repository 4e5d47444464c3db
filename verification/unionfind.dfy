/**
  The disjoint-set forest behind Kruskal's method: `find` with path
  compression and `union` by rank. The two dictionaries `parent` and `rank`,
  keyed by the vertices 0 .. n-1, are modelled as sequences indexed by
  vertex; an update returns the new forest.
 */
module UnionFind {

  datatype Forest = Forest(parent: seq<int>, rank: seq<nat>)

  /** Parent pointers stay among the vertices and the rank strictly grows
      from a vertex to its parent, which rules out cycles. */
  ghost predicate Valid(f: Forest)
  {
    && |f.parent| == |f.rank|
    && (forall v :: 0 <= v < |f.parent| ==> 0 <= f.parent[v] < |f.parent|)
    && (forall v :: 0 <= v < |f.parent| && f.parent[v] != v ==> f.rank[v] < f.rank[f.parent[v]])
  }

  /** An upper bound of the ranks, the measure that walks up the forest. */
  function MaxRank(rank: seq<nat>): (m: nat)
    ensures forall v :: 0 <= v < |rank| ==> rank[v] <= m
  {
    if |rank| == 0 then 0
    else
      var m := MaxRank(rank[..|rank| - 1]);
      assert forall v :: 0 <= v < |rank| - 1 ==> rank[v] == rank[..|rank| - 1][v];
      if rank[|rank| - 1] > m then rank[|rank| - 1] else m
  }

  /** The representative of v's set: follow parent pointers to a vertex
      that is its own parent. */
  ghost function Root(f: Forest, v: int): (r: int)
    requires Valid(f) && 0 <= v < |f.parent|
    ensures 0 <= r < |f.parent| && f.parent[r] == r
    ensures f.parent[v] == v ==> r == v
    ensures f.parent[v] != v ==> f.rank[v] < f.rank[r]
    decreases MaxRank(f.rank) - f.rank[v]
  {
    if f.parent[v] == v then v else Root(f, f.parent[v])
  }

  /** The roots depend on the parent pointers only. */
  lemma {:induction false} RootIgnoresRank(f: Forest, g: Forest, v: int)
    requires Valid(f) && Valid(g) && f.parent == g.parent && 0 <= v < |f.parent|
    ensures Root(f, v) == Root(g, v)
    decreases MaxRank(f.rank) - f.rank[v]
  {
    if f.parent[v] != v {
      RootIgnoresRank(f, g, f.parent[v]);
    }
  }

  /** p re-points some vertices of f straight at their roots and leaves the
      others alone: what path compression does. */
  ghost predicate Compresses(f: Forest, p: seq<int>)
    requires Valid(f)
  {
    && |p| == |f.parent|
    && forall w :: 0 <= w < |p| ==> p[w] == f.parent[w] || p[w] == Root(f, w)
  }

  /** Compression changes no vertex's root. */
  lemma {:induction false} CompressKeepsRoot(f: Forest, g: Forest, x: int)
    requires Valid(f) && Valid(g) && g.rank == f.rank && Compresses(f, g.parent)
    requires 0 <= x < |f.parent|
    ensures Root(g, x) == Root(f, x)
    decreases MaxRank(f.rank) - f.rank[x]
  {
    if g.parent[x] != x {
      var y := g.parent[x];
      CompressKeepsRoot(f, g, y);
      if y != f.parent[x] {
        assert y == Root(f, x);
      }
    }
  }

  /** Compression keeps exactly the same vertices as roots. */
  lemma CompressKeepsRootSet(f: Forest, g: Forest)
    requires Valid(f) && Valid(g) && g.rank == f.rank && Compresses(f, g.parent)
    ensures forall x :: 0 <= x < |f.parent| ==> (g.parent[x] == x <==> f.parent[x] == x)
  {
    forall x | 0 <= x < |f.parent| ensures g.parent[x] == x <==> f.parent[x] == x
    {
      var r := Root(f, x);
    }
  }

  /** The root `find` returns and the forest it leaves behind. */
  datatype Found = Found(root: int, forest: Forest)

  /** `find(parent, v)`: the root of v; on the way back every vertex of the
      path is re-pointed at it. */
  function Find(f: Forest, v: int): (r: Found)
    requires Valid(f) && 0 <= v < |f.parent|
    ensures r.root == Root(f, v)
    ensures Valid(r.forest) && r.forest.rank == f.rank && Compresses(f, r.forest.parent)
    ensures r.forest.parent[v] == r.root
    decreases MaxRank(f.rank) - f.rank[v]
  {
    if f.parent[v] == v then Found(v, f)
    else
      var inner := Find(f, f.parent[v]);
      Found(inner.root, Forest(inner.forest.parent[v := inner.root], f.rank))
  }

  /** After `find` every vertex keeps its root, and the same vertices are
      roots. */
  lemma FindKeepsRoots(f: Forest, v: int)
    requires Valid(f) && 0 <= v < |f.parent|
    ensures forall x :: 0 <= x < |f.parent| ==> Root(Find(f, v).forest, x) == Root(f, x)
    ensures forall x :: 0 <= x < |f.parent| ==> (Find(f, v).forest.parent[x] == x <==> f.parent[x] == x)
  {
    var g := Find(f, v).forest;
    forall x | 0 <= x < |f.parent| ensures Root(g, x) == Root(f, x)
    {
      CompressKeepsRoot(f, g, x);
    }
    CompressKeepsRootSet(f, g);
  }

  /** Hanging root a below root b sends exactly a's set to b. */
  lemma {:induction false} LinkRoot(h: Forest, g: Forest, a: int, b: int, x: int)
    requires Valid(h) && Valid(g) && 0 <= a < |h.parent| && 0 <= b < |h.parent|
    requires h.parent[a] == a && h.parent[b] == b && a != b
    requires g.parent == h.parent[a := b]
    requires 0 <= x < |h.parent|
    ensures Root(g, x) == if Root(h, x) == a then b else Root(h, x)
    decreases MaxRank(h.rank) - h.rank[x]
  {
    if x == a {
      assert Root(g, a) == Root(g, b);
    } else if h.parent[x] != x {
      LinkRoot(h, g, a, b, h.parent[x]);
    }
  }

  /** Hanging root a below root b keeps the forest valid when the ranks
      after the step put b above a. */
  lemma HangValid(h: Forest, a: int, b: int, rank: seq<nat>)
    requires Valid(h) && 0 <= a < |h.parent| && 0 <= b < |h.parent|
    requires h.parent[a] == a && h.parent[b] == b && a != b && |rank| == |h.rank|
    requires forall x :: 0 <= x < |rank| ==> h.rank[x] <= rank[x]
    requires forall x :: 0 <= x < |rank| && x != b ==> rank[x] == h.rank[x]
    requires rank[a] < rank[b]
    ensures Valid(Forest(h.parent[a := b], rank))
  {
    var p := h.parent[a := b];
    forall v | 0 <= v < |p| && p[v] != v ensures rank[v] < rank[p[v]]
    {
      if v != a {
        assert h.parent[v] == p[v] && v != b;
        assert h.rank[v] < h.rank[p[v]];
      }
    }
  }

  /** g is h with the sets of the different roots r1 and r2 joined under
      one of them, ranks raised by at most one and only at r1 on a tie, and
      one root fewer. */
  ghost predicate Linked(h: Forest, g: Forest, r1: int, r2: int)
    requires Valid(h) && 0 <= r1 < |h.parent| && 0 <= r2 < |h.parent|
  {
    && Valid(g) && |g.parent| == |h.parent|
    && Root(g, r1) == Root(g, r2) && (Root(g, r1) == r1 || Root(g, r1) == r2)
    && (forall x :: 0 <= x < |h.parent| ==>
         Root(g, x) == if Root(h, x) == r1 || Root(h, x) == r2 then Root(g, r1) else Root(h, x))
    && (forall x :: 0 <= x < |h.parent| ==> h.rank[x] <= g.rank[x] <= h.rank[x] + 1)
    && (forall x :: 0 <= x < |h.parent| && g.rank[x] != h.rank[x] ==> x == r1 && h.rank[r1] == h.rank[r2])
    && RootCount(g.parent, |g.parent|) + 1 == RootCount(h.parent, |h.parent|)
  }

  /** The lower-ranked r1 goes below r2. */
  lemma LinkBelow(h: Forest, r1: int, r2: int)
    requires Valid(h) && 0 <= r1 < |h.parent| && 0 <= r2 < |h.parent|
    requires h.parent[r1] == r1 && h.parent[r2] == r2 && r1 != r2
    requires h.rank[r1] < h.rank[r2]
    ensures Valid(Forest(h.parent[r1 := r2], h.rank))
    ensures Linked(h, Forest(h.parent[r1 := r2], h.rank), r1, r2)
  {
    var g := Forest(h.parent[r1 := r2], h.rank);
    HangValid(h, r1, r2, h.rank);
    LinkAll(h, g, r1, r2);
    RootCountLink(h.parent, r1, r2, |h.parent|);
  }

  /** Otherwise r2 goes below r1, whose rank grows on a tie. */
  lemma LinkAbove(h: Forest, r1: int, r2: int, rank: seq<nat>)
    requires Valid(h) && 0 <= r1 < |h.parent| && 0 <= r2 < |h.parent|
    requires h.parent[r1] == r1 && h.parent[r2] == r2 && r1 != r2
    requires h.rank[r1] >= h.rank[r2]
    requires rank == if h.rank[r1] == h.rank[r2] then h.rank[r1 := h.rank[r1] + 1] else h.rank
    ensures Valid(Forest(h.parent[r2 := r1], rank))
    ensures Linked(h, Forest(h.parent[r2 := r1], rank), r1, r2)
  {
    var g := Forest(h.parent[r2 := r1], rank);
    HangValid(h, r2, r1, rank);
    LinkAll(h, g, r2, r1);
    RootCountLink(h.parent, r2, r1, |h.parent|);
  }

  /** The linking step of `union` on two different roots. */
  function Link(h: Forest, r1: int, r2: int): (g: Forest)
    requires Valid(h) && 0 <= r1 < |h.parent| && 0 <= r2 < |h.parent|
    requires h.parent[r1] == r1 && h.parent[r2] == r2 && r1 != r2
    ensures Linked(h, g, r1, r2)
  {
    if h.rank[r1] < h.rank[r2] then
      LinkBelow(h, r1, r2);
      Forest(h.parent[r1 := r2], h.rank)
    else
      var rank := if h.rank[r1] == h.rank[r2] then h.rank[r1 := h.rank[r1] + 1] else h.rank;
      LinkAbove(h, r1, r2, rank);
      Forest(h.parent[r2 := r1], rank)
  }

  /** The two `find` calls at the start of `union`: the forest after both,
      which has the same roots as before. */
  datatype Roots = Roots(root1: int, root2: int, forest: Forest)

  function FindBoth(f: Forest, v1: int, v2: int): (b: Roots)
    requires Valid(f) && 0 <= v1 < |f.parent| && 0 <= v2 < |f.parent|
    ensures b.root1 == Root(f, v1) && b.root2 == Root(f, v2)
    ensures Valid(b.forest) && b.forest.rank == f.rank && |b.forest.parent| == |f.parent|
    ensures forall x :: 0 <= x < |f.parent| ==> Root(b.forest, x) == Root(f, x)
    ensures RootCount(b.forest.parent, |f.parent|) == RootCount(f.parent, |f.parent|)
  {
    var a := Find(f, v1);
    FindKeepsRoots(f, v1);
    FindKeepsRoots(a.forest, v2);
    var b := Find(a.forest, v2);
    RootCountSame(f.parent, b.forest.parent, |f.parent|);
    Roots(a.root, b.root, b.forest)
  }

  /** `union(parent, rank, v1, v2)`: find both roots; when they differ,
      hang the root of lower rank below the other, and on equal ranks hang
      the second below the first and raise the first's rank by one. Ranks
      never fall, and only the surviving root's rank can grow, by one,
      when two sets of equal rank merge. */
  function Union(f: Forest, v1: int, v2: int): (g: Forest)
    requires Valid(f) && 0 <= v1 < |f.parent| && 0 <= v2 < |f.parent|
    ensures Valid(g) && |g.parent| == |f.parent|
    ensures forall x :: 0 <= x < |f.parent| ==> f.rank[x] <= g.rank[x] <= f.rank[x] + 1
    ensures forall x :: 0 <= x < |f.parent| && g.rank[x] != f.rank[x] ==>
      x == Root(f, v1) && Root(f, v1) != Root(f, v2) && f.rank[Root(f, v1)] == f.rank[Root(f, v2)]
  {
    var b := FindBoth(f, v1, v2);
    if b.root1 == b.root2 then b.forest else Link(b.forest, b.root1, b.root2)
  }

  /** After `union` the two vertices share a root, the sets of v1 and v2
      have merged, every other set is untouched, and the number of sets
      drops by one exactly when the two were apart. */
  lemma UnionMerges(f: Forest, v1: int, v2: int)
    requires Valid(f) && 0 <= v1 < |f.parent| && 0 <= v2 < |f.parent|
    ensures Root(Union(f, v1, v2), v1) == Root(Union(f, v1, v2), v2)
    ensures Root(Union(f, v1, v2), v1) == Root(f, v1) || Root(Union(f, v1, v2), v1) == Root(f, v2)
    ensures forall x :: 0 <= x < |f.parent| ==>
      Root(Union(f, v1, v2), x) ==
        if Root(f, x) == Root(f, v1) || Root(f, x) == Root(f, v2) then Root(Union(f, v1, v2), v1) else Root(f, x)
    ensures RootCount(Union(f, v1, v2).parent, |f.parent|) + (if Root(f, v1) != Root(f, v2) then 1 else 0)
      == RootCount(f.parent, |f.parent|)
  {
    var b := FindBoth(f, v1, v2);
    var g := Union(f, v1, v2);
    if b.root1 == b.root2 {
      assert g == b.forest;
    } else {
      assert g == Link(b.forest, b.root1, b.root2);
    }
  }

  lemma LinkAll(h: Forest, g: Forest, a: int, b: int)
    requires Valid(h) && Valid(g) && 0 <= a < |h.parent| && 0 <= b < |h.parent|
    requires h.parent[a] == a && h.parent[b] == b && a != b
    requires g.parent == h.parent[a := b]
    ensures forall x :: 0 <= x < |h.parent| ==> Root(g, x) == if Root(h, x) == a then b else Root(h, x)
  {
    forall x | 0 <= x < |h.parent| ensures Root(g, x) == if Root(h, x) == a then b else Root(h, x)
    {
      LinkRoot(h, g, a, b, x);
    }
  }

  /** The number of roots among the vertices below k: the number of sets
      when k is the vertex count. */
  function RootCount(p: seq<int>, k: int): (c: nat)
    requires 0 <= k <= |p|
    ensures c <= k
  {
    if k == 0 then 0 else RootCount(p, k - 1) + (if p[k - 1] == k - 1 then 1 else 0)
  }

  lemma {:induction false} RootCountSame(p: seq<int>, q: seq<int>, k: int)
    requires 0 <= k <= |p| == |q|
    requires forall x :: 0 <= x < |p| ==> (q[x] == x <==> p[x] == x)
    ensures RootCount(q, k) == RootCount(p, k)
  {
    if k > 0 {
      RootCountSame(p, q, k - 1);
    }
  }

  /** Re-pointing one root elsewhere removes exactly one root. */
  lemma {:induction false} RootCountLink(p: seq<int>, a: int, b: int, k: int)
    requires 0 <= a < |p| && p[a] == a && a != b && 0 <= k <= |p|
    ensures RootCount(p[a := b], k) + (if a < k then 1 else 0) == RootCount(p, k)
  {
    if k > 0 {
      RootCountLink(p, a, b, k - 1);
    }
  }

  /** A forest with at least one vertex has at least one root. */
  lemma {:induction false} SomeRoot(f: Forest)
    requires Valid(f) && |f.parent| > 0
    ensures RootCount(f.parent, |f.parent|) >= 1
  {
    var r := Root(f, 0);
    RootCountHas(f.parent, r, |f.parent|);
  }

  lemma {:induction false} RootCountHas(p: seq<int>, r: int, k: int)
    requires 0 <= r < k <= |p| && p[r] == r
    ensures RootCount(p, k) >= 1
  {
    if r < k - 1 {
      RootCountHas(p, r, k - 1);
    }
  }

  /** When every vertex has the same root, the forest is a single set. */
  lemma OneSet(f: Forest, r: int)
    requires Valid(f) && 0 <= r < |f.parent|
    requires forall x :: 0 <= x < |f.parent| ==> Root(f, x) == r
    ensures RootCount(f.parent, |f.parent|) == 1
  {
    RootsAtMost(f, r, |f.parent|);
    SomeRoot(f);
  }

  lemma {:induction false} RootsAtMost(f: Forest, r: int, k: int)
    requires Valid(f) && 0 <= r < |f.parent| && 0 <= k <= |f.parent|
    requires forall x :: 0 <= x < |f.parent| ==> Root(f, x) == r
    ensures RootCount(f.parent, k) <= if r < k then 1 else 0
  {
    if k > 0 {
      RootsAtMost(f, r, k - 1);
      if f.parent[k - 1] == k - 1 {
        assert Root(f, k - 1) == k - 1;
      }
    }
  }
}
