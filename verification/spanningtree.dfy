/**
  Definitions shared by the two minimum-spanning-tree methods of the
  spanning-tree lab: the weighted adjacency matrix (0 for "no edge"), the
  output triples, and reachability along usable edges.
 */
module SpanningTree {
  import opened ShortestPaths

  /** A triple `(u, v, weight)` of the returned tree. */
  datatype Edge = Edge(u: int, v: int, w: int)

  /** A square weight matrix over the vertices 0 .. |graph|-1. */
  ghost predicate Square(graph: Matrix)
  {
    Covers(graph, |graph|)
  }

  /** An edge Prim's method can use: listed (non-zero) and lighter than the
      initial key `sys.maxsize`. */
  ghost predicate Usable(graph: Matrix, a: int, b: int)
    requires Square(graph) && 0 <= a < |graph| && 0 <= b < |graph|
  {
    graph[a][b] != 0 && graph[a][b] < INF
  }

  /** An undirected graph: the matrix equals its transpose. */
  ghost predicate Symmetric(graph: Matrix)
    requires Square(graph)
  {
    forall a, b :: 0 <= a < |graph| && 0 <= b < |graph| ==> graph[a][b] == graph[b][a]
  }

  ghost predicate IsWalk(graph: Matrix, p: seq<int>)
    requires Square(graph)
  {
    && |p| > 0
    && (forall i :: 0 <= i < |p| ==> 0 <= p[i] < |graph|)
    && (forall i :: 0 <= i < |p| - 1 ==> Usable(graph, p[i], p[i + 1]))
  }

  ghost predicate Reaches(graph: Matrix, a: int, b: int)
    requires Square(graph)
  {
    exists p :: IsWalk(graph, p) && p[0] == a && p[|p| - 1] == b
  }

  /** Every vertex can be reached from vertex 0. */
  ghost predicate Connected(graph: Matrix)
    requires Square(graph)
  {
    forall v :: 0 <= v < |graph| ==> Reaches(graph, 0, v)
  }

  /** A walk to a reachable vertex extends by one usable edge. */
  lemma ReachesStep(graph: Matrix, a: int, b: int, c: int)
    requires Square(graph) && 0 <= b < |graph| && 0 <= c < |graph|
    requires Reaches(graph, a, b) && Usable(graph, b, c)
    ensures Reaches(graph, a, c)
  {
    var p :| IsWalk(graph, p) && p[0] == a && p[|p| - 1] == b;
    var q := p + [c];
    assert IsWalk(graph, q) && q[0] == a && q[|q| - 1] == c;
  }

  /** A walk that starts inside a set and ends outside it leaves the set
      along some edge. */
  lemma {:induction false} LeavesAt(graph: Matrix, inside: seq<bool>, p: seq<int>) returns (i: int)
    requires Square(graph) && |inside| == |graph| && IsWalk(graph, p)
    requires inside[p[0]] && !inside[p[|p| - 1]]
    ensures 0 <= i < |p| - 1 && inside[p[i]] && !inside[p[i + 1]]
  {
    if inside[p[|p| - 2]] {
      i := |p| - 2;
    } else {
      i := LeavesAt(graph, inside, p[..|p| - 1]);
    }
  }

  /** One edge of a chain: some listed edge joins a and b, either way round. */
  ghost predicate Step(es: seq<Edge>, a: int, b: int)
  {
    exists i :: 0 <= i < |es| && ((es[i].u == a && es[i].v == b) || (es[i].u == b && es[i].v == a))
  }

  ghost predicate IsChain(es: seq<Edge>, p: seq<int>)
  {
    |p| > 0 && forall i :: 0 <= i < |p| - 1 ==> Step(es, p[i], p[i + 1])
  }

  /** a and b are joined by the edges in es, used in either direction. */
  ghost predicate Joins(es: seq<Edge>, a: int, b: int)
  {
    exists p :: IsChain(es, p) && p[0] == a && p[|p| - 1] == b
  }

  lemma JoinsSelf(es: seq<Edge>, a: int)
    ensures Joins(es, a, a)
  {
    assert IsChain(es, [a]);
  }

  lemma JoinsMore(es: seq<Edge>, e: Edge, a: int, b: int)
    requires Joins(es, a, b)
    ensures Joins(es + [e], a, b)
  {
    var p :| IsChain(es, p) && p[0] == a && p[|p| - 1] == b;
    forall i | 0 <= i < |p| - 1 ensures Step(es + [e], p[i], p[i + 1])
    {
      var j :| 0 <= j < |es| && ((es[j].u == p[i] && es[j].v == p[i + 1]) || (es[j].u == p[i + 1] && es[j].v == p[i]));
      assert (es + [e])[j] == es[j];
    }
    assert IsChain(es + [e], p);
  }

  lemma JoinsBack(es: seq<Edge>, a: int, b: int)
    requires Joins(es, a, b)
    ensures Joins(es, b, a)
  {
    var p :| IsChain(es, p) && p[0] == a && p[|p| - 1] == b;
    var q := seq(|p|, i requires 0 <= i < |p| => p[|p| - 1 - i]);
    forall i | 0 <= i < |q| - 1 ensures Step(es, q[i], q[i + 1])
    {
      var k := |p| - 2 - i;
      assert Step(es, p[k], p[k + 1]);
    }
    assert IsChain(es, q);
  }

  lemma JoinsThen(es: seq<Edge>, a: int, b: int, c: int)
    requires Joins(es, a, b) && Joins(es, b, c)
    ensures Joins(es, a, c)
  {
    var p :| IsChain(es, p) && p[0] == a && p[|p| - 1] == b;
    var q :| IsChain(es, q) && q[0] == b && q[|q| - 1] == c;
    var r := p + q[1..];
    forall i | 0 <= i < |r| - 1 ensures Step(es, r[i], r[i + 1])
    {
      if i < |p| - 1 {
        assert r[i] == p[i] && r[i + 1] == p[i + 1];
      } else {
        var k := i - |p| + 1;
        assert r[i] == q[k] && r[i + 1] == q[k + 1];
      }
    }
    assert IsChain(es, r);
  }

  /** The added edge joins its two ends. */
  lemma JoinsEdge(es: seq<Edge>, e: Edge)
    ensures Joins(es + [e], e.u, e.v)
  {
    assert Step(es + [e], e.u, e.v) by {
      assert (es + [e])[|es|] == e;
    }
    assert IsChain(es + [e], [e.u, e.v]);
  }

  /** The number of entries that are set. */
  function CountTrue(s: seq<bool>): (c: nat)
    ensures c <= |s|
  {
    if |s| == 0 then 0 else CountTrue(s[..|s| - 1]) + (if s[|s| - 1] then 1 else 0)
  }

  lemma {:induction false} CountSet(s: seq<bool>, u: int)
    requires 0 <= u < |s| && !s[u]
    ensures CountTrue(s[u := true]) == CountTrue(s) + 1
  {
    var m := |s| - 1;
    if u < m {
      assert s[u := true][..m] == s[..m][u := true];
      CountSet(s[..m], u);
    } else {
      assert s[u := true][..m] == s[..m];
    }
  }

  lemma {:induction false} NoneSet(s: seq<bool>)
    requires forall i :: 0 <= i < |s| ==> !s[i]
    ensures CountTrue(s) == 0
  {
    if |s| > 0 {
      NoneSet(s[..|s| - 1]);
    }
  }

  /** Fewer set entries than entries leaves one unset. */
  lemma {:induction false} SomeUnset(s: seq<bool>) returns (w: int)
    requires CountTrue(s) < |s|
    ensures 0 <= w < |s| && !s[w]
  {
    if s[|s| - 1] {
      w := SomeUnset(s[..|s| - 1]);
    } else {
      w := |s| - 1;
    }
  }

  /** Two different unset entries cost two. */
  lemma {:induction false} TwoUnset(s: seq<bool>, x: int, y: int)
    requires 0 <= x < |s| && 0 <= y < |s| && x != y && !s[x] && !s[y]
    ensures CountTrue(s) + 2 <= |s|
  {
    var m := |s| - 1;
    if x < m && y < m {
      TwoUnset(s[..m], x, y);
    } else {
      var z := if x < m then x else y;
      UnsetBelow(s[..m], z);
    }
  }

  lemma {:induction false} UnsetBelow(s: seq<bool>, z: int)
    requires 0 <= z < |s| && !s[z]
    ensures CountTrue(s) + 1 <= |s|
  {
    if z < |s| - 1 {
      UnsetBelow(s[..|s| - 1], z);
    }
  }
}
