/**
  `prim(graph)` of the spanning-tree lab: grow a tree from vertex 0, each
  round adding the cheapest vertex outside it, and return the triples
  `(parent[v], v, weight)` for v = 1 .. n-1.
 */
module Prim {
  import opened Wrappers
  import opened ShortestPaths
  import opened SpanningTree

  /** What the source raises instead of returning a tree: an empty graph
      fails on `key[0] = 0` (IndexError); an unreachable vertex leaves a
      `None` that is then used as an index (TypeError), either from
      `find_min_key` inside the loop or from `parent[v]` when the triples
      are built. */
  datatype PrimError = EmptyGraph | Unreached

  /** `find_min_key(key, mst_set, num_nodes)`: the first vertex outside the
      tree with the strictly smallest key below `sys.maxsize`, or `None`. */
  method FindMinKey(key: seq<int>, inTree: seq<bool>, n: int) returns (r: Option<int>)
    requires 0 <= n <= |key| && n <= |inTree|
    ensures r.None? <==> forall v :: 0 <= v < n && !inTree[v] ==> key[v] >= INF
    ensures r.Some? ==> 0 <= r.value < n && !inTree[r.value] && key[r.value] < INF
    ensures r.Some? ==> forall v :: 0 <= v < n && !inTree[v] ==> key[r.value] <= key[v]
    ensures r.Some? ==> forall v :: 0 <= v < r.value && !inTree[v] ==> key[r.value] < key[v]
  {
    var minKey := INF;
    r := None;
    for v := 0 to n
      invariant r.None? ==> minKey == INF && forall x :: 0 <= x < v && !inTree[x] ==> key[x] >= INF
      invariant r.Some? ==> 0 <= r.value < v && !inTree[r.value] && minKey == key[r.value] && minKey < INF
      invariant r.Some? ==> forall x :: 0 <= x < v && !inTree[x] ==> minKey <= key[x]
      invariant r.Some? ==> forall x :: 0 <= x < r.value && !inTree[x] ==> minKey < key[x]
    {
      if key[v] < minKey && !inTree[v] {
        minKey := key[v];
        r := Some(v);
      }
    }
  }

  /** The arrays `key`, `parent` and `mst_set` of `prim`. */
  datatype Tree = Tree(key: seq<int>, parent: seq<Option<int>>, inTree: seq<bool>)

  /** The loop over v after u joins the tree: a neighbour outside the tree
      whose key the edge from u beats takes that weight as key and u as
      parent. */
  method Attach(graph: Matrix, t: Tree, u: int) returns (t': Tree)
    requires Square(graph) && |t.key| == |t.parent| == |t.inTree| == |graph|
    requires 0 <= u < |graph|
    ensures |t'.key| == |t'.parent| == |graph| && t'.inTree == t.inTree[u := true]
    ensures forall v :: 0 <= v < |graph| && graph[u][v] != 0 && !t'.inTree[v] && graph[u][v] < t.key[v] ==>
      t'.key[v] == graph[u][v] && t'.parent[v] == Some(u)
    ensures forall v :: 0 <= v < |graph| && !(graph[u][v] != 0 && !t'.inTree[v] && graph[u][v] < t.key[v]) ==>
      t'.key[v] == t.key[v] && t'.parent[v] == t.parent[v]
  {
    var key := t.key;
    var parent := t.parent;
    var inTree := t.inTree[u := true];
    for v := 0 to |graph|
      invariant |key| == |parent| == |graph|
      invariant forall x :: 0 <= x < v && graph[u][x] != 0 && !inTree[x] && graph[u][x] < t.key[x] ==>
        key[x] == graph[u][x] && parent[x] == Some(u)
      invariant forall x :: 0 <= x < |graph| && !(x < v && graph[u][x] != 0 && !inTree[x] && graph[u][x] < t.key[x]) ==>
        key[x] == t.key[x] && parent[x] == t.parent[x]
    {
      if graph[u][v] != 0 && !inTree[v] && graph[u][v] < key[v] {
        key := key[v := graph[u][v]];
        parent := parent[v := Some(u)];
      }
    }
    t' := Tree(key, parent, inTree);
  }

  /** The invariant of the main loop of `prim`.
      - Keys never exceed `sys.maxsize`; a finite key belongs to a vertex
        reachable from 0, and (apart from vertex 0) to exactly the vertices
        that have a parent.
      - A parent is a tree vertex, and the key is the weight of the edge
        from it.
      - Every tree vertex has a finite key, and every usable edge from the
        tree bounds the key of its far end.
      - Until vertex 0 joins, the tree is empty and only vertex 0 has a
        finite key. */
  ghost predicate Keys(graph: Matrix, t: Tree)
    requires Square(graph)
  {
    && |t.key| == |t.parent| == |t.inTree| == |graph|
    && (forall v :: 0 <= v < |graph| ==> t.key[v] <= INF)
    && (forall v :: 0 <= v < |graph| && t.key[v] < INF ==> Reaches(graph, 0, v))
    && (forall v :: 0 <= v < |graph| && v != 0 ==> (t.parent[v].Some? <==> t.key[v] < INF))
  }

  ghost predicate Parents(graph: Matrix, t: Tree)
    requires Square(graph) && |t.key| == |t.parent| == |t.inTree| == |graph|
  {
    forall v :: 0 <= v < |graph| && v != 0 && t.parent[v].Some? ==>
      var p := t.parent[v].value;
      0 <= p < |graph| && t.inTree[p] && graph[p][v] == t.key[v] && graph[p][v] != 0
  }

  ghost predicate Cut(graph: Matrix, t: Tree)
    requires Square(graph) && |t.key| == |t.parent| == |t.inTree| == |graph|
  {
    && (forall v :: 0 <= v < |graph| && t.inTree[v] ==> t.key[v] < INF)
    && (forall a, b :: 0 <= a < |graph| && 0 <= b < |graph| && t.inTree[a] && !t.inTree[b] && Usable(graph, a, b) ==>
          t.key[b] <= graph[a][b])
    && (|graph| > 0 && !t.inTree[0] ==>
          forall v :: 0 <= v < |graph| ==> !t.inTree[v] && t.key[v] == (if v == 0 then 0 else INF))
  }

  ghost predicate PrimState(graph: Matrix, t: Tree)
    requires Square(graph)
  {
    Keys(graph, t) && Parents(graph, t) && Cut(graph, t)
  }

  /** With vertex 0 reachable from everywhere, some vertex outside the tree
      has a finite key. */
  lemma FrontierKey(graph: Matrix, t: Tree, w: int) returns (x: int)
    requires Square(graph) && PrimState(graph, t) && Connected(graph)
    requires 0 <= w < |graph| && !t.inTree[w]
    ensures 0 <= x < |graph| && !t.inTree[x] && t.key[x] < INF
  {
    if !t.inTree[0] {
      x := 0;
    } else {
      assert Reaches(graph, 0, w);
      var p :| IsWalk(graph, p) && p[0] == 0 && p[|p| - 1] == w;
      var i := LeavesAt(graph, t.inTree, p);
      x := p[i + 1];
    }
  }

  /** The facts `Attach` states about the round that picks u. */
  ghost predicate Attached(graph: Matrix, t: Tree, u: int, t': Tree)
    requires Square(graph) && |t.key| == |t.parent| == |t.inTree| == |graph| && 0 <= u < |graph|
  {
    && |t'.key| == |t'.parent| == |graph| && t'.inTree == t.inTree[u := true]
    && (forall v :: 0 <= v < |graph| && graph[u][v] != 0 && !t'.inTree[v] && graph[u][v] < t.key[v] ==>
          t'.key[v] == graph[u][v] && t'.parent[v] == Some(u))
    && (forall v :: 0 <= v < |graph| && !(graph[u][v] != 0 && !t'.inTree[v] && graph[u][v] < t.key[v]) ==>
          t'.key[v] == t.key[v] && t'.parent[v] == t.parent[v])
  }

  /** The vertex a round picks: outside the tree, with the smallest key,
      which is finite. */
  ghost predicate Picked(graph: Matrix, t: Tree, u: int)
    requires Square(graph) && |t.key| == |t.parent| == |t.inTree| == |graph|
  {
    && 0 <= u < |graph| && !t.inTree[u] && t.key[u] < INF
    && forall v :: 0 <= v < |graph| && !t.inTree[v] ==> t.key[u] <= t.key[v]
  }

  lemma AttachKeys(graph: Matrix, t: Tree, u: int, t': Tree)
    requires Square(graph) && PrimState(graph, t) && Picked(graph, t, u) && Attached(graph, t, u, t')
    ensures Keys(graph, t')
  {
    forall v | 0 <= v < |graph| && t'.key[v] < INF ensures Reaches(graph, 0, v)
    {
      if t'.key[v] != t.key[v] {
        ReachesStep(graph, 0, u, v);
      }
    }
  }

  lemma AttachParents(graph: Matrix, t: Tree, u: int, t': Tree)
    requires Square(graph) && PrimState(graph, t) && Picked(graph, t, u) && Attached(graph, t, u, t')
    ensures Parents(graph, t')
  {
  }

  lemma AttachCut(graph: Matrix, t: Tree, u: int, t': Tree)
    requires Square(graph) && PrimState(graph, t) && Picked(graph, t, u) && Attached(graph, t, u, t')
    ensures Cut(graph, t')
  {
    if !t.inTree[0] {
      assert u == 0;
    }
  }

  /** One round keeps the loop invariant. */
  lemma AttachKeeps(graph: Matrix, t: Tree, u: int, t': Tree)
    requires Square(graph) && PrimState(graph, t) && Picked(graph, t, u) && Attached(graph, t, u, t')
    ensures PrimState(graph, t')
  {
    AttachKeys(graph, t, u, t');
    AttachParents(graph, t, u, t');
    AttachCut(graph, t, u, t');
  }

  /** A ghost record of the round in which each tree vertex joined: every
      tree vertex other than 0 hangs from a tree vertex that joined earlier.
      It makes the parent pointers acyclic. */
  ghost predicate JoinOrder(graph: Matrix, t: Tree, order: seq<int>, k: int)
    requires Square(graph) && |t.parent| == |t.inTree| == |graph|
  {
    && |order| == |graph|
    && (forall v :: 0 <= v < |graph| && t.inTree[v] ==> 0 <= order[v] < k)
    && (forall v :: 0 < v < |graph| && t.inTree[v] && t.parent[v].Some? ==>
          var p := t.parent[v].value;
          0 <= p < |graph| && t.inTree[p] && order[p] < order[v])
  }

  /** The vertex picked in round k joins after every tree vertex, and the
      parents of tree vertices do not move. */
  lemma OrderStep(graph: Matrix, t: Tree, u: int, t': Tree, order: seq<int>, k: int)
    requires Square(graph) && PrimState(graph, t) && Picked(graph, t, u) && Attached(graph, t, u, t')
    requires 0 <= k && JoinOrder(graph, t, order, k)
    ensures JoinOrder(graph, t', order[u := k], k + 1)
  {
    var order' := order[u := k];
    forall v | 0 <= v < |graph| && t'.inTree[v] ensures 0 <= order'[v] < k + 1
    {
      if v != u {
        assert t.inTree[v] && order'[v] == order[v];
      }
    }
    forall v | 0 < v < |graph| && t'.inTree[v] && t'.parent[v].Some?
      ensures var p := t'.parent[v].value; 0 <= p < |graph| && t'.inTree[p] && order'[p] < order'[v]
    {
      assert t'.parent[v] == t.parent[v];
      var p := t.parent[v].value;
      assert t.inTree[p] && p != u;
    }
  }

  /** The arrays as `prim` sets them up: only vertex 0 has a key (0) and a
      parent (-1), and the tree is empty. */
  function Start(n: nat): (t: Tree)
    ensures |t.key| == |t.parent| == |t.inTree| == n
    ensures forall v :: 0 <= v < n ==> !t.inTree[v]
    ensures n > 0 ==> t.key[0] == 0 && forall v :: 0 < v < n ==> t.key[v] == INF && t.parent[v].None?
  {
    Tree(seq(n, i => if i == 0 then 0 else INF), seq(n, i => if i == 0 then Some(-1) else None), seq(n, i => false))
  }

  lemma StartState(graph: Matrix)
    requires Square(graph) && |graph| > 0
    ensures PrimState(graph, Start(|graph|)) && CountTrue(Start(|graph|).inTree) == 0
  {
    assert IsWalk(graph, [0]);
    NoneSet(Start(|graph|).inTree);
  }

  /** The main loop of `prim`: n-1 rounds, each moving the cheapest vertex
      outside the tree into it. It stops early (the source's TypeError on
      `mst_set[None]`) only when some vertex cannot be reached from 0. */
  method Grow(graph: Matrix) returns (r: Option<Tree>, ghost order: seq<int>)
    requires Square(graph) && |graph| > 0
    ensures r.None? ==> !Connected(graph)
    ensures r.Some? ==> PrimState(graph, r.value) && CountTrue(r.value.inTree) == |graph| - 1
    ensures r.Some? ==> JoinOrder(graph, r.value, order, |graph| - 1)
  {
    var n := |graph|;
    var t := Start(n);
    StartState(graph);
    order := seq(n, i => 0);
    for round := 0 to n - 1
      invariant PrimState(graph, t) && CountTrue(t.inTree) == round
      invariant JoinOrder(graph, t, order, round)
    {
      var u := FindMinKey(t.key, t.inTree, n);
      if u.None? {
        if Connected(graph) {
          var w := SomeUnset(t.inTree);
          var x := FrontierKey(graph, t, w);
          assert false;
        }
        return None, order;
      }
      var t' := Attach(graph, t, u.value);
      AttachKeeps(graph, t, u.value, t');
      OrderStep(graph, t, u.value, t', order, round);
      CountSet(t.inTree, u.value);
      t := t';
      order := order[u.value := round];
    }
    r := Some(t);
  }

  /** A parent on every vertex but 0 means every vertex is reached. */
  lemma AllParentsConnected(graph: Matrix, t: Tree)
    requires Square(graph) && PrimState(graph, t)
    requires forall v :: 0 < v < |graph| ==> t.parent[v].Some?
    ensures Connected(graph)
  {
    forall v | 0 <= v < |graph| ensures Reaches(graph, 0, v)
    {
      if v == 0 {
        assert IsWalk(graph, [0]);
      }
    }
  }

  /** After n-1 rounds of a connected graph, every vertex but 0 has a
      parent: the one vertex still outside the tree has a finite key. */
  lemma HasParent(graph: Matrix, t: Tree, v: int)
    requires Square(graph) && PrimState(graph, t) && CountTrue(t.inTree) == |graph| - 1
    requires Connected(graph) && 0 < v < |graph|
    ensures t.parent[v].Some?
  {
    if !t.inTree[v] {
      var x := FrontierKey(graph, t, v);
      if x != v {
        TwoUnset(t.inTree, x, v);
      }
    }
  }

  /** A parent gives a finite key and a usable edge carrying it. */
  lemma ParentEdge(graph: Matrix, t: Tree, v: int)
    requires Square(graph) && PrimState(graph, t) && 0 < v < |graph| && t.parent[v].Some?
    ensures t.key[v] < INF
    ensures var p := t.parent[v].value; 0 <= p < |graph| && graph[p][v] == t.key[v] && Usable(graph, p, v)
  {
  }

  /** mst[i] is the triple `(parent, i + 1, weight)` of a usable edge. */
  ghost predicate Triples(graph: Matrix, mst: seq<Edge>)
    requires Square(graph)
  {
    forall i :: 0 <= i < |mst| ==>
      var e := mst[i];
      e.v == i + 1 < |graph| && 0 <= e.u < |graph| && e.w == graph[e.u][e.v] && Usable(graph, e.u, e.v)
  }

  lemma TriplesExtend(graph: Matrix, mst: seq<Edge>, p: int, v: int)
    requires Square(graph) && Triples(graph, mst) && |mst| == v - 1
    requires 0 <= p < |graph| && 0 < v < |graph| && Usable(graph, p, v)
    ensures Triples(graph, mst + [Edge(p, v, graph[p][v])])
  {
  }

  /** Every parent recorded for a vertex v > 0 is a vertex joined to v by
      a usable edge. */
  ghost predicate ParentEdges(graph: Matrix, parent: seq<Option<int>>)
    requires Square(graph)
  {
    && |parent| == |graph|
    && forall v :: 0 < v < |graph| && parent[v].Some? ==>
         0 <= parent[v].value < |graph| && Usable(graph, parent[v].value, v)
  }

  lemma StateParentEdges(graph: Matrix, t: Tree)
    requires Square(graph) && PrimState(graph, t)
    ensures ParentEdges(graph, t.parent)
  {
    forall v | 0 < v < |graph| && t.parent[v].Some?
      ensures 0 <= t.parent[v].value < |graph| && Usable(graph, t.parent[v].value, v)
    {
      ParentEdge(graph, t, v);
    }
  }

  /** mst lists `(parent[v], v, graph[parent[v]][v])` for v = 1 .. n-1. */
  ghost predicate ParentTriples(graph: Matrix, parent: seq<Option<int>>, mst: seq<Edge>)
    requires Square(graph) && |parent| == |graph|
  {
    && |mst| == |graph| - 1
    && forall i :: 0 <= i < |mst| ==>
         && parent[i + 1].Some? && 0 <= parent[i + 1].value < |graph|
         && mst[i] == Edge(parent[i + 1].value, i + 1, graph[parent[i + 1].value][i + 1])
  }

  /** The last loop of `prim` on the parent list alone: one triple
      `(parent[v], v, weight)` for each v = 1 .. n-1, failing (the source's
      TypeError on `graph[None]`) at the first vertex without a parent. */
  method Gather(graph: Matrix, parent: seq<Option<int>>) returns (r: Option<seq<Edge>>)
    requires Square(graph) && |graph| > 0 && ParentEdges(graph, parent)
    ensures r.None? <==> exists v :: 0 < v < |graph| && parent[v].None?
    ensures r.Some? ==> Triples(graph, r.value) && ParentTriples(graph, parent, r.value)
  {
    var n := |graph|;
    var mst: seq<Edge> := [];
    for v := 1 to n
      invariant |mst| == v - 1 && Triples(graph, mst)
      invariant forall i :: 0 <= i < |mst| ==>
        && parent[i + 1].Some? && 0 <= parent[i + 1].value < |graph|
        && mst[i] == Edge(parent[i + 1].value, i + 1, graph[parent[i + 1].value][i + 1])
      invariant forall x :: 0 < x < v ==> parent[x].Some?
    {
      if parent[v].None? {
        return None;
      }
      var p := parent[v].value;
      TriplesExtend(graph, mst, p, v);
      mst := mst + [Edge(p, v, graph[p][v])];
    }
    r := Some(mst);
  }

  lemma ParentTripleAt(graph: Matrix, parent: seq<Option<int>>, mst: seq<Edge>, i: int)
    requires Square(graph) && |parent| == |graph| && ParentTriples(graph, parent, mst) && 0 <= i < |mst|
    ensures parent[i + 1].Some? && 0 <= parent[i + 1].value < |graph|
    ensures mst[i] == Edge(parent[i + 1].value, i + 1, graph[parent[i + 1].value][i + 1])
  {
    var e := mst[i];
  }

  /** Following parent edges from any vertex reaches vertex 0, so the
      parent triples join every vertex to 0. The recursion goes to the
      parent, which joined the tree earlier; the one vertex still outside
      the tree counts as joining last. */
  lemma {:induction false} JoinedToRoot(graph: Matrix, t: Tree, order: seq<int>, mst: seq<Edge>, v: int)
    requires Square(graph) && |graph| > 0 && PrimState(graph, t) && JoinOrder(graph, t, order, |graph| - 1)
    requires ParentTriples(graph, t.parent, mst)
    requires 0 <= v < |graph|
    ensures Joins(mst, v, 0)
    decreases if t.inTree[v] then order[v] else |graph| - 1
  {
    if v == 0 {
      JoinsSelf(mst, 0);
    } else {
      assert t.parent[v].Some? by {
        ParentTripleAt(graph, t.parent, mst, v - 1);
      }
      var p := t.parent[v].value;
      assert t.inTree[p] && order[p] < |graph| - 1;
      JoinedToRoot(graph, t, order, mst, p);
      assert mst[v - 1].u == p && mst[v - 1].v == v;
      assert Step(mst, v, p);
      assert IsChain(mst, [v, p]);
      JoinsThen(mst, v, p, 0);
    }
  }

  /** The last loop of `prim` on the tree the main loop leaves. After n-1
      rounds only one vertex is left outside the tree, so it fails exactly
      when the graph is not connected. */
  method Collect(graph: Matrix, t: Tree, ghost order: seq<int>) returns (r: Result<seq<Edge>, PrimError>)
    requires Square(graph) && |graph| > 0
    requires PrimState(graph, t) && CountTrue(t.inTree) == |graph| - 1
    requires JoinOrder(graph, t, order, |graph| - 1)
    ensures r.Success? <==> Connected(graph)
    ensures r.Failure? ==> r.error == Unreached
    ensures r.Success? ==> |r.value| == |graph| - 1
    ensures r.Success? ==> forall i :: 0 <= i < |r.value| ==>
      var e := r.value[i];
      e.v == i + 1 && 0 <= e.u < |graph| && e.w == graph[e.u][e.v] && Usable(graph, e.u, e.v)
    ensures r.Success? ==> ParentTriples(graph, t.parent, r.value)
    ensures r.Success? ==> forall v :: 0 <= v < |graph| ==> Joins(r.value, v, 0)
  {
    StateParentEdges(graph, t);
    var g := Gather(graph, t.parent);
    if g.None? {
      if Connected(graph) {
        var v :| 0 < v < |graph| && t.parent[v].None?;
        HasParent(graph, t, v);
        assert false;
      }
      return Failure(Unreached);
    }
    AllParentsConnected(graph, t);
    forall v | 0 <= v < |graph| ensures Joins(g.value, v, 0)
    {
      JoinedToRoot(graph, t, order, g.value, v);
    }
    r := Success(g.value);
  }

  /** `prim(graph)`. It fails on an empty graph, and otherwise succeeds
      exactly when every vertex is reachable from vertex 0; it then returns
      the triple `(parent[v], v, weight)` for each v = 1 .. n-1 of the final
      arrays `t`, each an edge of the graph. Every parent is a tree vertex,
      and the n-1 triples join every vertex to 0: a spanning tree. */
  method Prim(graph: Matrix) returns (r: Result<seq<Edge>, PrimError>, ghost t: Tree)
    requires Square(graph)
    ensures |graph| == 0 <==> r == Failure(EmptyGraph)
    ensures |graph| > 0 ==> (r.Success? <==> Connected(graph))
    ensures r.Success? ==> |r.value| == |graph| - 1
    ensures r.Success? ==> forall i :: 0 <= i < |r.value| ==>
      var e := r.value[i];
      e.v == i + 1 && 0 <= e.u < |graph| && e.w == graph[e.u][e.v] && Usable(graph, e.u, e.v)
    ensures r.Success? ==> PrimState(graph, t) && ParentTriples(graph, t.parent, r.value)
    ensures r.Success? ==> forall v :: 0 <= v < |graph| ==> Joins(r.value, v, 0)
  {
    t := Start(|graph|);
    if |graph| == 0 {
      return Failure(EmptyGraph), t;
    }
    var grown, order := Grow(graph);
    if grown.None? {
      return Failure(Unreached), t;
    }
    t := grown.value;
    r := Collect(graph, grown.value, order);
  }
}
