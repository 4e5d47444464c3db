/**
  Graph traversal lab: recursive depth-first search and queue-based
  breadth-first search over an adjacency-list graph (a map from a node
  name to the list of its neighbours). What the source prints is returned
  here as the visit order.
 */
module Traversal {

  type Node = string
  type Graph = map<Node, seq<Node>>

  /** Every listed neighbour is itself a key; otherwise `graph[...]` raises
      KeyError when the search reaches it. */
  ghost predicate Closed(g: Graph)
  {
    forall x, y :: x in g && y in g[x] ==> y in g
  }

  predicate NoDup(s: seq<Node>)
  {
    forall i, j :: 0 <= i < j < |s| ==> s[i] != s[j]
  }

  /** p is a walk along edges of g. */
  ghost predicate IsPath(g: Graph, p: seq<Node>)
  {
    && |p| > 0
    && (forall i :: 0 <= i < |p| - 1 ==> p[i] in g && p[i + 1] in g[p[i]])
  }

  ghost predicate Reachable(g: Graph, a: Node, b: Node)
  {
    exists p :: IsPath(g, p) && p[0] == a && p[|p| - 1] == b
  }

  // ---------------------------------------------------------------------
  // dfs(visited, graph, node)

  /** The state a call of `dfs` leaves behind: the visited set after the
      call and the nodes it printed, in order. */
  datatype Walk = Walk(visited: set<Node>, order: seq<Node>)

  /** What a DFS call starting from the visited set V guarantees: the set
      only grows, by graph nodes; it prints exactly the newly visited
      nodes, each once; and every newly visited node has all of its
      neighbours visited. */
  ghost predicate Grows(g: Graph, V: set<Node>, w: Walk)
  {
    && V <= w.visited
    && (forall x :: x in w.visited && x !in V ==> x in g)
    && (forall x :: x in w.order <==> x in w.visited && x !in V)
    && NoDup(w.order)
    && (forall x, y :: x in w.visited && x !in V && x in g && y in g[x] ==> y in w.visited)
  }

  lemma CardRemove(K: set<Node>, V: set<Node>, x: Node)
    requires x in K && x !in V
    ensures |K - (V + {x})| < |K - V|
  {
    assert K - V == (K - (V + {x})) + {x};
  }

  lemma CardShrink(K: set<Node>, V: set<Node>, W: set<Node>)
    requires V <= W
    ensures |K - W| <= |K - V|
  {
    assert K - V == (K - W) + ((K - V) * W);
  }

  /** The newly visited part of a DFS of `node`: node, then the DFS of
      its neighbour list. */
  lemma DfsNodeGrows(g: Graph, V: set<Node>, node: Node, rest: Walk)
    requires Closed(g) && node in g && node !in V
    requires Grows(g, V + {node}, rest)
    requires forall n :: n in g[node] ==> n in rest.visited
    ensures Grows(g, V, Walk(rest.visited, [node] + rest.order))
  {
    var w := Walk(rest.visited, [node] + rest.order);
    assert forall x :: x in w.order <==> x == node || x in rest.order;
    forall i, j | 0 <= i < j < |w.order| ensures w.order[i] != w.order[j]
    {
      if i == 0 {
        assert w.order[j] in rest.order;
      } else {
        assert w.order[i] == rest.order[i - 1] && w.order[j] == rest.order[j - 1];
      }
    }
  }

  lemma DfsListGrows(g: Graph, V: set<Node>, first: Walk, rest: Walk)
    requires Grows(g, V, first) && Grows(g, first.visited, rest)
    ensures Grows(g, V, Walk(rest.visited, first.order + rest.order))
  {
    var o := first.order + rest.order;
    assert forall x :: x in o <==> x in first.order || x in rest.order;
    forall i, j | 0 <= i < j < |o| ensures o[i] != o[j]
    {
      if j < |first.order| {
      } else if i >= |first.order| {
        assert o[i] == rest.order[i - |first.order|] && o[j] == rest.order[j - |first.order|];
      } else {
        assert o[i] in first.order && o[j] in rest.order;
      }
    }
  }

  /** `dfs(visited, graph, node)` on the visited set V. */
  function Dfs(g: Graph, V: set<Node>, node: Node): (w: Walk)
    requires Closed(g) && node in g
    ensures Grows(g, V, w)
    ensures node in w.visited
    ensures node in V ==> w == Walk(V, [])
    ensures node !in V ==> |w.order| > 0 && w.order[0] == node
    decreases |g.Keys - V|, 0
  {
    if node in V then Walk(V, [])
    else
      CardRemove(g.Keys, V, node);
      var rest := DfsList(g, V + {node}, g[node]);
      DfsNodeGrows(g, V, node, rest);
      Walk(rest.visited, [node] + rest.order)
  }

  /** The loop `for neighbour in graph[node]`, one DFS call per entry. */
  function DfsList(g: Graph, V: set<Node>, ns: seq<Node>): (w: Walk)
    requires Closed(g) && forall n :: n in ns ==> n in g
    ensures Grows(g, V, w)
    ensures forall n :: n in ns ==> n in w.visited
    decreases |g.Keys - V|, |ns| + 1
  {
    if |ns| == 0 then Walk(V, [])
    else
      var first := Dfs(g, V, ns[0]);
      CardShrink(g.Keys, V, first.visited);
      var rest := DfsList(g, first.visited, ns[1..]);
      DfsListGrows(g, V, first, rest);
      assert forall n :: n in ns ==> n == ns[0] || n in ns[1..];
      Walk(rest.visited, first.order + rest.order)
  }

  /** A set closed under the edges of its new members contains every node
      reachable along a path that avoids V. */
  lemma {:induction false} ClosedReaches(g: Graph, V: set<Node>, W: set<Node>, p: seq<Node>, k: int)
    requires IsPath(g, p) && p[0] in W && 0 <= k < |p|
    requires forall i :: 0 <= i < |p| ==> p[i] !in V
    requires forall x, y :: x in W && x !in V && x in g && y in g[x] ==> y in W
    ensures p[k] in W
  {
    if k > 0 {
      ClosedReaches(g, V, W, p, k - 1);
    }
  }

  /** After `dfs(visited, g, r)`, every node reachable from r through
      nodes that were unvisited at the start is visited. */
  lemma DfsReachesAll(g: Graph, V: set<Node>, r: Node, p: seq<Node>)
    requires Closed(g) && r in g
    requires IsPath(g, p) && p[0] == r
    requires forall i :: 0 <= i < |p| ==> p[i] !in V
    ensures p[|p| - 1] in Dfs(g, V, r).visited
  {
    ClosedReaches(g, V, Dfs(g, V, r).visited, p, |p| - 1);
  }

  // ---------------------------------------------------------------------
  // bfs(graph, node)

  /** The visited list and the queue of `bfs`. */
  datatype Frontier = Frontier(visited: seq<Node>, queue: seq<Node>)

  /** What the inner loop of `bfs` does to the visited list and the queue
      for the neighbours ns: it appends to both the same new nodes, each a
      neighbour not visited before, and afterwards every neighbour is
      visited; a visited list without duplicates keeps none. */
  ghost predicate Extends(visited: seq<Node>, queue: seq<Node>, ns: seq<Node>, f: Frontier)
  {
    && |visited| <= |f.visited| && f.visited[..|visited|] == visited
    && f.queue == queue + f.visited[|visited|..]
    && (forall x :: x in f.visited[|visited|..] ==> x in ns && x !in visited)
    && (NoDup(visited) ==> NoDup(f.visited))
    && (forall n :: n in ns ==> n in f.visited)
    && (forall x :: x in f.visited <==> x in visited || (x in ns && x in f.visited))
  }

  lemma ExtendsSkip(visited: seq<Node>, queue: seq<Node>, ns: seq<Node>, f: Frontier)
    requires |ns| > 0 && ns[0] in visited && Extends(visited, queue, ns[1..], f)
    ensures Extends(visited, queue, ns, f)
  {
    assert forall n :: n in ns ==> n == ns[0] || n in ns[1..];
  }

  lemma ExtendsAdd(visited: seq<Node>, queue: seq<Node>, ns: seq<Node>, f: Frontier)
    requires |ns| > 0 && ns[0] !in visited
    requires Extends(visited + [ns[0]], queue + [ns[0]], ns[1..], f)
    ensures Extends(visited, queue, ns, f)
  {
    var v' := visited + [ns[0]];
    assert f.visited[..|visited|] == v'[..|visited|] == visited;
    assert f.visited[|visited|..] == [ns[0]] + f.visited[|v'|..];
    assert f.visited[|visited|] == ns[0];
    assert forall n :: n in ns ==> n == ns[0] || n in ns[1..];
    assert NoDup(visited) ==> NoDup(v');
  }

  /** The inner loop of `bfs`: every neighbour not yet visited is appended
      to both the visited list and the queue. */
  function Enqueue(visited: seq<Node>, queue: seq<Node>, ns: seq<Node>): (f: Frontier)
    ensures Extends(visited, queue, ns, f)
    decreases |ns|
  {
    if |ns| == 0 then Frontier(visited, queue)
    else if ns[0] in visited then
      var f := Enqueue(visited, queue, ns[1..]);
      ExtendsSkip(visited, queue, ns, f);
      f
    else
      var f := Enqueue(visited + [ns[0]], queue + [ns[0]], ns[1..]);
      ExtendsAdd(visited, queue, ns, f);
      f
  }

  /** The index of the first occurrence of x in ns. */
  function FirstAt(ns: seq<Node>, x: Node): (i: nat)
    requires x in ns
    ensures i < |ns| && ns[i] == x && x !in ns[..i]
  {
    if ns[0] == x then 0 else 1 + FirstAt(ns[1..], x)
  }

  lemma FirstAtTail(ns: seq<Node>, x: Node)
    requires |ns| > 0 && x in ns[1..] && x != ns[0]
    ensures x in ns && FirstAt(ns, x) == 1 + FirstAt(ns[1..], x)
  {
  }

  /** A node the inner loop appends is a neighbour that was not visited. */
  lemma Appended(visited: seq<Node>, queue: seq<Node>, ns: seq<Node>, f: Frontier, a: int)
    requires Extends(visited, queue, ns, f) && |visited| <= a < |f.visited|
    ensures f.visited[a] in ns && f.visited[a] !in visited
  {
    assert f.visited[a] == f.visited[|visited|..][a - |visited|];
  }

  /** The appended nodes v[lo..] of f come in the order of their first
      occurrence in ns. */
  ghost predicate InListOrder(ns: seq<Node>, f: Frontier, lo: int)
  {
    forall a, b :: 0 <= lo <= a < b < |f.visited| ==> Before(ns, f.visited[a], f.visited[b])
  }

  /** x occurs in ns before y first does. */
  ghost predicate Before(ns: seq<Node>, x: Node, y: Node)
  {
    x in ns && y in ns && FirstAt(ns, x) < FirstAt(ns, y)
  }

  /** Skipping a visited head keeps the order of what the rest appends. */
  lemma OrderSkip(visited: seq<Node>, queue: seq<Node>, ns: seq<Node>, f: Frontier)
    requires |ns| > 0 && ns[0] in visited && Extends(visited, queue, ns[1..], f)
    requires InListOrder(ns[1..], f, |visited|)
    ensures InListOrder(ns, f, |visited|)
  {
    forall a, b | 0 <= |visited| <= a < b < |f.visited|
      ensures Before(ns, f.visited[a], f.visited[b])
    {
      Appended(visited, queue, ns[1..], f, a);
      Appended(visited, queue, ns[1..], f, b);
      var x, y := f.visited[a], f.visited[b];
      assert Before(ns[1..], x, y);
      FirstAtTail(ns, x);
      FirstAtTail(ns, y);
    }
  }

  /** Appending a new head puts it before everything the rest appends. */
  lemma OrderAdd(visited: seq<Node>, queue: seq<Node>, ns: seq<Node>, f: Frontier)
    requires |ns| > 0 && ns[0] !in visited
    requires Extends(visited + [ns[0]], queue + [ns[0]], ns[1..], f)
    requires InListOrder(ns[1..], f, |visited| + 1)
    ensures InListOrder(ns, f, |visited|)
  {
    var v' := visited + [ns[0]];
    assert f.visited[|visited|] == ns[0] by {
      assert f.visited[..|v'|] == v';
    }
    forall a, b | 0 <= |visited| <= a < b < |f.visited|
      ensures Before(ns, f.visited[a], f.visited[b])
    {
      Appended(v', queue + [ns[0]], ns[1..], f, b);
      var x, y := f.visited[a], f.visited[b];
      FirstAtTail(ns, y);
      if a > |visited| {
        Appended(v', queue + [ns[0]], ns[1..], f, a);
        assert Before(ns[1..], x, y);
        FirstAtTail(ns, x);
      } else {
        assert x == ns[0] && FirstAt(ns, x) == 0;
      }
    }
  }

  /** The inner loop of `bfs` appends the new neighbours in the order of
      their first occurrence in the neighbour list. */
  lemma {:induction false} EnqueueInListOrder(visited: seq<Node>, queue: seq<Node>, ns: seq<Node>)
    ensures var f := Enqueue(visited, queue, ns);
      forall a, b :: |visited| <= a < b < |f.visited| ==>
        f.visited[a] in ns && f.visited[b] in ns && FirstAt(ns, f.visited[a]) < FirstAt(ns, f.visited[b])
    decreases |ns|
  {
    var f := Enqueue(visited, queue, ns);
    if |ns| == 0 {
    } else if ns[0] in visited {
      EnqueueInListOrder(visited, queue, ns[1..]);
      assert f == Enqueue(visited, queue, ns[1..]);
      OrderSkip(visited, queue, ns, f);
    } else {
      var v' := visited + [ns[0]];
      EnqueueInListOrder(v', queue + [ns[0]], ns[1..]);
      assert f == Enqueue(v', queue + [ns[0]], ns[1..]);
      OrderAdd(visited, queue, ns, f);
    }
    assert InListOrder(ns, f, |visited|);
  }

  /** The part of the loop invariant that keeps `bfs` well defined and
      bounds its rounds: the visited list is the printed nodes followed by
      the queue, and holds distinct graph nodes. */
  ghost predicate LoopState(g: Graph, visited: seq<Node>, queue: seq<Node>, order: seq<Node>)
  {
    && Closed(g)
    && visited == order + queue
    && NoDup(visited)
    && (forall x :: x in visited ==> x in g)
  }

  /** One round keeps the loop state. */
  lemma LoopStep(g: Graph, visited: seq<Node>, queue: seq<Node>, order: seq<Node>)
    requires LoopState(g, visited, queue, order) && |queue| > 0
    ensures LoopState(g, Enqueue(visited, queue[1..], g[queue[0]]).visited,
                      Enqueue(visited, queue[1..], g[queue[0]]).queue, order + [queue[0]])
  {
    var m := queue[0];
    var f := Enqueue(visited, queue[1..], g[m]);
    assert m in visited;
    assert f.visited == (order + [m]) + f.queue by {
      assert f.visited == visited + f.visited[|visited|..];
      assert visited == (order + [m]) + queue[1..];
    }
  }

  /** What holds at the head of the `while queue` loop: the visited list is
      the printed nodes followed by the queue, holds no duplicates, holds
      only nodes reachable from the root, and everything printed has all
      of its neighbours visited. */
  ghost predicate BfsInv(g: Graph, root: Node, visited: seq<Node>, queue: seq<Node>, order: seq<Node>)
  {
    && LoopState(g, visited, queue, order)
    && |visited| > 0 && visited[0] == root
    && (forall x :: x in visited ==> x in g && Reachable(g, root, x))
    && (forall x, y :: x in order && x in g && y in g[x] ==> y in visited)
  }

  /** A duplicate-free list of graph nodes is no longer than the key set. */
  lemma {:induction false} NoDupBound(s: seq<Node>, K: set<Node>)
    requires NoDup(s) && forall x :: x in s ==> x in K
    ensures |s| <= |K|
  {
    if |s| > 0 {
      assert forall x :: x in s[1..] ==> x in K - {s[0]} by {
        forall x | x in s[1..] ensures x in K - {s[0]}
        {
          var j :| 0 <= j < |s[1..]| && s[1..][j] == x;
          assert s[j + 1] == x;
        }
      }
      NoDupBound(s[1..], K - {s[0]});
    }
  }

  lemma PathExtend(g: Graph, p: seq<Node>, y: Node)
    requires IsPath(g, p) && p[|p| - 1] in g && y in g[p[|p| - 1]]
    ensures IsPath(g, p + [y])
  {
  }

  /** Every node the inner loop adds is a neighbour of m, so it is
      reachable whenever m is. */
  lemma EnqueueReachable(g: Graph, root: Node, visited: seq<Node>, queue: seq<Node>, m: Node)
    requires m in g && Closed(g) && Reachable(g, root, m)
    requires forall x :: x in visited ==> x in g && Reachable(g, root, x)
    ensures forall x :: x in Enqueue(visited, queue, g[m]).visited ==> x in g && Reachable(g, root, x)
  {
    var f := Enqueue(visited, queue, g[m]);
    forall x | x in f.visited ensures x in g && Reachable(g, root, x)
    {
      if x !in visited {
        var p :| IsPath(g, p) && p[0] == root && p[|p| - 1] == m;
        PathExtend(g, p, x);
        assert (p + [x])[0] == root;
      }
    }
  }

  /** One round of the `while queue` loop keeps the invariant. */
  lemma BfsStep(g: Graph, root: Node, visited: seq<Node>, queue: seq<Node>, order: seq<Node>)
    requires BfsInv(g, root, visited, queue, order) && |queue| > 0
    ensures BfsInv(g, root, Enqueue(visited, queue[1..], g[queue[0]]).visited,
                   Enqueue(visited, queue[1..], g[queue[0]]).queue, order + [queue[0]])
  {
    var m := queue[0];
    var f := Enqueue(visited, queue[1..], g[m]);
    LoopStep(g, visited, queue, order);
    assert m in visited;
    assert f.visited[0] == root by {
      assert f.visited[..|visited|][0] == root;
    }
    EnqueueReachable(g, root, visited, queue[1..], m);
  }

  /** The `while queue` loop, one round per call. */
  function BfsLoop(g: Graph, visited: seq<Node>, queue: seq<Node>, order: seq<Node>): (r: seq<Node>)
    requires LoopState(g, visited, queue, order)
    ensures order <= r
    ensures LoopState(g, r, [], r)
    decreases |g.Keys| - |order|
  {
    if |queue| == 0 then
      assert visited == order;
      order
    else
      NoDupBound(visited, g.Keys);
      LoopStep(g, visited, queue, order);
      var f := Enqueue(visited, queue[1..], g[queue[0]]);
      BfsLoop(g, f.visited, f.queue, order + [queue[0]])
  }

  /** The full invariant holds when the loop ends: the printed list starts
      at the root, holds only reachable nodes, and is closed under edges. */
  lemma {:induction false} BfsLoopKeeps(g: Graph, root: Node, visited: seq<Node>, queue: seq<Node>, order: seq<Node>)
    requires BfsInv(g, root, visited, queue, order)
    ensures BfsInv(g, root, BfsLoop(g, visited, queue, order), [], BfsLoop(g, visited, queue, order))
    decreases |g.Keys| - |order|
  {
    if |queue| == 0 {
      assert visited == order;
    } else {
      NoDupBound(visited, g.Keys);
      BfsStep(g, root, visited, queue, order);
      var f := Enqueue(visited, queue[1..], g[queue[0]]);
      BfsLoopKeeps(g, root, f.visited, f.queue, order + [queue[0]]);
    }
  }

  /** `bfs(graph, node)`: the module-level queue is empty on entry (every
      earlier call drains it), then holds the root. */
  function Bfs(g: Graph, root: Node): (r: seq<Node>)
    requires Closed(g) && root in g
    ensures |r| > 0 && r[0] == root
    ensures NoDup(r)
    ensures forall x :: x in r ==> Reachable(g, root, x)
    ensures forall x, y :: x in r && x in g && y in g[x] ==> y in r
  {
    assert IsPath(g, [root]);
    BfsLoopKeeps(g, root, [root], [root], []);
    BfsLoop(g, [root], [root], [])
  }

  /** Breadth-first search prints exactly the nodes reachable from the root. */
  lemma BfsComplete(g: Graph, root: Node, x: Node)
    requires Closed(g) && root in g
    ensures x in Bfs(g, root) <==> Reachable(g, root, x)
  {
    var r := Bfs(g, root);
    if Reachable(g, root, x) {
      var p :| IsPath(g, p) && p[0] == root && p[|p| - 1] == x;
      var W := set y | y in r;
      ClosedReaches(g, {}, W, p, |p| - 1);
    }
  }

  // ---------------------------------------------------------------------
  // The first fixed graph and the searches from 'D'.

  function Graph1(): Graph
  {
    map["D" := ["B", "E"], "B" := ["A", "C"], "E" := ["F"], "F" := [], "A" := [], "C" := []]
  }

  lemma Graph1Closed()
    ensures Closed(Graph1())
  {
  }

  /** A DFS call on an unvisited node without neighbours prints just it. */
  lemma DfsLeaf(g: Graph, V: set<Node>, x: Node)
    requires Closed(g) && x in g && g[x] == [] && x !in V
    ensures Dfs(g, V, x) == Walk(V + {x}, [x])
  {
  }

  /** A neighbour list with one entry is one DFS call. */
  lemma DfsListSingle(g: Graph, V: set<Node>, x: Node)
    requires Closed(g) && x in g
    ensures DfsList(g, V, [x]) == Dfs(g, V, x)
  {
    assert [x][1..] == [];
  }

  lemma Graph1Lists()
    ensures Graph1()["D"] == ["B", "E"] && Graph1()["B"] == ["A", "C"] && Graph1()["E"] == ["F"]
    ensures Graph1()["A"] == [] && Graph1()["C"] == [] && Graph1()["F"] == []
  {
  }

  /** The subtree of 'B', entered with only 'D' visited, prints B A C. */
  lemma DfsGraph1B(v1: set<Node>)
    requires v1 == {"D"}
    ensures Closed(Graph1())
    ensures Dfs(Graph1(), v1, "B") == Walk(v1 + {"B"} + {"A"} + {"C"}, ["B", "A", "C"])
  {
    var g := Graph1();
    Graph1Closed();
    Graph1Lists();
    var v2 := v1 + {"B"};
    var v3 := v2 + {"A"};
    DfsLeaf(g, v2, "A");
    DfsLeaf(g, v3, "C");
    DfsListSingle(g, v3, "C");
    assert ["A", "C"][1..] == ["C"];
  }

  /** The subtree of 'E', entered after D B A C, prints E F. */
  lemma DfsGraph1E(v4: set<Node>)
    requires v4 == {"D", "B", "A", "C"}
    ensures Closed(Graph1())
    ensures Dfs(Graph1(), v4, "E") == Walk(v4 + {"E"} + {"F"}, ["E", "F"])
  {
    var g := Graph1();
    Graph1Closed();
    Graph1Lists();
    DfsLeaf(g, v4 + {"E"}, "F");
    DfsListSingle(g, v4 + {"E"}, "F");
  }

  /** The neighbour loop of 'D' prints B A C E F. */
  lemma DfsGraph1Children(v1: set<Node>)
    requires v1 == {"D"}
    ensures Closed(Graph1())
    ensures DfsList(Graph1(), v1, ["B", "E"]).order == ["B", "A", "C", "E", "F"]
  {
    var g := Graph1();
    DfsGraph1B(v1);
    var v4 := v1 + {"B"} + {"A"} + {"C"};
    DfsGraph1E(v4);
    DfsListSingle(g, v4, "E");
    assert ["B", "E"][1..] == ["E"];
  }

  /** Depth-first from 'D' on the first graph prints D B A C E F. */
  lemma DfsOnGraph1()
    ensures Closed(Graph1()) && "D" in Graph1()
    ensures Dfs(Graph1(), {}, "D").order == ["D", "B", "A", "C", "E", "F"]
  {
    var g := Graph1();
    Graph1Closed();
    Graph1Lists();
    var v0: set<Node> := {};
    assert v0 + {"D"} == {"D"};
    DfsEnter(g, v0, "D");
    DfsGraph1Children({"D"});
    DfsGraph1Order();
  }

  lemma DfsGraph1Order()
    ensures ["D"] + ["B", "A", "C", "E", "F"] == ["D", "B", "A", "C", "E", "F"]
  {
  }

  /** A DFS call on an unvisited node prints it, then runs its neighbour
      loop with the node visited. */
  lemma DfsEnter(g: Graph, V: set<Node>, x: Node)
    requires Closed(g) && x in g && x !in V
    ensures Dfs(g, V, x).order == [x] + DfsList(g, V + {x}, g[x]).order
  {
  }

  /** Unfolding one round of the loop: `order'` is the printed list after
      the round. */
  lemma BfsLoopUnfold(g: Graph, visited: seq<Node>, queue: seq<Node>, order: seq<Node>, f: Frontier, order': seq<Node>)
    requires LoopState(g, visited, queue, order) && |queue| > 0
    requires f == Enqueue(visited, queue[1..], g[queue[0]]) && order' == order + [queue[0]]
    ensures LoopState(g, f.visited, f.queue, order')
    ensures BfsLoop(g, visited, queue, order) == BfsLoop(g, f.visited, f.queue, order')
  {
    LoopStep(g, visited, queue, order);
  }

  /** The search starts with the root both visited and queued. */
  lemma BfsStart(g: Graph, root: Node)
    requires Closed(g) && root in g
    ensures LoopState(g, [root], [root], [])
    ensures Bfs(g, root) == BfsLoop(g, [root], [root], [])
  {
  }

  /** The inner loop skips a neighbour that is already visited. */
  lemma EnqueueSkip(visited: seq<Node>, queue: seq<Node>, n: Node, ns: seq<Node>)
    requires n in visited
    ensures Enqueue(visited, queue, [n] + ns) == Enqueue(visited, queue, ns)
  {
    assert ([n] + ns)[1..] == ns;
  }

  /** The inner loop appends an unvisited neighbour to both lists. */
  lemma EnqueueAdd(visited: seq<Node>, queue: seq<Node>, n: Node, ns: seq<Node>)
    requires n !in visited
    ensures Enqueue(visited, queue, [n] + ns) == Enqueue(visited + [n], queue + [n], ns)
  {
    assert ([n] + ns)[1..] == ns;
  }

  /** With no neighbours left the lists stay as they are. */
  lemma EnqueueNone(visited: seq<Node>, queue: seq<Node>)
    ensures Enqueue(visited, queue, []) == Frontier(visited, queue)
  {
  }

  lemma BfsGraph1Round1()
    ensures Enqueue(["D"], [], ["B", "E"]) == Frontier(["D", "B", "E"], ["B", "E"])
  {
    assert "B" !in ["D"] && "E" !in ["D", "B"];
    assert ["B", "E"] == ["B"] + ["E"] && ["E"] == ["E"] + [];
    assert ["D"] + ["B"] == ["D", "B"] && ["D", "B"] + ["E"] == ["D", "B", "E"];
    assert [] + ["B"] == ["B"] && ["B"] + ["E"] == ["B", "E"];
    EnqueueAdd(["D"], [], "B", ["E"]);
    EnqueueAdd(["D", "B"], ["B"], "E", []);
    EnqueueNone(["D", "B", "E"], ["B", "E"]);
  }

  lemma BfsGraph1Round2()
    ensures Enqueue(["D", "B", "E"], ["E"], ["A", "C"]) == Frontier(["D", "B", "E", "A", "C"], ["E", "A", "C"])
  {
    assert "A" !in ["D", "B", "E"] && "C" !in ["D", "B", "E", "A"];
    assert ["A", "C"] == ["A"] + ["C"] && ["C"] == ["C"] + [];
    assert ["D", "B", "E"] + ["A"] == ["D", "B", "E", "A"] && ["D", "B", "E", "A"] + ["C"] == ["D", "B", "E", "A", "C"];
    assert ["E"] + ["A"] == ["E", "A"] && ["E", "A"] + ["C"] == ["E", "A", "C"];
    EnqueueAdd(["D", "B", "E"], ["E"], "A", ["C"]);
    EnqueueAdd(["D", "B", "E", "A"], ["E", "A"], "C", []);
    EnqueueNone(["D", "B", "E", "A", "C"], ["E", "A", "C"]);
  }

  lemma BfsGraph1Round3()
    ensures Enqueue(["D", "B", "E", "A", "C"], ["A", "C"], ["F"]) == Frontier(["D", "B", "E", "A", "C", "F"], ["A", "C", "F"])
  {
    assert "F" !in ["D", "B", "E", "A", "C"];
    assert ["F"] == ["F"] + [];
    assert ["D", "B", "E", "A", "C"] + ["F"] == ["D", "B", "E", "A", "C", "F"];
    assert ["A", "C"] + ["F"] == ["A", "C", "F"];
    EnqueueAdd(["D", "B", "E", "A", "C"], ["A", "C"], "F", []);
    EnqueueNone(["D", "B", "E", "A", "C", "F"], ["A", "C", "F"]);
  }

  /** The queue and printed lists of the run on the first graph, round by
      round. */
  lemma BfsGraph1Lists()
    ensures ["D"][1..] == [] && ["B", "E"][1..] == ["E"] && ["E", "A", "C"][1..] == ["A", "C"]
    ensures ["A", "C", "F"][1..] == ["C", "F"] && ["C", "F"][1..] == ["F"] && ["F"][1..] == []
    ensures [] + ["D"] == ["D"] && ["D"] + ["B"] == ["D", "B"] && ["D", "B"] + ["E"] == ["D", "B", "E"]
    ensures ["D", "B", "E"] + ["A"] == ["D", "B", "E", "A"]
    ensures ["D", "B", "E", "A"] + ["C"] == ["D", "B", "E", "A", "C"]
    ensures ["D", "B", "E", "A", "C"] + ["F"] == ["D", "B", "E", "A", "C", "F"]
  {
  }

  /** The first three rounds on the first graph print D, B, E and enqueue
      B E, then A C, then F. */
  lemma BfsGraph1Rounds()
    ensures Closed(Graph1())
    ensures LoopState(Graph1(), ["D", "B", "E", "A", "C", "F"], ["A", "C", "F"], ["D", "B", "E"])
    ensures Bfs(Graph1(), "D") == BfsLoop(Graph1(), ["D", "B", "E", "A", "C", "F"], ["A", "C", "F"], ["D", "B", "E"])
  {
    var g := Graph1();
    Graph1Closed();
    Graph1Lists();
    BfsStart(g, "D");
    BfsGraph1Round1();
    BfsGraph1Round2();
    BfsGraph1Round3();
    BfsGraph1Lists();
    BfsLoopUnfold(g, ["D"], ["D"], [], Frontier(["D", "B", "E"], ["B", "E"]), ["D"]);
    BfsLoopUnfold(g, ["D", "B", "E"], ["B", "E"], ["D"], Frontier(["D", "B", "E", "A", "C"], ["E", "A", "C"]), ["D", "B"]);
    BfsLoopUnfold(g, ["D", "B", "E", "A", "C"], ["E", "A", "C"], ["D", "B"], Frontier(["D", "B", "E", "A", "C", "F"], ["A", "C", "F"]), ["D", "B", "E"]);
  }

  /** The last three rounds on the first graph print A, C, F and enqueue
      nothing. */
  lemma BfsGraph1Tail(v: seq<Node>)
    requires v == ["D", "B", "E", "A", "C", "F"]
    requires LoopState(Graph1(), v, ["A", "C", "F"], ["D", "B", "E"])
    ensures BfsLoop(Graph1(), v, ["A", "C", "F"], ["D", "B", "E"]) == v
  {
    var g := Graph1();
    Graph1Lists();
    BfsGraph1Lists();
    EnqueueNone(v, ["C", "F"]);
    EnqueueNone(v, ["F"]);
    EnqueueNone(v, []);
    BfsLoopUnfold(g, v, ["A", "C", "F"], ["D", "B", "E"], Frontier(v, ["C", "F"]), ["D", "B", "E", "A"]);
    BfsLoopUnfold(g, v, ["C", "F"], ["D", "B", "E", "A"], Frontier(v, ["F"]), ["D", "B", "E", "A", "C"]);
    BfsLoopUnfold(g, v, ["F"], ["D", "B", "E", "A", "C"], Frontier(v, []), ["D", "B", "E", "A", "C", "F"]);
  }

  /** Breadth-first from 'D' on the first graph prints D B E A C F. */
  lemma BfsOnGraph1()
    ensures Closed(Graph1()) && "D" in Graph1()
    ensures Bfs(Graph1(), "D") == ["D", "B", "E", "A", "C", "F"]
  {
    BfsGraph1Rounds();
    BfsGraph1Tail(["D", "B", "E", "A", "C", "F"]);
  }

  // ---------------------------------------------------------------------
  // The second fixed graph, in which 'A' has a subtree of its own, and the
  // searches from 'D'.

  function Graph2(): Graph
  {
    map["D" := ["B", "E"], "B" := ["A", "C"], "E" := ["F"], "F" := [], "A" := ["S", "T"],
        "S" := ["N"], "T" := [], "N" := [], "C" := []]
  }

  lemma Graph2Closed()
    ensures Closed(Graph2())
  {
  }

  lemma Graph2Lists()
    ensures Graph2()["D"] == ["B", "E"] && Graph2()["B"] == ["A", "C"] && Graph2()["E"] == ["F"]
    ensures Graph2()["A"] == ["S", "T"] && Graph2()["S"] == ["N"]
    ensures Graph2()["F"] == [] && Graph2()["T"] == [] && Graph2()["N"] == [] && Graph2()["C"] == []
  {
  }

  /** The adjacency lists of the second graph, over nine node names. The runs
      below are proved once for any such names and then read off for the
      names the program uses, so that the proofs never compare strings. */
  ghost predicate Graph2Shape(g: Graph, d: Node, b: Node, e: Node, f: Node, a: Node, s: Node, t: Node, n: Node, c: Node)
  {
    && Closed(g) && d in g && b in g && e in g && f in g && a in g && s in g && t in g && n in g && c in g
    && g[d] == [b, e] && g[b] == [a, c] && g[e] == [f] && g[a] == [s, t] && g[s] == [n]
    && g[f] == [] && g[t] == [] && g[n] == [] && g[c] == []
  }

  /** The nine names are pairwise different. */
  ghost predicate Distinct9(d: Node, b: Node, e: Node, f: Node, a: Node, s: Node, t: Node, n: Node, c: Node)
  {
    && d != b && d != e && d != f && d != a && d != s && d != t && d != n && d != c
    && b != e && b != f && b != a && b != s && b != t && b != n && b != c
    && e != f && e != a && e != s && e != t && e != n && e != c
    && f != a && f != s && f != t && f != n && f != c
    && a != s && a != t && a != n && a != c
    && s != t && s != n && s != c
    && t != n && t != c
    && n != c
  }

  lemma Graph2HasShape()
    ensures Graph2Shape(Graph2(), "D", "B", "E", "F", "A", "S", "T", "N", "C")
    ensures Distinct9("D", "B", "E", "F", "A", "S", "T", "N", "C")
  {
    Graph2Closed();
    Graph2Lists();
  }

  /** Entering an unvisited node runs its neighbour loop and prepends it. */
  lemma DfsNode(g: Graph, V: set<Node>, x: Node, rest: Walk)
    requires Closed(g) && x in g && x !in V
    requires rest == DfsList(g, V + {x}, g[x])
    ensures Dfs(g, V, x) == Walk(rest.visited, [x] + rest.order)
  {
  }

  /** A neighbour list with two entries is two DFS calls in a row. */
  lemma DfsListPair(g: Graph, V: set<Node>, x: Node, y: Node, a: Walk, b: Walk)
    requires Closed(g) && x in g && y in g
    requires a == Dfs(g, V, x) && b == Dfs(g, a.visited, y)
    ensures DfsList(g, V, [x, y]) == Walk(b.visited, a.order + b.order)
  {
    assert [x, y][1..] == [y];
    DfsListSingle(g, a.visited, y);
  }

  /** A node whose only neighbour is a leaf prints both, when neither is
      visited yet. */
  lemma DfsChain(g: Graph, V: set<Node>, x: Node, y: Node)
    requires Closed(g) && x in g && y in g && g[x] == [y] && g[y] == []
    requires x != y && x !in V && y !in V
    ensures Dfs(g, V, x) == Walk(V + {x} + {y}, [x, y])
  {
    DfsLeaf(g, V + {x}, y);
    DfsListSingle(g, V + {x}, y);
    DfsNode(g, V, x, DfsList(g, V + {x}, [y]));
  }

  /** A node with two neighbours prints itself, then the first subtree, then
      the second. */
  lemma DfsFork(g: Graph, V: set<Node>, x: Node, y: Node, z: Node, w1: Walk, w2: Walk)
    requires Closed(g) && x in g && y in g && z in g && g[x] == [y, z] && x !in V
    requires w1 == Dfs(g, V + {x}, y) && w2 == Dfs(g, w1.visited, z)
    ensures Dfs(g, V, x) == Walk(w2.visited, [x] + (w1.order + w2.order))
  {
    DfsListPair(g, V + {x}, y, z, w1, w2);
    DfsNode(g, V, x, Walk(w2.visited, w1.order + w2.order));
  }

  /** The nodes each step of the depth-first run enters are not yet visited. */
  lemma DfsShapeFresh(d: Node, b: Node, e: Node, f: Node, a: Node, s: Node, t: Node, n: Node, c: Node)
    requires Distinct9(d, b, e, f, a, s, t, n, c)
    ensures b !in {d} && a !in {d} + {b}
    ensures s !in {d} + {b} + {a} && n !in {d} + {b} + {a} && s != n
    ensures t !in {d} + {b} + {a} + {s} + {n}
    ensures c !in {d} + {b} + {a} + {s} + {n} + {t}
    ensures e !in {d} + {b} + {a} + {s} + {n} + {t} + {c} && f !in {d} + {b} + {a} + {s} + {n} + {t} + {c} && e != f
  {
  }

  /** The printed lists of the depth-first run, joined up. */
  lemma DfsShapeOrders(d: Node, b: Node, e: Node, f: Node, a: Node, s: Node, t: Node, n: Node, c: Node)
    ensures [a] + ([s, n] + [t]) == [a, s, n, t]
    ensures [b] + ([a, s, n, t] + [c]) == [b, a, s, n, t, c]
    ensures [d] + ([b, a, s, n, t, c] + [e, f]) == [d, b, a, s, n, t, c, e, f]
  {
  }

  /** On any graph of the second graph's shape, the subtree of `a`, entered
      after `d` and `b`, prints a s n t. */
  lemma DfsShapeA(g: Graph, d: Node, b: Node, e: Node, f: Node, a: Node, s: Node, t: Node, n: Node, c: Node)
    requires Graph2Shape(g, d, b, e, f, a, s, t, n, c) && Distinct9(d, b, e, f, a, s, t, n, c)
    ensures Dfs(g, {d} + {b}, a) == Walk({d} + {b} + {a} + {s} + {n} + {t}, [a, s, n, t])
  {
    DfsShapeFresh(d, b, e, f, a, s, t, n, c);
    DfsShapeOrders(d, b, e, f, a, s, t, n, c);
    var va := {d} + {b} + {a};
    DfsChain(g, va, s, n);
    var ws := Walk(va + {s} + {n}, [s, n]);
    DfsLeaf(g, ws.visited, t);
    DfsFork(g, {d} + {b}, a, s, t, ws, Walk(ws.visited + {t}, [t]));
  }

  /** The subtree of `b`, entered after `d`, prints b a s n t c. */
  lemma DfsShapeB(g: Graph, d: Node, b: Node, e: Node, f: Node, a: Node, s: Node, t: Node, n: Node, c: Node)
    requires Graph2Shape(g, d, b, e, f, a, s, t, n, c) && Distinct9(d, b, e, f, a, s, t, n, c)
    ensures Dfs(g, {d}, b) == Walk({d} + {b} + {a} + {s} + {n} + {t} + {c}, [b, a, s, n, t, c])
  {
    DfsShapeFresh(d, b, e, f, a, s, t, n, c);
    DfsShapeOrders(d, b, e, f, a, s, t, n, c);
    DfsShapeA(g, d, b, e, f, a, s, t, n, c);
    var wa := Walk({d} + {b} + {a} + {s} + {n} + {t}, [a, s, n, t]);
    DfsLeaf(g, wa.visited, c);
    DfsFork(g, {d}, b, a, c, wa, Walk(wa.visited + {c}, [c]));
  }

  /** Depth-first from `d` prints d b a s n t c e f. */
  lemma DfsShape(g: Graph, d: Node, b: Node, e: Node, f: Node, a: Node, s: Node, t: Node, n: Node, c: Node)
    requires Graph2Shape(g, d, b, e, f, a, s, t, n, c) && Distinct9(d, b, e, f, a, s, t, n, c)
    ensures Dfs(g, {}, d).order == [d, b, a, s, n, t, c, e, f]
  {
    DfsShapeFresh(d, b, e, f, a, s, t, n, c);
    DfsShapeOrders(d, b, e, f, a, s, t, n, c);
    var v0: set<Node> := {};
    assert v0 + {d} == {d};
    DfsShapeB(g, d, b, e, f, a, s, t, n, c);
    var wb := Walk({d} + {b} + {a} + {s} + {n} + {t} + {c}, [b, a, s, n, t, c]);
    DfsChain(g, wb.visited, e, f);
    DfsFork(g, v0, d, b, e, wb, Walk(wb.visited + {e} + {f}, [e, f]));
  }

  /** Depth-first from 'D' on the second graph, with its own empty visited
      set, prints D B A S N T C E F. */
  lemma DfsOnGraph2()
    ensures Closed(Graph2()) && "D" in Graph2()
    ensures Dfs(Graph2(), {}, "D").order == ["D", "B", "A", "S", "N", "T", "C", "E", "F"]
  {
    Graph2HasShape();
    DfsShape(Graph2(), "D", "B", "E", "F", "A", "S", "T", "N", "C");
  }

  /** A round that enqueues two unvisited neighbours. */
  lemma EnqueueTwo(visited: seq<Node>, queue: seq<Node>, x: Node, y: Node)
    requires x !in visited && y !in visited && x != y
    ensures Enqueue(visited, queue, [x, y]) == Frontier(visited + [x, y], queue + [x, y])
  {
    assert [x, y] == [x] + [y] && [y] == [y] + [];
    EnqueueAdd(visited, queue, x, [y]);
    EnqueueAdd(visited + [x], queue + [x], y, []);
    assert visited + [x] + [y] == visited + [x, y] && queue + [x] + [y] == queue + [x, y];
  }

  /** A round that enqueues one unvisited neighbour. */
  lemma EnqueueOne(visited: seq<Node>, queue: seq<Node>, x: Node)
    requires x !in visited
    ensures Enqueue(visited, queue, [x]) == Frontier(visited + [x], queue + [x])
  {
    assert [x] == [x] + [];
    EnqueueAdd(visited, queue, x, []);
  }

  /** The nodes each round of the breadth-first run enqueues are not yet
      visited. */
  lemma BfsShapeFresh(d: Node, b: Node, e: Node, f: Node, a: Node, s: Node, t: Node, n: Node, c: Node)
    requires Distinct9(d, b, e, f, a, s, t, n, c)
    ensures b !in [d] && e !in [d] && b != e
    ensures a !in [d, b, e] && c !in [d, b, e] && a != c
    ensures f !in [d, b, e, a, c]
    ensures s !in [d, b, e, a, c, f] && t !in [d, b, e, a, c, f] && s != t
    ensures n !in [d, b, e, a, c, f, s, t]
  {
  }

  /** The queue and printed lists of the first three rounds. */
  lemma BfsShapeHeadLists(d: Node, b: Node, e: Node, f: Node, a: Node, c: Node)
    ensures [d][1..] == [] && [d] + [b, e] == [d, b, e] && [] + [b, e] == [b, e] && [] + [d] == [d]
    ensures [b, e][1..] == [e] && [d, b, e] + [a, c] == [d, b, e, a, c] && [e] + [a, c] == [e, a, c] && [d] + [b] == [d, b]
    ensures [e, a, c][1..] == [a, c] && [d, b, e, a, c] + [f] == [d, b, e, a, c, f] && [a, c] + [f] == [a, c, f]
    ensures [d, b] + [e] == [d, b, e]
  {
  }

  /** The queue and printed lists of rounds 4 to 6. */
  lemma BfsShapeMiddleLists(d: Node, b: Node, e: Node, f: Node, a: Node, s: Node, t: Node, c: Node)
    ensures [a, c, f][1..] == [c, f] && [d, b, e, a, c, f] + [s, t] == [d, b, e, a, c, f, s, t]
    ensures [c, f] + [s, t] == [c, f, s, t] && [d, b, e] + [a] == [d, b, e, a]
    ensures [c, f, s, t][1..] == [f, s, t] && [d, b, e, a] + [c] == [d, b, e, a, c]
    ensures [f, s, t][1..] == [s, t] && [d, b, e, a, c] + [f] == [d, b, e, a, c, f]
  {
  }

  /** The queue and printed lists of rounds 7 to 9. */
  lemma BfsShapeTailLists(d: Node, b: Node, e: Node, f: Node, a: Node, s: Node, t: Node, n: Node, c: Node)
    ensures [s, t][1..] == [t] && [d, b, e, a, c, f, s, t] + [n] == [d, b, e, a, c, f, s, t, n] && [t] + [n] == [t, n]
    ensures [d, b, e, a, c, f] + [s] == [d, b, e, a, c, f, s]
    ensures [t, n][1..] == [n] && [d, b, e, a, c, f, s] + [t] == [d, b, e, a, c, f, s, t]
    ensures [n][1..] == [] && [d, b, e, a, c, f, s, t] + [n] == [d, b, e, a, c, f, s, t, n]
  {
  }

  /** Rounds 1 to 3 from `d`: d enqueues b e, b enqueues a c, e enqueues f. */
  lemma BfsShapeHead(g: Graph, d: Node, b: Node, e: Node, f: Node, a: Node, s: Node, t: Node, n: Node, c: Node)
    requires Graph2Shape(g, d, b, e, f, a, s, t, n, c) && Distinct9(d, b, e, f, a, s, t, n, c)
    ensures LoopState(g, [d, b, e, a, c, f], [a, c, f], [d, b, e])
    ensures Bfs(g, d) == BfsLoop(g, [d, b, e, a, c, f], [a, c, f], [d, b, e])
  {
    BfsShapeFresh(d, b, e, f, a, s, t, n, c);
    BfsShapeHeadLists(d, b, e, f, a, c);
    BfsStart(g, d);
    EnqueueTwo([d], [], b, e);
    BfsLoopUnfold(g, [d], [d], [], Frontier([d, b, e], [b, e]), [d]);
    EnqueueTwo([d, b, e], [e], a, c);
    BfsLoopUnfold(g, [d, b, e], [b, e], [d], Frontier([d, b, e, a, c], [e, a, c]), [d, b]);
    EnqueueOne([d, b, e, a, c], [a, c], f);
    BfsLoopUnfold(g, [d, b, e, a, c], [e, a, c], [d, b], Frontier([d, b, e, a, c, f], [a, c, f]), [d, b, e]);
  }

  /** Rounds 4 to 6: a enqueues s t, then c and f enqueue nothing. */
  lemma BfsShapeMiddle(g: Graph, d: Node, b: Node, e: Node, f: Node, a: Node, s: Node, t: Node, n: Node, c: Node)
    requires Graph2Shape(g, d, b, e, f, a, s, t, n, c) && Distinct9(d, b, e, f, a, s, t, n, c)
    requires LoopState(g, [d, b, e, a, c, f], [a, c, f], [d, b, e])
    ensures LoopState(g, [d, b, e, a, c, f, s, t], [s, t], [d, b, e, a, c, f])
    ensures BfsLoop(g, [d, b, e, a, c, f], [a, c, f], [d, b, e])
         == BfsLoop(g, [d, b, e, a, c, f, s, t], [s, t], [d, b, e, a, c, f])
  {
    BfsShapeFresh(d, b, e, f, a, s, t, n, c);
    BfsShapeMiddleLists(d, b, e, f, a, s, t, c);
    var w := [d, b, e, a, c, f, s, t];
    EnqueueTwo([d, b, e, a, c, f], [c, f], s, t);
    BfsLoopUnfold(g, [d, b, e, a, c, f], [a, c, f], [d, b, e], Frontier(w, [c, f, s, t]), [d, b, e, a]);
    EnqueueNone(w, [f, s, t]);
    BfsLoopUnfold(g, w, [c, f, s, t], [d, b, e, a], Frontier(w, [f, s, t]), [d, b, e, a, c]);
    EnqueueNone(w, [s, t]);
    BfsLoopUnfold(g, w, [f, s, t], [d, b, e, a, c], Frontier(w, [s, t]), [d, b, e, a, c, f]);
  }

  /** Rounds 7 to 9: s enqueues n, then t and n enqueue nothing. */
  lemma BfsShapeTail(g: Graph, d: Node, b: Node, e: Node, f: Node, a: Node, s: Node, t: Node, n: Node, c: Node)
    requires Graph2Shape(g, d, b, e, f, a, s, t, n, c) && Distinct9(d, b, e, f, a, s, t, n, c)
    requires LoopState(g, [d, b, e, a, c, f, s, t], [s, t], [d, b, e, a, c, f])
    ensures BfsLoop(g, [d, b, e, a, c, f, s, t], [s, t], [d, b, e, a, c, f]) == [d, b, e, a, c, f, s, t, n]
  {
    BfsShapeFresh(d, b, e, f, a, s, t, n, c);
    BfsShapeTailLists(d, b, e, f, a, s, t, n, c);
    var w := [d, b, e, a, c, f, s, t];
    var x := [d, b, e, a, c, f, s, t, n];
    EnqueueOne(w, [t], n);
    BfsLoopUnfold(g, w, [s, t], [d, b, e, a, c, f], Frontier(x, [t, n]), [d, b, e, a, c, f, s]);
    EnqueueNone(x, [n]);
    BfsLoopUnfold(g, x, [t, n], [d, b, e, a, c, f, s], Frontier(x, [n]), w);
    EnqueueNone(x, []);
    BfsLoopUnfold(g, x, [n], w, Frontier(x, []), x);
  }

  /** Breadth-first from `d` prints d b e a c f s t n. */
  lemma BfsShape(g: Graph, d: Node, b: Node, e: Node, f: Node, a: Node, s: Node, t: Node, n: Node, c: Node)
    requires Graph2Shape(g, d, b, e, f, a, s, t, n, c) && Distinct9(d, b, e, f, a, s, t, n, c)
    ensures Bfs(g, d) == [d, b, e, a, c, f, s, t, n]
  {
    BfsShapeHead(g, d, b, e, f, a, s, t, n, c);
    BfsShapeMiddle(g, d, b, e, f, a, s, t, n, c);
    BfsShapeTail(g, d, b, e, f, a, s, t, n, c);
  }

  /** Breadth-first from 'D' on the second graph prints D B E A C F S T N. */
  lemma BfsOnGraph2()
    ensures Closed(Graph2()) && "D" in Graph2()
    ensures Bfs(Graph2(), "D") == ["D", "B", "E", "A", "C", "F", "S", "T", "N"]
  {
    Graph2HasShape();
    BfsShape(Graph2(), "D", "B", "E", "F", "A", "S", "T", "N", "C");
  }
}
