/**
  Shortest-path lab: Dijkstra's algorithm over an adjacency matrix with a
  separate weight matrix, the preparation step that marks missing edges
  with an "infinite" weight, and Floyd-Warshall. Python lists of lists are
  modelled as sequences of sequences; an in-place update returns the new
  matrix.
 */
module ShortestPaths {
  import opened Wrappers

  /** `sys.maxsize` on a 64-bit build, the distance of an unreached vertex
      and the weight of a missing edge. Python integers do not overflow, so
      sums above it stay exact. */
  const INF: int := 9223372036854775807

  type Matrix = seq<seq<int>>

  /** Rows 0 .. n-1 exist and each has at least n entries. */
  ghost predicate Covers(m: Matrix, n: int)
  {
    0 <= n <= |m| && forall i :: 0 <= i < n ==> n <= |m[i]|
  }

  /** r has the row structure of m. */
  ghost predicate SameShape(r: Matrix, m: Matrix)
  {
    |r| == |m| && forall i :: 0 <= i < |m| ==> |r[i]| == |m[i]|
  }

  /** Every edge the adjacency matrix lists has a non-negative weight. */
  ghost predicate NonNegativeEdges(vertices: Matrix, edges: Matrix, n: int)
    requires Covers(vertices, n) && Covers(edges, n)
  {
    forall u, v :: 0 <= u < n && 0 <= v < n && vertices[u][v] == 1 ==> edges[u][v] >= 0
  }

  /** p is a walk along listed edges between vertices below n. */
  ghost predicate IsPath(vertices: Matrix, n: int, p: seq<int>)
    requires Covers(vertices, n)
  {
    && |p| > 0
    && (forall i :: 0 <= i < |p| ==> 0 <= p[i] < n)
    && (forall i :: 0 <= i < |p| - 1 ==> vertices[p[i]][p[i + 1]] == 1)
  }

  /** The total weight of the steps of a walk. */
  ghost function Weight(edges: Matrix, n: int, p: seq<int>): int
    requires Covers(edges, n) && forall i :: 0 <= i < |p| ==> 0 <= p[i] < n
  {
    if |p| <= 1 then 0
    else Weight(edges, n, p[..|p| - 1]) + edges[p[|p| - 2]][p[|p| - 1]]
  }

  /** Some walk along listed edges from i to j weighs w. */
  ghost predicate WalkOf(vertices: Matrix, edges: Matrix, n: int, w: int, i: int, j: int)
    requires Covers(vertices, n) && Covers(edges, n)
  {
    exists p :: IsPath(vertices, n, p) && p[0] == i && p[|p| - 1] == j && Weight(edges, n, p) == w
  }

  // ---------------------------------------------------------------------
  // Dijkstra_algorithm(vertices, edges, source)

  /** One entry of `visited_and_distance`: the visited flag (0 or 1 in the
      source) and the current distance. */
  datatype Mark = Mark(visited: bool, distance: int)

  /** The entries of the list as they are before the first round. */
  method InitialMarks(n: nat, source: int) returns (s: seq<Mark>)
    ensures |s| == n
    ensures forall i :: 0 <= i < n ==> !s[i].visited
    ensures forall i :: 0 <= i < n ==> s[i].distance == (if i == source then 0 else INF)
  {
    s := [];
    for i := 0 to n
      invariant |s| == i
      invariant forall j :: 0 <= j < i ==> s[j] == Mark(false, if j == source then 0 else INF)
    {
      if i != source {
        s := s + [Mark(false, INF)];
      } else {
        s := s + [Mark(false, 0)];
      }
    }
  }

  /** `to_be_visited()`: an unvisited vertex of least distance, the last
      one among equals because the comparison is `<=`; -10 when every
      vertex is visited. */
  method ToBeVisited(s: seq<Mark>) returns (v: int)
    ensures v == -10 <==> forall i :: 0 <= i < |s| ==> s[i].visited
    ensures v != -10 ==> 0 <= v < |s| && !s[v].visited
    ensures v != -10 ==> forall i :: 0 <= i < |s| && !s[i].visited ==> s[v].distance <= s[i].distance
    ensures v != -10 ==> forall i :: v < i < |s| && !s[i].visited ==> s[v].distance < s[i].distance
  {
    v := -10;
    for index := 0 to |s|
      invariant v == -10 <==> forall i :: 0 <= i < index ==> s[i].visited
      invariant v != -10 ==> 0 <= v < index && !s[v].visited
      invariant v != -10 ==> forall i :: 0 <= i < index && !s[i].visited ==> s[v].distance <= s[i].distance
      invariant v != -10 ==> forall i :: v < i < index && !s[i].visited ==> s[v].distance < s[i].distance
    {
      if !s[index].visited && (v < 0 || s[index].distance <= s[v].distance) {
        v := index;
      }
    }
  }

  /** The distance after offering the route through a vertex at distance
      du over an edge of weight w: it is replaced only by a strictly
      smaller value. */
  function Relaxed(d: int, du: int, w: int): (r: int)
    ensures r <= d && r <= du + w
    ensures r == d || r == du + w
  {
    if d > du + w then du + w else d
  }

  /** The loop over the neighbours of u. The visited flag of u is set at
      the end of every iteration, so from the second iteration on u no
      longer counts as unvisited; only vertex 0 can be relaxed through
      itself, and only when it is the vertex being visited. */
  method Relax(vertices: Matrix, edges: Matrix, s: seq<Mark>, u: int) returns (t: seq<Mark>)
    requires Covers(vertices, |s|) && Covers(edges, |s|)
    requires 0 <= u < |s| && !s[u].visited
    ensures |t| == |s|
    ensures t[u].visited && forall i :: 0 <= i < |s| && i != u ==> t[i].visited == s[i].visited
    ensures t[u].distance == if u == 0 && vertices[0][0] == 1 then Relaxed(s[0].distance, s[0].distance, edges[0][0]) else s[u].distance
    ensures forall i :: 0 <= i < |s| && i != u ==>
      t[i].distance == if vertices[u][i] == 1 && !s[i].visited then Relaxed(s[i].distance, t[u].distance, edges[u][i]) else s[i].distance
    ensures forall i :: 0 <= i < |s| ==> t[i].distance <= s[i].distance
    ensures forall i :: 0 <= i < |s| && t[i].distance != s[i].distance ==> vertices[u][i] == 1 && !s[i].visited
  {
    var n := |s|;
    t := s;
    for nb := 0 to n
      invariant |t| == n
      invariant nb == 0 ==> t == s
      invariant nb > 0 ==> t[u].visited
      invariant forall i :: 0 <= i < n && i != u ==> t[i].visited == s[i].visited
      invariant nb > 0 ==> t[u].distance == if u == 0 && vertices[0][0] == 1 then Relaxed(s[0].distance, s[0].distance, edges[0][0]) else s[u].distance
      invariant forall i :: 0 <= i < nb && i != u ==>
        t[i].distance == if vertices[u][i] == 1 && !s[i].visited then Relaxed(s[i].distance, t[u].distance, edges[u][i]) else s[i].distance
      invariant forall i :: nb <= i < n && i != u ==> t[i].distance == s[i].distance
    {
      if vertices[u][nb] == 1 && !t[nb].visited {
        var newDistance := t[u].distance + edges[u][nb];
        if t[nb].distance > newDistance {
          t := t[nb := t[nb].(distance := newDistance)];
        }
      }
      t := t[u := t[u].(visited := true)];
    }
  }

  /** The number of visited entries. */
  function CountVisited(s: seq<Mark>): (c: nat)
    ensures c <= |s|
  {
    if |s| == 0 then 0 else CountVisited(s[..|s| - 1]) + (if s[|s| - 1].visited then 1 else 0)
  }

  /** An unvisited entry keeps the count below the length. */
  lemma {:induction false} CountBelow(s: seq<Mark>, u: int)
    requires 0 <= u < |s| && !s[u].visited
    ensures CountVisited(s) < |s|
  {
    if u < |s| - 1 {
      CountBelow(s[..|s| - 1], u);
    }
  }

  /** Marking one unvisited entry raises the count by one. */
  lemma {:induction false} CountMark(s: seq<Mark>, t: seq<Mark>, u: int)
    requires |t| == |s| && 0 <= u < |s| && !s[u].visited && t[u].visited
    requires forall i :: 0 <= i < |s| && i != u ==> t[i].visited == s[i].visited
    ensures CountVisited(t) == CountVisited(s) + 1
  {
    var m := |s| - 1;
    if u < m {
      CountMark(s[..m], t[..m], u);
    } else {
      CountSame(s[..m], t[..m]);
    }
  }

  lemma {:induction false} CountFull(s: seq<Mark>)
    requires forall i :: 0 <= i < |s| ==> s[i].visited
    ensures CountVisited(s) == |s|
  {
    if |s| > 0 {
      CountFull(s[..|s| - 1]);
    }
  }

  lemma {:induction false} CountSame(s: seq<Mark>, t: seq<Mark>)
    requires |t| == |s| && forall i :: 0 <= i < |s| ==> t[i].visited == s[i].visited
    ensures CountVisited(t) == CountVisited(s)
  {
    if |s| > 0 {
      CountSame(s[..|s| - 1], t[..|s| - 1]);
    }
  }

  /** Visited vertices are never farther than unvisited ones. */
  ghost predicate SettledFirst(s: seq<Mark>)
  {
    forall a, b :: 0 <= a < |s| && 0 <= b < |s| && s[a].visited && !s[b].visited ==> s[a].distance <= s[b].distance
  }

  /** No listed edge out of a visited vertex can shorten a distance. */
  ghost predicate Relaxable(vertices: Matrix, edges: Matrix, s: seq<Mark>)
    requires Covers(vertices, |s|) && Covers(edges, |s|)
  {
    forall u, v :: 0 <= u < |s| && 0 <= v < |s| && s[u].visited && vertices[u][v] == 1 ==>
      s[v].distance <= s[u].distance + edges[u][v]
  }

  /** What one round (`to_be_visited` and the neighbour loop) guarantees. */
  ghost predicate RoundResult(vertices: Matrix, edges: Matrix, s: seq<Mark>, t: seq<Mark>, u: int)
    requires Covers(vertices, |s|) && Covers(edges, |s|)
  {
    && |t| == |s| && 0 <= u < |s|
    && !s[u].visited && t[u].visited
    && (forall i :: 0 <= i < |s| && i != u ==> t[i].visited == s[i].visited)
    && (forall i :: 0 <= i < |s| && !s[i].visited ==> s[u].distance <= s[i].distance)
    && (forall i :: 0 <= i < |s| ==> t[i].distance <= s[i].distance)
    && (forall i :: 0 <= i < |s| && s[i].visited ==> t[i].distance == s[i].distance)
    && (forall i :: 0 <= i < |s| && t[i].distance != s[i].distance ==> vertices[u][i] == 1)
  }

  /** With non-negative weights a round keeps the settled vertices in
      front, keeps distances non-negative, and leaves no listed edge out
      of a visited vertex that could still shorten a distance. */
  lemma RoundKeeps(vertices: Matrix, edges: Matrix, s: seq<Mark>, t: seq<Mark>, u: int)
    requires Covers(vertices, |s|) && Covers(edges, |s|) && NonNegativeEdges(vertices, edges, |s|)
    requires RoundResult(vertices, edges, s, t, u)
    requires u != 0 || vertices[0][0] != 1 || t[0].distance == Relaxed(s[0].distance, s[0].distance, edges[0][0])
    requires (u == 0 && vertices[0][0] == 1) || t[u].distance == s[u].distance
    requires forall i :: 0 <= i < |s| && i != u && vertices[u][i] == 1 && !s[i].visited ==>
      t[i].distance == Relaxed(s[i].distance, t[u].distance, edges[u][i])
    requires SettledFirst(s) && Relaxable(vertices, edges, s)
    requires forall i :: 0 <= i < |s| ==> s[i].distance >= 0
    ensures SettledFirst(t) && Relaxable(vertices, edges, t)
    ensures forall i :: 0 <= i < |t| ==> t[i].distance >= 0
  {
    assert t[u].distance == s[u].distance;
    forall a, b | 0 <= a < |t| && 0 <= b < |t| && t[a].visited && !t[b].visited
      ensures t[a].distance <= t[b].distance
    {
      if vertices[u][b] == 1 {
        assert t[b].distance == Relaxed(s[b].distance, t[u].distance, edges[u][b]);
      }
    }
    forall a, b | 0 <= a < |t| && 0 <= b < |t| && t[a].visited && vertices[a][b] == 1
      ensures t[b].distance <= t[a].distance + edges[a][b]
    {
      if a == u && b != u && !s[b].visited {
        assert t[b].distance == Relaxed(s[b].distance, t[u].distance, edges[u][b]);
      }
    }
    forall i | 0 <= i < |t| ensures t[i].distance >= 0
    {
      if t[i].distance != s[i].distance && i != u {
        assert t[i].distance == Relaxed(s[i].distance, t[u].distance, edges[u][i]);
      }
    }
  }

  /** Every distance below INF is the weight of some walk from the source
      along listed edges. */
  ghost predicate Witnessed(vertices: Matrix, edges: Matrix, s: seq<Mark>, source: int)
    requires Covers(vertices, |s|) && Covers(edges, |s|)
  {
    forall v :: 0 <= v < |s| && s[v].distance < INF ==> WalkOf(vertices, edges, |s|, s[v].distance, source, v)
  }

  /** A walk followed by one more listed edge is a walk, one step heavier. */
  lemma WalkExtend(vertices: Matrix, edges: Matrix, n: int, p: seq<int>, x: int)
    requires Covers(vertices, n) && Covers(edges, n) && IsPath(vertices, n, p)
    requires 0 <= x < n && vertices[p[|p| - 1]][x] == 1
    ensures IsPath(vertices, n, p + [x])
    ensures Weight(edges, n, p + [x]) == Weight(edges, n, p) + edges[p[|p| - 1]][x]
  {
    var q := p + [x];
    assert q[..|p|] == p;
    assert q[|q| - 2] == p[|p| - 1] && q[|q| - 1] == x;
    forall i | 0 <= i < |q| ensures 0 <= q[i] < n
    {
      if i < |p| { assert q[i] == p[i]; }
    }
    forall i | 0 <= i < |q| - 1 ensures vertices[q[i]][q[i + 1]] == 1
    {
      if i < |p| - 1 { assert q[i] == p[i] && q[i + 1] == p[i + 1]; }
    }
  }

  /** With non-negative weights the neighbour loop only lowers a distance to
      the distance of u plus one edge, so a walk to u extended by that edge
      witnesses the new value; the initial INF is never undercut from an
      unreached u. */
  lemma RelaxWitnessed(vertices: Matrix, edges: Matrix, s: seq<Mark>, t: seq<Mark>, u: int, source: int)
    requires Covers(vertices, |s|) && Covers(edges, |s|) && NonNegativeEdges(vertices, edges, |s|)
    requires |t| == |s| && 0 <= u < |s|
    requires Witnessed(vertices, edges, s, source) && forall i :: 0 <= i < |s| ==> s[i].distance <= INF
    requires t[u].distance == if u == 0 && vertices[0][0] == 1 then Relaxed(s[0].distance, s[0].distance, edges[0][0]) else s[u].distance
    requires forall i :: 0 <= i < |s| && i != u ==>
      t[i].distance == if vertices[u][i] == 1 && !s[i].visited then Relaxed(s[i].distance, t[u].distance, edges[u][i]) else s[i].distance
    ensures Witnessed(vertices, edges, t, source)
    ensures forall i :: 0 <= i < |t| ==> t[i].distance <= INF
  {
    var n := |s|;
    assert t[u].distance == s[u].distance;
    forall v | 0 <= v < n && t[v].distance < INF
      ensures WalkOf(vertices, edges, n, t[v].distance, source, v)
    {
      if t[v].distance != s[v].distance {
        assert v != u && vertices[u][v] == 1 && t[v].distance == s[u].distance + edges[u][v];
        assert s[u].distance < INF;
        assert WalkOf(vertices, edges, n, s[u].distance, source, u);
        var p :| IsPath(vertices, n, p) && p[0] == source && p[|p| - 1] == u && Weight(edges, n, p) == s[u].distance;
        WalkExtend(vertices, edges, n, p, v);
        assert (p + [v])[0] == source && (p + [v])[|p + [v]| - 1] == v;
      } else {
        assert WalkOf(vertices, edges, n, s[v].distance, source, v);
      }
    }
    forall i | 0 <= i < n ensures t[i].distance <= INF
    {
      if i != u && vertices[u][i] == 1 && !s[i].visited {
        assert t[i].distance <= s[i].distance;
      }
    }
  }

  /** One iteration of `for vertex in range(num_of_vertices)`: visit the
      vertex `to_be_visited` picks and relax its edges. While some vertex
      is unvisited the sentinel -10 is never returned. */
  method Round(vertices: Matrix, edges: Matrix, s: seq<Mark>, ghost source: int) returns (t: seq<Mark>, u: int)
    requires Covers(vertices, |s|) && Covers(edges, |s|)
    requires CountVisited(s) < |s|
    ensures RoundResult(vertices, edges, s, t, u)
    ensures CountVisited(t) == CountVisited(s) + 1
    ensures NonNegativeEdges(vertices, edges, |s|) && SettledFirst(s) && Relaxable(vertices, edges, s)
              && (forall i :: 0 <= i < |s| ==> s[i].distance >= 0) ==>
            SettledFirst(t) && Relaxable(vertices, edges, t) && forall i :: 0 <= i < |t| ==> t[i].distance >= 0
    ensures NonNegativeEdges(vertices, edges, |s|) && Witnessed(vertices, edges, s, source)
              && (forall i :: 0 <= i < |s| ==> s[i].distance <= INF) ==>
            Witnessed(vertices, edges, t, source) && forall i :: 0 <= i < |t| ==> t[i].distance <= INF
  {
    u := ToBeVisited(s);
    if u == -10 {
      CountFull(s);
      assert false;
    }
    t := Relax(vertices, edges, s, u);
    CountMark(s, t, u);
    if NonNegativeEdges(vertices, edges, |s|) && SettledFirst(s) && Relaxable(vertices, edges, s)
       && (forall i :: 0 <= i < |s| ==> s[i].distance >= 0) {
      RoundKeeps(vertices, edges, s, t, u);
    }
    if NonNegativeEdges(vertices, edges, |s|) && Witnessed(vertices, edges, s, source)
       && (forall i :: 0 <= i < |s| ==> s[i].distance <= INF) {
      RelaxWitnessed(vertices, edges, s, t, u, source);
    }
  }

  /** `Dijkstra_algorithm(vertices, edges, source)`: n rounds, one new
      vertex each. Every vertex ends up visited and no distance rises above
      its initial value. With non-negative weights the result holds the
      shortest distances: no walk from the source is lighter than the
      distance at its end, and every distance below INF is the weight of a
      walk from the source. None stands for the IndexError of `vertices[0]`
      on an empty adjacency matrix. */
  method Dijkstra(vertices: Matrix, edges: Matrix, source: int) returns (r: Option<seq<Mark>>)
    requires |vertices| > 0 ==> Covers(vertices, |vertices[0]|) && Covers(edges, |vertices[0]|)
    ensures r.None? <==> |vertices| == 0
    ensures r.Some? ==> |r.value| == |vertices[0]|
    ensures r.Some? ==> forall i :: 0 <= i < |r.value| ==> r.value[i].visited
    ensures r.Some? ==> forall i :: 0 <= i < |r.value| ==> r.value[i].distance <= (if i == source then 0 else INF)
    ensures r.Some? && NonNegativeEdges(vertices, edges, |r.value|) ==>
      (forall i :: 0 <= i < |r.value| ==> r.value[i].distance >= 0) && Relaxable(vertices, edges, r.value)
    ensures r.Some? && NonNegativeEdges(vertices, edges, |r.value|) ==>
      forall p :: IsPath(vertices, |r.value|, p) && p[0] == source ==> r.value[p[|p| - 1]].distance <= Weight(edges, |r.value|, p)
    ensures r.Some? && NonNegativeEdges(vertices, edges, |r.value|) ==> Witnessed(vertices, edges, r.value, source)
  {
    if |vertices| == 0 {
      return None;
    }
    var n := |vertices[0]|;
    var s := InitialMarks(n, source);
    CountNone(s);
    ghost var nonneg := NonNegativeEdges(vertices, edges, n);
    InitialWitnessed(vertices, edges, s, source);
    for vertex := 0 to n
      invariant |s| == n && CountVisited(s) == vertex
      invariant forall i :: 0 <= i < n ==> s[i].distance <= (if i == source then 0 else INF)
      invariant nonneg ==> SettledFirst(s) && Relaxable(vertices, edges, s)
      invariant nonneg ==> forall i :: 0 <= i < n ==> s[i].distance >= 0
      invariant nonneg ==> Witnessed(vertices, edges, s, source)
    {
      var u;
      s, u := Round(vertices, edges, s, source);
    }
    forall i | 0 <= i < n ensures s[i].visited
    {
      if !s[i].visited { CountBelow(s, i); }
    }
    if nonneg {
      forall p | IsPath(vertices, n, p) && p[0] == source
        ensures s[p[|p| - 1]].distance <= Weight(edges, n, p)
      {
        RelaxedAlongPath(vertices, edges, s, p);
      }
    }
    r := Some(s);
  }

  /** Before the first round only the source is below INF, at the weight 0
      of the one-vertex walk. */
  lemma InitialWitnessed(vertices: Matrix, edges: Matrix, s: seq<Mark>, source: int)
    requires Covers(vertices, |s|) && Covers(edges, |s|)
    requires forall i :: 0 <= i < |s| ==> s[i].distance == (if i == source then 0 else INF)
    ensures Witnessed(vertices, edges, s, source)
  {
    forall v | 0 <= v < |s| && s[v].distance < INF
      ensures WalkOf(vertices, edges, |s|, s[v].distance, source, v)
    {
      assert v == source;
      assert IsPath(vertices, |s|, [v]) && Weight(edges, |s|, [v]) == 0;
    }
  }

  lemma {:induction false} CountNone(s: seq<Mark>)
    requires forall i :: 0 <= i < |s| ==> !s[i].visited
    ensures CountVisited(s) == 0
  {
    if |s| > 0 {
      CountNone(s[..|s| - 1]);
    }
  }

  /** Along a walk whose edges cannot shorten any distance, the distance
      at the end is at most the distance at the start plus the walk's
      weight. */
  lemma {:induction false} RelaxedAlongPath(vertices: Matrix, edges: Matrix, s: seq<Mark>, p: seq<int>)
    requires Covers(vertices, |s|) && Covers(edges, |s|)
    requires forall i :: 0 <= i < |s| ==> s[i].visited
    requires Relaxable(vertices, edges, s) && IsPath(vertices, |s|, p)
    ensures s[p[|p| - 1]].distance <= s[p[0]].distance + Weight(edges, |s|, p)
  {
    if |p| > 1 {
      var q := p[..|p| - 1];
      RelaxedAlongPath(vertices, edges, s, q);
      assert vertices[p[|p| - 2]][p[|p| - 1]] == 1;
    }
  }

  // ---------------------------------------------------------------------
  // normalizeVerticesSet(n_vertices, vertices, edges)

  /** Every missing off-diagonal edge among the first n vertices carries
      the infinite weight. */
  ghost predicate Normalized(vertices: Matrix, r: Matrix, n: int)
    requires Covers(vertices, n) && Covers(r, n)
  {
    forall x, y :: 0 <= x < n && 0 <= y < n && vertices[x][y] == 0 && x != y ==> r[x][y] == INF
  }

  /** The double loop over `range(m)`: a missing off-diagonal edge of the
      first m vertices gets the infinite weight; every other entry stays. */
  method NormalizeBelow(vertices: Matrix, edges: Matrix, m: nat) returns (r: Matrix)
    requires Covers(vertices, m) && Covers(edges, m)
    ensures SameShape(r, edges)
    ensures forall x, y :: 0 <= x < |edges| && 0 <= y < |edges[x]| ==>
      r[x][y] == if x < m && y < m && vertices[x][y] == 0 && x != y then INF else edges[x][y]
  {
    r := edges;
    for x := 0 to m
      invariant SameShape(r, edges)
      invariant forall a, b :: 0 <= a < |edges| && 0 <= b < |edges[a]| ==>
        r[a][b] == if a < x && b < m && vertices[a][b] == 0 && a != b then INF else edges[a][b]
    {
      var row := r[x];
      for y := 0 to m
        invariant |row| == |edges[x]|
        invariant forall b :: 0 <= b < |row| ==>
          row[b] == if b < y && vertices[x][b] == 0 && x != b then INF else edges[x][b]
      {
        if vertices[x][y] == 0 && x != y {
          row := row[y := INF];
        }
      }
      r := r[x := row];
    }
  }

  /** `normalizeVerticesSet` as written: both loops run over
      `range(n_vertices - 1)`, so the last vertex's row and column keep
      their weights. */
  method NormalizeVerticesSet(n: int, vertices: Matrix, edges: Matrix) returns (r: Matrix)
    requires Covers(vertices, if n > 0 then n - 1 else 0) && Covers(edges, if n > 0 then n - 1 else 0)
    ensures SameShape(r, edges)
    ensures forall x, y :: 0 <= x < |edges| && 0 <= y < |edges[x]| ==>
      r[x][y] == if x < n - 1 && y < n - 1 && vertices[x][y] == 0 && x != y then INF else edges[x][y]
  {
    r := NormalizeBelow(vertices, edges, if n > 0 then n - 1 else 0);
  }

  /** Three vertices without any edge: the as-written loops mark the
      missing edges between vertices 0 and 1 but leave every edge touching
      vertex 2 at weight 0, free edges that do not exist. */
  method NormalizeVerticesSetMissesLastVertex() returns (r: Matrix)
    ensures |r| == 3 && |r[0]| == 3 && |r[1]| == 3 && |r[2]| == 3
    ensures r[0][1] == INF && r[2][0] == 0 && r[0][2] == 0
    ensures !Normalized([[0, 0, 0], [0, 0, 0], [0, 0, 0]], r, 3)
  {
    r := NormalizeVerticesSet(3, [[0, 0, 0], [0, 0, 0], [0, 0, 0]], [[0, 0, 0], [0, 0, 0], [0, 0, 0]]);
  }

  /** The evidently intended normalisation over `range(n_vertices)`. */
  method NormalizeAll(n: nat, vertices: Matrix, edges: Matrix) returns (r: Matrix)
    requires Covers(vertices, n) && Covers(edges, n)
    ensures SameShape(r, edges) && Covers(r, n)
    ensures Normalized(vertices, r, n)
    ensures forall x, y :: 0 <= x < |edges| && 0 <= y < |edges[x]| && !(x < n && y < n && vertices[x][y] == 0 && x != y) ==>
      r[x][y] == edges[x][y]
  {
    r := NormalizeBelow(vertices, edges, n);
  }

  // ---------------------------------------------------------------------
  // Floyd_Warshall_algorithm(vertices, edges)

  /** Python's `min` on two integers. */
  function Min(a: int, b: int): (r: int)
    ensures r <= a && r <= b && (r == a || r == b)
  {
    if a <= b then a else b
  }

  ghost predicate NonNegative(m: Matrix, n: int)
    requires Covers(m, n)
  {
    forall i, j :: 0 <= i < n && 0 <= j < n ==> m[i][j] >= 0
  }

  ghost predicate ZeroDiagonal(m: Matrix, n: int)
    requires Covers(m, n)
  {
    forall i :: 0 <= i < n ==> m[i][i] == 0
  }

  /** No route through one of the intermediate vertices 0 .. k-1 beats
      the direct entry. */
  ghost predicate TriangleThrough(m: Matrix, n: int, k: int)
    requires Covers(m, n)
  {
    forall i, j, c :: 0 <= i < n && 0 <= j < n && 0 <= c < k && c < n ==> m[i][j] <= m[i][c] + m[c][j]
  }

  /** p is a route of at least one step from i to j through vertices below
      n, taking any pair of vertices as a step. */
  ghost predicate Route(n: int, p: seq<int>, i: int, j: int)
  {
    && |p| >= 2 && p[0] == i && p[|p| - 1] == j
    && forall x :: 0 <= x < |p| ==> 0 <= p[x] < n
  }

  /** Every entry of the n-by-n block of r is the weight, under the step
      costs of d0, of some route between its two vertices. */
  ghost predicate RouteWeights(d0: Matrix, n: int, r: Matrix)
    requires Covers(d0, n) && Covers(r, n)
  {
    forall i, j {:trigger RouteOf(d0, n, r[i][j], i, j)} :: 0 <= i < n && 0 <= j < n ==> RouteOf(d0, n, r[i][j], i, j)
  }

  /** Some route from i to j weighs w under the step costs of d0. */
  ghost predicate RouteOf(d0: Matrix, n: int, w: int, i: int, j: int)
    requires Covers(d0, n)
  {
    exists p :: Route(n, p, i, j) && Weight(d0, n, p) == w
  }

  /** Joining two routes at a shared vertex adds their weights. */
  lemma {:induction false} WeightJoin(m: Matrix, n: int, p1: seq<int>, p2: seq<int>)
    requires Covers(m, n) && |p1| > 0 && |p2| > 0 && p1[|p1| - 1] == p2[0]
    requires forall x :: 0 <= x < |p1| ==> 0 <= p1[x] < n
    requires forall x :: 0 <= x < |p2| ==> 0 <= p2[x] < n
    ensures forall x :: 0 <= x < |p1 + p2[1..]| ==> 0 <= (p1 + p2[1..])[x] < n
    ensures Weight(m, n, p1 + p2[1..]) == Weight(m, n, p1) + Weight(m, n, p2)
    decreases |p2|
  {
    if |p2| == 1 {
      assert p1 + p2[1..] == p1;
    } else {
      var q2 := p2[..|p2| - 1];
      WeightJoin(m, n, p1, q2);
      var j := p1 + p2[1..];
      assert j[..|j| - 1] == p1 + q2[1..];
      assert j[|j| - 2] == p2[|p2| - 2];
    }
  }

  /** The matrix itself: each entry is the one-step route. */
  lemma RouteWeightsStart(d0: Matrix, n: int)
    requires Covers(d0, n)
    ensures RouteWeights(d0, n, d0)
  {
    forall i, j | 0 <= i < n && 0 <= j < n
      ensures RouteOf(d0, n, d0[i][j], i, j)
    {
      assert [i, j][..1] == [i];
      assert Route(n, [i, j], i, j) && Weight(d0, n, [i, j]) == d0[i][j];
    }
  }

  /** One in-place cell update keeps every entry a route weight: the new
      value is the old one or a route through k, joined from two. */
  lemma RouteWeightsCell(d0: Matrix, q: Matrix, n: int, k: int, i: int, j: int)
    requires Covers(d0, n) && Covers(q, n) && 0 <= k < n && 0 <= i < n && 0 <= j < n
    requires RouteWeights(d0, n, q)
    ensures Covers(q[i := q[i][j := Min(q[i][j], q[i][k] + q[k][j])]], n)
    ensures RouteWeights(d0, n, q[i := q[i][j := Min(q[i][j], q[i][k] + q[k][j])]])
  {
    var r := q[i := q[i][j := Min(q[i][j], q[i][k] + q[k][j])]];
    if r[i][j] != q[i][j] {
      assert RouteOf(d0, n, q[i][k], i, k) && RouteOf(d0, n, q[k][j], k, j);
      var p1 :| Route(n, p1, i, k) && Weight(d0, n, p1) == q[i][k];
      var p2 :| Route(n, p2, k, j) && Weight(d0, n, p2) == q[k][j];
      WeightJoin(d0, n, p1, p2);
      assert Route(n, p1 + p2[1..], i, j);
      assert r[i][j] == q[i][k] + q[k][j];
    } else {
      assert RouteOf(d0, n, q[i][j], i, j);
    }
    forall a, b | 0 <= a < n && 0 <= b < n
      ensures RouteOf(d0, n, r[a][b], a, b)
    {
      if a != i || b != j {
        assert r[a][b] == q[a][b];
        assert RouteOf(d0, n, q[a][b], a, b);
      }
    }
  }

  /** The state inside the pass with intermediate vertex k, at position
      (i, j): the entries before it in row-major order hold the pass's
      minimum when d[k][k] is not negative, the later ones still hold their
      values from before the pass, and nothing has grown. */
  ghost predicate PassState(d: Matrix, r: Matrix, n: int, k: int, i: int, j: int)
    requires Covers(d, n) && 0 <= k < n
  {
    && SameShape(r, d)
    && (forall a, b :: 0 <= a < |d| && 0 <= b < |d[a]| ==> r[a][b] <= d[a][b])
    && (forall a, b :: 0 <= a < |d| && 0 <= b < |d[a]| && !(a < n && b < n) ==> r[a][b] == d[a][b])
    && (forall a, b :: 0 <= a < n && 0 <= b < n && (a > i || (a == i && b >= j)) ==> r[a][b] == d[a][b])
    && (d[k][k] >= 0 ==>
         forall a, b :: 0 <= a < n && 0 <= b < n && (a < i || (a == i && b < j)) ==> r[a][b] == Min(d[a][b], d[a][k] + d[k][b]))
  }

  /** One cell (i, j) of the pass. Row k and column k keep their values
      during the pass when d[k][k] is not negative, so updating in place
      gives the same result as computing from the old matrix. */
  lemma PassCell(d: Matrix, q: Matrix, n: int, k: int, i: int, j: int)
    requires Covers(d, n) && 0 <= k < n && 0 <= i < n && 0 <= j < n
    requires PassState(d, q, n, k, i, j)
    ensures PassState(d, q[i := q[i][j := Min(q[i][j], q[i][k] + q[k][j])]], n, k, i, j + 1)
  {
    if d[k][k] >= 0 {
      assert q[i][k] == d[i][k] by {
        if k < j { assert q[i][k] == Min(d[i][k], d[i][k] + d[k][k]); }
      }
      assert q[k][j] == d[k][j] by {
        if k < i { assert q[k][j] == Min(d[k][j], d[k][k] + d[k][j]); }
      }
    }
  }

  /** The innermost loop over j for row i. */
  method PassRow(ghost d0: Matrix, d: Matrix, r: Matrix, n: int, k: int, i: int) returns (q: Matrix)
    requires Covers(d, n) && Covers(d0, n) && 0 <= k < n && 0 <= i < n
    requires PassState(d, r, n, k, i, 0)
    ensures PassState(d, q, n, k, i + 1, 0)
    ensures RouteWeights(d0, n, r) ==> RouteWeights(d0, n, q)
  {
    q := r;
    ghost var routes := RouteWeights(d0, n, r);
    for j := 0 to n
      invariant PassState(d, q, n, k, i, j)
      invariant routes ==> RouteWeights(d0, n, q)
    {
      PassCell(d, q, n, k, i, j);
      if routes {
        RouteWeightsCell(d0, q, n, k, i, j);
      }
      var row := q[i][j := Min(q[i][j], q[i][k] + q[k][j])];
      q := q[i := row];
    }
  }

  /** One pass of `for k in range(num_of_vertices)`: the double loop over
      i and j with intermediate vertex k. */
  method Pass(ghost d0: Matrix, d: Matrix, n: int, k: int) returns (r: Matrix)
    requires Covers(d, n) && Covers(d0, n) && 0 <= k < n
    ensures SameShape(r, d)
    ensures forall a, b :: 0 <= a < |d| && 0 <= b < |d[a]| ==> r[a][b] <= d[a][b]
    ensures forall a, b :: 0 <= a < |d| && 0 <= b < |d[a]| && !(a < n && b < n) ==> r[a][b] == d[a][b]
    ensures d[k][k] >= 0 ==> forall a, b :: 0 <= a < n && 0 <= b < n ==> r[a][b] == Min(d[a][b], d[a][k] + d[k][b])
    ensures RouteWeights(d0, n, d) ==> RouteWeights(d0, n, r)
  {
    r := d;
    for i := 0 to n
      invariant PassState(d, r, n, k, i, 0)
      invariant RouteWeights(d0, n, d) ==> RouteWeights(d0, n, r)
    {
      r := PassRow(d0, d, r, n, k, i);
    }
  }

  /** With non-negative entries and a zero diagonal, a pass keeps both and
      extends the triangle inequality to intermediate vertex k. */
  lemma PassKeeps(d: Matrix, r: Matrix, n: int, k: int)
    requires Covers(d, n) && Covers(r, n) && 0 <= k < n
    requires NonNegative(d, n) && ZeroDiagonal(d, n) && TriangleThrough(d, n, k)
    requires forall a, b :: 0 <= a < n && 0 <= b < n ==> r[a][b] == Min(d[a][b], d[a][k] + d[k][b])
    ensures NonNegative(r, n) && ZeroDiagonal(r, n) && TriangleThrough(r, n, k + 1)
  {
    forall i, j | 0 <= i < n && 0 <= j < n ensures r[i][j] >= 0
    {
      assert d[i][k] >= 0 && d[k][j] >= 0;
    }
    forall i | 0 <= i < n ensures r[i][i] == 0
    {
      assert d[i][k] >= 0 && d[k][i] >= 0;
    }
    forall i, j, c | 0 <= i < n && 0 <= j < n && 0 <= c < k + 1
      ensures r[i][j] <= r[i][c] + r[c][j]
    {
      assert r[i][k] == d[i][k] && r[k][j] == d[k][j];
      if c < k {
        assert d[i][k] <= d[i][c] + d[c][k];
        assert d[k][j] <= d[k][c] + d[c][j];
        assert d[k][k] <= d[k][c] + d[c][k];
      }
    }
  }

  /** What holds after the passes for intermediate vertices 0 .. k-1. */
  ghost predicate FloydState(edges: Matrix, n: int, d: Matrix, k: int)
    requires Covers(edges, n)
  {
    && SameShape(d, edges) && Covers(d, n)
    && (forall a, b :: 0 <= a < |edges| && 0 <= b < |edges[a]| ==> d[a][b] <= edges[a][b])
    && (forall a, b :: 0 <= a < |edges| && 0 <= b < |edges[a]| && !(a < n && b < n) ==> d[a][b] == edges[a][b])
    && RouteWeights(edges, n, d)
    && (NonNegative(edges, n) && ZeroDiagonal(edges, n) ==>
          NonNegative(d, n) && ZeroDiagonal(d, n) && TriangleThrough(d, n, k))
  }

  /** The pass for k takes the state for k to the state for k + 1. */
  lemma FloydStep(edges: Matrix, n: int, d: Matrix, r: Matrix, k: int)
    requires Covers(edges, n) && 0 <= k < n && FloydState(edges, n, d, k)
    requires SameShape(r, d)
    requires forall a, b :: 0 <= a < |d| && 0 <= b < |d[a]| ==> r[a][b] <= d[a][b]
    requires forall a, b :: 0 <= a < |d| && 0 <= b < |d[a]| && !(a < n && b < n) ==> r[a][b] == d[a][b]
    requires d[k][k] >= 0 ==> forall a, b :: 0 <= a < n && 0 <= b < n ==> r[a][b] == Min(d[a][b], d[a][k] + d[k][b])
    requires RouteWeights(edges, n, r)
    ensures FloydState(edges, n, r, k + 1)
  {
    if NonNegative(edges, n) && ZeroDiagonal(edges, n) {
      PassKeeps(d, r, n, k);
    }
  }

  /** `Floyd_Warshall_algorithm(vertices, edges)`. The source updates the
      caller's weight matrix itself (`distance = edges` is the same list)
      and returns it; here the updated matrix is the result. No entry ever
      grows, and for non-negative weights with a zero diagonal the diagonal
      stays zero and the result obeys the triangle inequality. Whatever the
      signs, every entry of the n-by-n block is the weight, under the input
      matrix, of some route between its two vertices. */
  method FloydWarshall(vertices: Matrix, edges: Matrix) returns (r: Option<Matrix>)
    requires |vertices| > 0 ==> Covers(edges, |vertices[0]|)
    ensures r.None? <==> |vertices| == 0
    ensures r.Some? ==> SameShape(r.value, edges) && Covers(r.value, |vertices[0]|)
    ensures r.Some? ==> forall a, b :: 0 <= a < |edges| && 0 <= b < |edges[a]| ==> r.value[a][b] <= edges[a][b]
    ensures r.Some? ==> forall a, b :: 0 <= a < |edges| && 0 <= b < |edges[a]| && !(a < |vertices[0]| && b < |vertices[0]|) ==>
      r.value[a][b] == edges[a][b]
    ensures r.Some? && NonNegative(edges, |vertices[0]|) && ZeroDiagonal(edges, |vertices[0]|) ==>
      ZeroDiagonal(r.value, |vertices[0]|) && TriangleThrough(r.value, |vertices[0]|, |vertices[0]|)
    ensures r.Some? ==> RouteWeights(edges, |vertices[0]|, r.value)
  {
    if |vertices| == 0 {
      return None;
    }
    var n := |vertices[0]|;
    var distance := edges;
    RouteWeightsStart(edges, n);
    for k := 0 to n
      invariant FloydState(edges, n, distance, k)
    {
      var next := Pass(edges, distance, n, k);
      FloydStep(edges, n, distance, next, k);
      distance := next;
    }
    r := Some(distance);
  }

  /** A matrix that is below the weights, zero on the diagonal and closed
      under the triangle inequality bounds the weight of every walk. */
  lemma {:induction false} TriangleBoundsWalk(edges: Matrix, r: Matrix, n: int, p: seq<int>)
    requires Covers(edges, n) && Covers(r, n)
    requires forall a, b :: 0 <= a < n && 0 <= b < n ==> r[a][b] <= edges[a][b]
    requires ZeroDiagonal(r, n) && TriangleThrough(r, n, n)
    requires |p| > 0 && forall i :: 0 <= i < |p| ==> 0 <= p[i] < n
    ensures r[p[0]][p[|p| - 1]] <= Weight(edges, n, p)
  {
    if |p| > 1 {
      var q := p[..|p| - 1];
      TriangleBoundsWalk(edges, r, n, q);
      assert r[p[0]][p[|p| - 1]] <= r[p[0]][p[|p| - 2]] + r[p[|p| - 2]][p[|p| - 1]];
    }
  }

  /** Two weight matrices that agree on every step of a walk give it the
      same weight. */
  lemma {:induction false} WeightAgrees(m1: Matrix, m2: Matrix, n: int, p: seq<int>)
    requires Covers(m1, n) && Covers(m2, n) && forall i :: 0 <= i < |p| ==> 0 <= p[i] < n
    requires forall i :: 0 <= i < |p| - 1 ==> m1[p[i]][p[i + 1]] == m2[p[i]][p[i + 1]]
    ensures Weight(m1, n, p) == Weight(m2, n, p)
  {
    if |p| > 1 {
      WeightAgrees(m1, m2, n, p[..|p| - 1]);
    }
  }

  /** The adjacency matrix holds only 0 and 1, as the generator makes it. */
  ghost predicate ZeroOne(vertices: Matrix, n: int)
    requires Covers(vertices, n)
  {
    forall a, b :: 0 <= a < n && 0 <= b < n ==> vertices[a][b] == 0 || vertices[a][b] == 1
  }

  /** Under non-negative step costs no route weighs less than nothing. */
  lemma {:induction false} WeightNonNegative(m: Matrix, n: int, p: seq<int>)
    requires Covers(m, n) && NonNegative(m, n) && forall i :: 0 <= i < |p| ==> 0 <= p[i] < n
    ensures Weight(m, n, p) >= 0
  {
    if |p| > 1 {
      WeightNonNegative(m, n, p[..|p| - 1]);
    }
  }

  /** m is the weight matrix `normalizeVerticesSet` makes over all n
      vertices: INF for a missing off-diagonal edge, the weight otherwise. */
  ghost predicate NormalOf(vertices: Matrix, edges: Matrix, m: Matrix, n: int)
    requires Covers(vertices, n) && Covers(edges, n) && Covers(m, n)
  {
    forall a, b :: 0 <= a < n && 0 <= b < n ==> m[a][b] == if vertices[a][b] == 0 && a != b then INF else edges[a][b]
  }

  /** One more route step below INF under the normalised weights either
      stays put at weight 0 or follows a listed edge. */
  lemma WalkStep(vertices: Matrix, edges: Matrix, m: Matrix, n: int, w: int, i: int, y: int, x: int)
    requires Covers(vertices, n) && Covers(edges, n) && Covers(m, n)
    requires ZeroOne(vertices, n) && ZeroDiagonal(edges, n) && NormalOf(vertices, edges, m, n)
    requires 0 <= y < n && 0 <= x < n && m[y][x] < INF
    requires WalkOf(vertices, edges, n, w, i, y)
    ensures WalkOf(vertices, edges, n, w + m[y][x], i, x)
  {
    var q :| IsPath(vertices, n, q) && q[0] == i && q[|q| - 1] == y && Weight(edges, n, q) == w;
    if x == y {
      assert m[y][x] == 0;
    } else {
      assert vertices[y][x] == 1 && m[y][x] == edges[y][x];
      WalkExtend(vertices, edges, n, q, x);
      assert (q + [x])[0] == i && (q + [x])[|q + [x]| - 1] == x;
    }
  }

  /** A route below INF under the normalised weights uses only listed edges
      and diagonal steps of weight 0; dropping the diagonal steps leaves a
      walk along listed edges of the same weight. */
  lemma {:induction false} RouteToWalk(vertices: Matrix, edges: Matrix, m: Matrix, n: int, p: seq<int>)
    requires Covers(vertices, n) && Covers(edges, n) && Covers(m, n)
    requires ZeroOne(vertices, n) && ZeroDiagonal(edges, n) && NonNegative(m, n) && NormalOf(vertices, edges, m, n)
    requires |p| > 0 && (forall i :: 0 <= i < |p| ==> 0 <= p[i] < n) && Weight(m, n, p) < INF
    ensures WalkOf(vertices, edges, n, Weight(m, n, p), p[0], p[|p| - 1])
  {
    if |p| == 1 {
      assert IsPath(vertices, n, p) && Weight(edges, n, p) == 0;
    } else {
      var q := p[..|p| - 1];
      assert q[0] == p[0] && q[|q| - 1] == p[|p| - 2];
      assert Weight(m, n, p) == Weight(m, n, q) + m[p[|p| - 2]][p[|p| - 1]];
      RouteToWalk(vertices, edges, m, n, q);
      RouteToWalkStep(vertices, edges, m, n, q, p[|p| - 1]);
    }
  }

  /** The step of `RouteToWalk`: a walk for the route q extends to one for
      q followed by x. */
  lemma RouteToWalkStep(vertices: Matrix, edges: Matrix, m: Matrix, n: int, q: seq<int>, x: int)
    requires Covers(vertices, n) && Covers(edges, n) && Covers(m, n)
    requires ZeroOne(vertices, n) && ZeroDiagonal(edges, n) && NonNegative(m, n) && NormalOf(vertices, edges, m, n)
    requires |q| > 0 && (forall i :: 0 <= i < |q| ==> 0 <= q[i] < n) && 0 <= x < n
    requires Weight(m, n, q) + m[q[|q| - 1]][x] < INF
    requires WalkOf(vertices, edges, n, Weight(m, n, q), q[0], q[|q| - 1])
    ensures WalkOf(vertices, edges, n, Weight(m, n, q) + m[q[|q| - 1]][x], q[0], x)
  {
    WeightNonNegative(m, n, q);
    WalkStep(vertices, edges, m, n, Weight(m, n, q), q[0], q[|q| - 1], x);
  }

  /** Every entry below INF of a matrix of route weights under the
      normalised weights is the weight of a walk along listed edges. */
  lemma RouteWeightsAreWalks(vertices: Matrix, edges: Matrix, m: Matrix, d: Matrix, n: int)
    requires Covers(vertices, n) && Covers(edges, n) && Covers(m, n) && Covers(d, n)
    requires ZeroOne(vertices, n) && ZeroDiagonal(edges, n) && NonNegative(m, n) && NormalOf(vertices, edges, m, n)
    requires RouteWeights(m, n, d)
    ensures forall i, j :: 0 <= i < n && 0 <= j < n && d[i][j] < INF ==> WalkOf(vertices, edges, n, d[i][j], i, j)
  {
    forall i, j | 0 <= i < n && 0 <= j < n && d[i][j] < INF
      ensures WalkOf(vertices, edges, n, d[i][j], i, j)
    {
      assert RouteOf(m, n, d[i][j], i, j);
      var p :| Route(n, p, i, j) && Weight(m, n, p) == d[i][j];
      RouteToWalk(vertices, edges, m, n, p);
    }
  }

  /** The all-pairs step of the experiment: normalise the weights (over
      every vertex, as evidently intended), then run Floyd-Warshall. With
      non-negative weights and a zero diagonal no entry exceeds the direct
      edge (INF where there is none), every final entry is at most the
      weight of any walk along listed edges between its two vertices,
      and for a 0/1 adjacency matrix every entry below INF is the weight of
      such a walk: the entries are the shortest walk weights. */
  method AllPairs(vertices: Matrix, edges: Matrix) returns (r: Option<Matrix>)
    requires |vertices| > 0 ==> Covers(vertices, |vertices[0]|) && Covers(edges, |vertices[0]|)
    requires |vertices| > 0 ==> NonNegative(edges, |vertices[0]|) && ZeroDiagonal(edges, |vertices[0]|)
    ensures r.None? <==> |vertices| == 0
    ensures r.Some? ==> Covers(r.value, |vertices[0]|)
    ensures r.Some? ==> forall i, j :: 0 <= i < |vertices[0]| && 0 <= j < |vertices[0]| ==>
      r.value[i][j] <= if vertices[i][j] == 0 && i != j then INF else edges[i][j]
    ensures r.Some? ==> forall p :: IsPath(vertices, |vertices[0]|, p) ==>
      r.value[p[0]][p[|p| - 1]] <= Weight(edges, |vertices[0]|, p)
    ensures r.Some? && ZeroOne(vertices, |vertices[0]|) ==>
      forall i, j :: 0 <= i < |vertices[0]| && 0 <= j < |vertices[0]| && r.value[i][j] < INF ==>
        WalkOf(vertices, edges, |vertices[0]|, r.value[i][j], i, j)
  {
    if |vertices| == 0 {
      return None;
    }
    var d := AllPairsOf(vertices, edges, |vertices[0]|);
    r := Some(d);
  }

  /** The all-pairs step on a non-empty adjacency matrix of n vertices. */
  method AllPairsOf(vertices: Matrix, edges: Matrix, n: int) returns (d: Matrix)
    requires |vertices| > 0 && n == |vertices[0]| && Covers(vertices, n) && Covers(edges, n)
    requires NonNegative(edges, n) && ZeroDiagonal(edges, n)
    ensures Covers(d, n)
    ensures forall i, j :: 0 <= i < n && 0 <= j < n ==>
      d[i][j] <= if vertices[i][j] == 0 && i != j then INF else edges[i][j]
    ensures forall p :: IsPath(vertices, n, p) ==> d[p[0]][p[|p| - 1]] <= Weight(edges, n, p)
    ensures ZeroOne(vertices, n) ==>
      forall i, j :: 0 <= i < n && 0 <= j < n && d[i][j] < INF ==> WalkOf(vertices, edges, n, d[i][j], i, j)
  {
    var normal := NormalizeAll(n, vertices, edges);
    NormalFacts(vertices, edges, normal, n);
    var r := FloydWarshall(vertices, normal);
    d := r.value;
    assert forall a, b :: 0 <= a < n && 0 <= b < n ==> d[a][b] <= normal[a][b];
    AllPairsFacts(vertices, edges, normal, d, n);
  }

  /** What the Floyd-Warshall result on the normalised weights says about
      the original adjacency and weight matrices. */
  lemma AllPairsFacts(vertices: Matrix, edges: Matrix, m: Matrix, d: Matrix, n: int)
    requires Covers(vertices, n) && Covers(edges, n) && Covers(m, n) && Covers(d, n)
    requires ZeroDiagonal(edges, n) && NonNegative(m, n) && NormalOf(vertices, edges, m, n)
    requires forall a, b :: 0 <= a < n && 0 <= b < n ==> d[a][b] <= m[a][b]
    requires ZeroDiagonal(d, n) && TriangleThrough(d, n, n) && RouteWeights(m, n, d)
    ensures forall i, j :: 0 <= i < n && 0 <= j < n ==>
      d[i][j] <= if vertices[i][j] == 0 && i != j then INF else edges[i][j]
    ensures forall p :: IsPath(vertices, n, p) ==> d[p[0]][p[|p| - 1]] <= Weight(edges, n, p)
    ensures ZeroOne(vertices, n) ==>
      forall i, j :: 0 <= i < n && 0 <= j < n && d[i][j] < INF ==> WalkOf(vertices, edges, n, d[i][j], i, j)
  {
    AllPairsBound(vertices, edges, m, d, n);
    if ZeroOne(vertices, n) {
      RouteWeightsAreWalks(vertices, edges, m, d, n);
    }
  }

  /** Every weight, listed or not, is at most INF, as the generator's small
      random weights are. */
  ghost predicate AtMostInf(edges: Matrix, n: int)
    requires Covers(edges, n)
  {
    forall a, b :: 0 <= a < n && 0 <= b < n ==> edges[a][b] <= INF
  }

  /** Dijkstra from a source and the all-pairs matrix agree: on a 0/1
      adjacency matrix with non-negative weights at most INF and a zero
      diagonal, the distance Dijkstra finds to every vertex is the entry of
      the source's row of the all-pairs matrix. */
  method DijkstraMatchesAllPairs(vertices: Matrix, edges: Matrix, source: int) returns (d: Option<seq<Mark>>, a: Option<Matrix>)
    requires |vertices| > 0 && Covers(vertices, |vertices[0]|) && Covers(edges, |vertices[0]|)
    requires ZeroOne(vertices, |vertices[0]|) && NonNegative(edges, |vertices[0]|) && ZeroDiagonal(edges, |vertices[0]|)
    requires AtMostInf(edges, |vertices[0]|)
    requires 0 <= source < |vertices[0]|
    ensures d.Some? && a.Some? && |d.value| == |vertices[0]| && Covers(a.value, |vertices[0]|)
    ensures forall v :: 0 <= v < |vertices[0]| ==> d.value[v].distance == a.value[source][v]
  {
    var n := |vertices[0]|;
    d := Dijkstra(vertices, edges, source);
    a := AllPairs(vertices, edges);
    assert NonNegativeEdges(vertices, edges, n);
    forall v | 0 <= v < n ensures d.value[v].distance == a.value[source][v]
    {
      SameDistance(vertices, edges, n, source, v, d.value[v].distance, a.value[source][v]);
    }
  }

  /** Two values that each bound every walk from i to j, that are each
      the weight of such a walk when below INF, and that are at most INF
      are equal. */
  lemma SameDistance(vertices: Matrix, edges: Matrix, n: int, i: int, j: int, x: int, y: int)
    requires Covers(vertices, n) && Covers(edges, n)
    requires x <= INF && y <= INF
    requires forall p :: IsPath(vertices, n, p) && p[0] == i && p[|p| - 1] == j ==> x <= Weight(edges, n, p)
    requires forall p :: IsPath(vertices, n, p) && p[0] == i && p[|p| - 1] == j ==> y <= Weight(edges, n, p)
    requires x < INF ==> WalkOf(vertices, edges, n, x, i, j)
    requires y < INF ==> WalkOf(vertices, edges, n, y, i, j)
    ensures x == y
  {
    if x < INF {
      var p :| IsPath(vertices, n, p) && p[0] == i && p[|p| - 1] == j && Weight(edges, n, p) == x;
    }
    if y < INF {
      var p :| IsPath(vertices, n, p) && p[0] == i && p[|p| - 1] == j && Weight(edges, n, p) == y;
    }
  }

  /** The normalised matrix of non-negative weights with a zero diagonal is
      again non-negative with a zero diagonal. */
  lemma NormalFacts(vertices: Matrix, edges: Matrix, m: Matrix, n: int)
    requires Covers(vertices, n) && Covers(edges, n) && Covers(m, n)
    requires NonNegative(edges, n) && ZeroDiagonal(edges, n)
    requires Normalized(vertices, m, n)
    requires forall x, y :: 0 <= x < n && 0 <= y < n && !(vertices[x][y] == 0 && x != y) ==> m[x][y] == edges[x][y]
    ensures NonNegative(m, n) && ZeroDiagonal(m, n) && NormalOf(vertices, edges, m, n)
  {
  }

  /** A triangle-closed matrix with a zero diagonal below the normalised
      weights bounds every walk along listed edges by its weight. */
  lemma AllPairsBound(vertices: Matrix, edges: Matrix, m: Matrix, d: Matrix, n: int)
    requires Covers(vertices, n) && Covers(edges, n) && Covers(m, n) && Covers(d, n)
    requires NormalOf(vertices, edges, m, n)
    requires forall a, b :: 0 <= a < n && 0 <= b < n ==> d[a][b] <= m[a][b]
    requires ZeroDiagonal(d, n) && TriangleThrough(d, n, n)
    ensures forall p :: IsPath(vertices, n, p) ==> d[p[0]][p[|p| - 1]] <= Weight(edges, n, p)
  {
    forall p | IsPath(vertices, n, p)
      ensures d[p[0]][p[|p| - 1]] <= Weight(edges, n, p)
    {
      TriangleBoundsWalk(m, d, n, p);
      WeightAgrees(m, edges, n, p);
    }
  }
}
