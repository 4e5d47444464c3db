# APA labs in Dafny

A model of the algorithm labs of the APA_LABS repository. Each lab wraps
textbook algorithms in timing and plotting code; this project models the
algorithms themselves and proves what they compute:

- **Fibonacci (LAB_1)**: the two-accumulator loop `iterative_fib`, the two
  list-building variants `iterative_fib_with_memoization` and
  `fibonacci_dynamic`, and `eigen_fib_optimized` with its `multiply`,
  `square` and logarithmic `power` over pairs `(a, b)` that stand for
  `a * phi + b` with `phi * phi == phi + 1`.
- **Sorting (LAB_2)**: the merge loop and `merge_sort`, three-way
  `quicksort`, `heap_sort` with `heapify` and `build_max_heap`, and
  `counting_sort`.
- **Primality tables (LAB_3)**: the five variants `algorithm_1` to
  `algorithm_5`.
- **Graph traversal (LAB_4)**: recursive `dfs` and queue-based `bfs` over an
  adjacency-list map, and their runs on the two fixed graphs `graph` and
  `graph2`.
- **Shortest paths (LAB_5)**: `Dijkstra_algorithm` with `to_be_visited`,
  `normalizeVerticesSet` and `Floyd_Warshall_algorithm`.
- **Spanning trees (LAB_7)**: `prim` with `find_min_key`, and `kruskal`
  with the disjoint-set forest of `find` and `union`.

Modelling conventions:

- Python lists are sequences, and matrices are sequences of sequences.
- An update in place returns the new value instead of changing its argument.
- Printed output (the visit order of `dfs` and `bfs`) is a returned sequence.
- Python integers are unbounded, and so is `int` here. `sys.maxsize` is the
  constant `INF = 9223372036854775807`, and sums above it stay exact.
- A Python exception that a caller can trigger becomes an error value:
  - `Option` for an `IndexError`;
  - `Result` with an error datatype where two failures must be told apart.
- The random pivot of `quicksort` is a parameter `pick`.

Files, one module each:

- `wrappers.dfy`: `Option` and `Result`.
- `sortspec.dfy`: sortedness and "sorted permutation of", the common
  specification of the sorts.
- `fibonacci.dfy`, `mergesort.dfy`, `quicksort.dfy`, `heapsort.dfy`,
  `countingsort.dfy`, `sieves.dfy`, `traversal.dfy`: one per lab topic.
- `shortestpaths.dfy`: the shortest-path lab.
- `spanningtree.dfy`: adjacency-matrix graphs, walks and connectivity,
  shared by Prim and Kruskal.
- `prim.dfy`, `unionfind.dfy`, `kruskal.dfy`: the spanning-tree lab.

Where the code and its descriptions disagree, the model follows the code:

- `union` runs two path-compressing `find` calls before it compares the
  roots. Even when both vertices are already in one set, `parent` can
  change. The roots and the ranks stay the same.
- `Dijkstra_algorithm` sets the visited flag of the current vertex inside
  the neighbour loop, at the end of its first turn. Only vertex 0 can
  therefore relax its own self-loop, when `vertices[0][0] == 1`.
  `Relax` states exactly that.

## Model

| member | source | states |
|---|---|---|
| Fibonacci.IterativeFib | LAB_1/main.py:98-105 | `iterative_fib` as written returns 0 for every n: both accumulators start at 0 and the loop keeps them there |
| Fibonacci.IterativeFibDiffers | LAB_1/main.py:98-105 | for every n >= 1 the as-written loop returns something other than F(n); n = 1 gives 0, not 1 |
| Fibonacci.IterativeFibCorrected | LAB_1/main.py:98-105 | the same loop started at (i, j) = (F(-1), F(0)) = (1, 0) returns F(n) for n >= 0 (after k rounds j = F(k), i = F(k-1)) and 0 for negative n |
| Fibonacci.IterativeFibWithMemoization | LAB_1/main.py:110-116 | the list keeps fib[k] = F(k); the result is F(n) for n >= 0; for n = -1 and n = -2 Python's negative indexing into [0, 1] gives 1 and 0; below -2 it is the IndexError (None) |
| Fibonacci.FibonacciDynamic | LAB_1/main.py:121-125 | the same contract as the memoization variant, so the two agree on every input, including the negative ones and the error case |
| Fibonacci.Square | LAB_1/main.py:142 | `square(a, b)` (with its left shift) equals `multiply(a, b, a, b)` |
| Fibonacci.MultiplyIsMatrixProduct | LAB_1/main.py:141 | `multiply` is the product of a phi + b and x phi + y under phi^2 = phi + 1: it agrees with multiplying the matrices a Q + b I, Q the Fibonacci matrix |
| Fibonacci.MultiplyCommutes | LAB_1/main.py:141 | `multiply` is commutative |
| Fibonacci.MultiplyAssociates | LAB_1/main.py:141 | `multiply` is associative, so the order in which `power` combines its factors does not matter |
| Fibonacci.MultiplyUnit | LAB_1/main.py:148 | (0, 1), the result of `power` for m = 0, is the unit of `multiply` |
| Fibonacci.PhiPowAdd | LAB_1/main.py:158-160 | p^(i+j) = p^i * p^j, the identity behind splitting m into n//2 and m - n//2 |
| Fibonacci.SquareUntil | LAB_1/main.py:152-156 | after the doubling loop n//2 is the largest power of two not above m (n//2 <= m < n) and (x, y) is (a, b) raised to n//2 |
| Fibonacci.Power | LAB_1/main.py:144-160 | `power(a, b, m)` is (a, b) raised to the m-th power under `multiply`, (0, 1) for m = 0; the recursion terminates because m - n//2 < m |
| Fibonacci.PhiPowFib | LAB_1/main.py:162 | (1, 0) raised to m + 1 is (F(m + 1), F(m)): the power of phi carries consecutive Fibonacci numbers |
| Fibonacci.EigenFibOptimized | LAB_1/main.py:140-164 | `eigen_fib_optimized(n)` returns F(n) for every n >= 0 |
| MergeSort.MergeSpecPermutation | LAB_2/main.py:28-48 | merging two lists yields a permutation of their concatenation |
| MergeSort.MergeSpecSorted | LAB_2/main.py:28-48 | merging two non-decreasing lists yields a non-decreasing list |
| MergeSort.MergeFromSpec | LAB_2/main.py:28-48 | the index-driven merge from positions (i, j) equals the recursive merge of the remaining suffixes |
| MergeSort.MergeHeads | LAB_2/main.py:29-36 | the first loop stops when one half is used up, and what it wrote agrees with the merged list up to position i + j, ties taken from the right half |
| MergeSort.CopyLeft | LAB_2/main.py:39-42 | copying the rest of the left half completes the merged list |
| MergeSort.CopyRight | LAB_2/main.py:45-48 | copying the rest of the right half completes the merged list |
| MergeSort.Merge | LAB_2/main.py:28-48 | the three loops write exactly the merge of the halves: a permutation of left ++ right, non-decreasing when both halves are |
| MergeSort.MergeSortAsWritten | LAB_2/main.py:15-48 | the call returns nothing and only rebinds its own copy, so the caller's list is unchanged (automatic with sequences as values, hence not a result); the local copy is a permutation of the input and ends as one merge of the two unsorted halves, because the recursive calls sort copies that are thrown away |
| MergeSort.MergeSortAsWrittenCounterexample | LAB_2/main.py:15-48 | running the as-written sort on [4, 3, 2, 1] leaves its local copy as [2, 1, 4, 3], which is not sorted |
| MergeSort.MergeSortFixed | LAB_2/main.py:15-48 | merge sort that merges the sorted halves returns a sorted permutation of its input |
| QuickSort.Partition | LAB_2/main.py:59-66 | the loop puts every element below the pivot in left, every equal one in equal and every larger one in right; together they hold exactly the input, and their sizes sum to its length |
| QuickSort.PartitionShrinks | LAB_2/main.py:58-70 | when the pivot is drawn from the list, both recursive calls get strictly shorter lists |
| QuickSort.Quicksort | LAB_2/main.py:52-70 | `quicksort` returns a sorted permutation of its input, whatever pivot index is drawn |
| QuickSort.QuicksortPivotIndependent | LAB_2/main.py:58-70 | the result is the same for every choice of pivot indices |
| QuickSort.QuicksortIdempotent | LAB_2/main.py:52-70 | sorting an already sorted result returns it unchanged |
| SortSpec.SortedPermutationUnique | LAB_2/main.py:52-70 | two sorted permutations of one list are equal, which pins every sort's result down |
| HeapSort.Largest | LAB_2/main.py:84-92 | `largest` is i, or a child within the prefix n that is larger than arr[i] and not smaller than the other child; after moving it up, i is no smaller than its children |
| HeapSort.Heapify | LAB_2/main.py:83-98 | `heapify(arr, n, i)` keeps the elements of the prefix n and leaves every index >= n untouched |
| HeapSort.HeapifyRestores | LAB_2/main.py:83-98 | if every node of the heap range [lo, n) other than i already obeys the max-heap order, and the parent of i, when it lies in [lo, n), is at least each child of i, then after `heapify` every node in [lo, n) does |
| HeapSort.HeapRootMax | LAB_2/main.py:106-108 | the root of a max-heap is its largest element |
| HeapSort.BuildMaxHeap | LAB_2/main.py:76-80 | `build_max_heap` returns a permutation of its input that is a max-heap |
| HeapSort.ExtractStep | LAB_2/main.py:106-110 | each extraction step keeps the loop invariant: a max-heap arr[0..i), a sorted tail arr[i..n), and nothing in the heap above anything in the tail |
| HeapSort.HeapSort | LAB_2/main.py:74-111 | `heap_sort` returns a sorted permutation of its (unchanged) argument |
| CountingSort.FindRange | LAB_2/main.py:117-123 | on a non-empty list, min_val and max_val are elements, and every element lies between them |
| CountingSort.Frequencies | LAB_2/main.py:125-128 | every index val - min_val is in range, and freq[d] counts the occurrences of min_val + d |
| CountingSort.CumulativeSums | LAB_2/main.py:130-133 | cum_sum[d] is the sum of freq[0..d] |
| CountingSort.CountedFacts | LAB_2/main.py:125-133 | the frequencies sum to len(arr) (so the last cumulative sum is len(arr)), and writing each value freq[d] times gives back the elements of arr |
| CountingSort.Place | LAB_2/main.py:137-140 | the placement loop fills positions cum_sum[d-1] .. cum_sum[d] - 1 with the value min_val + d, each slot exactly once |
| CountingSort.CountingSort | LAB_2/main.py:115-142 | an empty list is the OverflowError of `int(-inf - inf)` (Failure); any other list comes back as a sorted permutation of the same length |
| Sieves.StrikeMultiples | LAB_3/main.py:25-28 | the inner loop clears exactly the proper multiples of i and leaves c[0], c[1] and every other entry as they were |
| Sieves.Algorithm1 | LAB_3/main.py:11-34 | `algorithm_1(n)` raises IndexError (None) exactly when n < 1; otherwise it returns n + 1 entries with c[0] True, c[1] False and c[k] True exactly when k is prime |
| Sieves.Algorithm2 | LAB_3/main.py:37-49 | the same table as `algorithm_1`, although multiples of composite i are struck too |
| Sieves.Algorithm3 | LAB_3/main.py:52-73 | the table with c[0] = c[1] = False and c[k] True exactly for primes; None exactly when n < 1 |
| Sieves.Algorithm4 | LAB_3/main.py:76-93 | the table of `algorithm_1`: c[i] False exactly when some 2 <= j < i divides i |
| Sieves.TrialDivideToSqrt | LAB_3/main.py:101-105 | the loop over j with j * j <= i (the source's j <= sqrt(i)) clears c[i] exactly when i is not prime, touching no other entry |
| Sieves.CompositeIffSmallDivisor | LAB_3/main.py:102-103 | i >= 2 is composite exactly when it has a divisor d >= 2 with d * d <= i |
| Sieves.SqrtBoundSuffices | LAB_3/main.py:102-103 | testing divisors below the first j with j * j > i decides primality |
| Sieves.Algorithm5 | LAB_3/main.py:96-107 | the table of `algorithm_3`; c[i] is False exactly when some j >= 2 with j * j <= i divides i |
| Sieves.PrimeTableUnique | LAB_3/main.py:11-107 | two variants that agree on c[0] return the same list: `algorithm_2` and `algorithm_4` equal `algorithm_1`, and `algorithm_5` equals `algorithm_3` |
| Sieves.PrimeTablesDifferOnlyAtZero | LAB_3/main.py:54-57 | variants 1, 2, 4 and variants 3, 5 agree on indices 1..n and differ at index 0 |
| Traversal.Dfs | LAB_4/main.py:28-36 | `dfs` prints in preorder, the node first; `visited` only grows, by graph nodes, each printed once; every newly visited node has all its neighbours visited; an already visited node prints nothing |
| Traversal.DfsList | LAB_4/main.py:34-36 | the loop over the neighbours visits each of them, with the same growth guarantees |
| Traversal.DfsReachesAll | LAB_4/main.py:28-36 | every node reachable from the start through initially unvisited nodes ends up visited |
| Traversal.Enqueue | LAB_4/main.py:50-54 | the neighbour loop appends the same new nodes to both `visited` and the queue: exactly the neighbours not yet visited, each once; afterwards every neighbour is visited |
| Traversal.EnqueueInListOrder | LAB_4/main.py:50-54 | the nodes the neighbour loop appends come in the order of their first occurrence in the neighbour list |
| Traversal.BfsLoop | LAB_4/main.py:46-54 | the queue is always the tail of `visited` after the printed nodes; the loop ends with it empty, having printed all of `visited`, without duplicates, extending what was printed before |
| Traversal.BfsComplete | LAB_4/main.py:41-54 | `bfs` prints exactly the nodes reachable from the root |
| Traversal.Bfs | LAB_4/main.py:41-54 | `bfs` prints the root first, never a node twice, only reachable nodes, and every neighbour of a printed node |
| Traversal.DfsOnGraph1 | LAB_4/main.py:10-15 | `dfs` on `graph` from 'D' with an empty visited set prints D B A C E F |
| Traversal.BfsOnGraph1 | LAB_4/main.py:10-15 | `bfs` on `graph` from 'D' prints D B E A C F |
| Traversal.DfsShape | LAB_4/main.py:16-36 | on any graph with the adjacency lists of `graph2` over nine distinct names, `dfs` from the first name with an empty visited set prints them in the order d b a s n t c e f |
| Traversal.BfsShape | LAB_4/main.py:16-54 | on any such graph, `bfs` from the first name prints d b e a c f s t n |
| Traversal.DfsOnGraph2 | LAB_4/main.py:16-24 | `dfs` on `graph2` from 'D' with its own empty visited set (`visited2`) prints D B A S N T C E F |
| Traversal.BfsOnGraph2 | LAB_4/main.py:16-24 | `bfs` on `graph2` from 'D' prints D B E A C F S T N |
| ShortestPaths.InitialMarks | LAB_5/main.py:19-24 | every vertex starts unvisited, the source at distance 0 and every other vertex at `sys.maxsize` |
| ShortestPaths.ToBeVisited | LAB_5/main.py:10-17 | `to_be_visited` returns an unvisited vertex of smallest distance, the last such one because of `<=`, and -10 only when every vertex is visited |
| ShortestPaths.Relax | LAB_5/main.py:27-35 | the neighbour loop marks u visited and lowers the distance of exactly the unvisited neighbours v with vertices[u][v] == 1 to min(old, d[u] + w); no distance rises |
| ShortestPaths.Round | LAB_5/main.py:25-35 | each round marks exactly one new vertex visited, so the -10 sentinel is never used; with non-negative weights the visited vertices settle first and their edges are relaxed |
| ShortestPaths.Dijkstra | LAB_5/main.py:8-36 | all vertices end visited; no distance exceeds its start value; with non-negative weights the distances are the shortest ones: non-negative, no listed edge can shorten one, no walk from the source along listed edges weighs less than the distance at its end, and every distance below `sys.maxsize` is the weight of such a walk; an empty matrix is the IndexError (None) |
| ShortestPaths.RelaxWitnessed | LAB_5/main.py:27-35 | with non-negative weights, relaxing the neighbours of u keeps every distance below `sys.maxsize` the weight of a walk from the source: a lowered distance is the walk to u extended by the edge to the neighbour |
| ShortestPaths.NormalizeVerticesSet | LAB_5/main.py:87-91 | as written: non-adjacent off-diagonal pairs get `sys.maxsize` only for x, y < n - 1; every other entry, the last row and column included, is unchanged |
| ShortestPaths.NormalizeVerticesSetMissesLastVertex | LAB_5/main.py:87-91 | on three vertices without edges, entry (0, 1) becomes `sys.maxsize` while (0, 2) and (2, 0) stay 0 |
| ShortestPaths.NormalizeAll | LAB_5/main.py:87-91 | over range(n), as intended, every missing off-diagonal edge of the n vertices weighs `sys.maxsize`, and nothing else changes |
| ShortestPaths.Pass | LAB_5/main.py:44-48 | one round k of the i, j loops replaces each entry by min(d[i][j], d[i][k] + d[k][j]) (when d[k][k] >= 0) and never raises an entry |
| ShortestPaths.PassKeeps | LAB_5/main.py:44-48 | with non-negative weights and zero diagonal, round k keeps both and extends the triangle inequality to intermediate vertex k |
| ShortestPaths.FloydWarshall | LAB_5/main.py:40-49 | no entry ever increases, entries outside the n x n block are untouched, and with non-negative weights and a zero diagonal the diagonal stays 0 and d[i][j] <= d[i][k] + d[k][j] for all i, j, k; whatever the signs, every entry of the block is the weight, under the input matrix, of some route of at least one step between its two vertices; an empty matrix is the IndexError (None) |
| ShortestPaths.WeightJoin | LAB_5/main.py:48 | joining a route to k with a route from k adds their weights, which is what `distance[i][k] + distance[k][j]` stands for |
| ShortestPaths.RouteWeightsCell | LAB_5/main.py:48 | one in-place update of `distance[i][j]` keeps every entry of the block the weight of some route: a changed entry is a route to k joined with one from k |
| ShortestPaths.TriangleBoundsWalk | LAB_5/main.py:40-49 | a matrix below the weights with zero diagonal and the triangle inequality bounds the weight of every walk |
| ShortestPaths.DijkstraMatchesAllPairs | LAB_5/main.py:8-36 | on a 0/1 adjacency matrix with non-negative weights at most `sys.maxsize` and a zero diagonal, the distance `Dijkstra_algorithm` finds from the source to every vertex equals that vertex's entry in the source's row of the all-pairs matrix |
| ShortestPaths.SameDistance | LAB_5/main.py:110-114 | two values that each bound every walk between two vertices, each the weight of such a walk when below `sys.maxsize`, and each at most `sys.maxsize`, are equal |
| ShortestPaths.AllPairs | LAB_5/main.py:110-114 | no entry exceeds the direct edge's weight (`sys.maxsize` where there is none); normalising (over all vertices) and then running Floyd-Warshall gives, for every walk along listed edges, an entry no larger than its weight, and for a 0/1 adjacency matrix every entry below `sys.maxsize` is the weight of such a walk, so the entries are the shortest walk weights |
| ShortestPaths.RouteToWalk | LAB_5/main.py:87-91 | under the normalised weights a route lighter than `sys.maxsize` only follows listed edges and zero-weight diagonal steps, so it gives a walk along listed edges of the same weight |
| ShortestPaths.RouteWeightsAreWalks | LAB_5/main.py:110-114 | every entry below `sys.maxsize` of a matrix of route weights under the normalised weights is the weight of a walk along listed edges |
| Prim.FindMinKey | LAB_7/main.py:8-15 | `find_min_key` returns the lowest-index vertex outside the tree whose key is smallest and below `sys.maxsize`, and None exactly when no such vertex exists |
| Prim.Attach | LAB_7/main.py:27-31 | u joins the tree; a key only changes by falling to the weight of an edge from u, and the vertex then takes u as parent |
| Prim.AttachKeeps | LAB_7/main.py:25-31 | a round keeps the invariant: finite keys exactly for vertices with a parent, each reachable from 0; a parent is a tree vertex and the key is its edge weight; every edge leaving the tree bounds the key of its far end |
| Prim.Start | LAB_7/main.py:19-24 | key 0 for vertex 0 and `sys.maxsize` elsewhere, no parents, an empty tree |
| Prim.Grow | LAB_7/main.py:25-31 | each of the n - 1 rounds adds exactly one vertex; the loop fails (a None from `find_min_key`) only on a graph where vertex 0 does not reach every vertex; every tree vertex other than 0 hangs from a tree vertex that joined in an earlier round |
| Prim.OrderStep | LAB_7/main.py:27-31 | the vertex picked in a round joins after every tree vertex, and no tree vertex changes its parent, so the parents of tree vertices still joined earlier |
| Prim.JoinedToRoot | LAB_7/main.py:32-34 | following the parent triples from any vertex reaches vertex 0 |
| Prim.Gather | LAB_7/main.py:32-34 | the i-th triple is exactly (parent[i + 1], i + 1, graph[parent[i + 1]][i + 1]), each a usable edge; it fails exactly when some parent is still None |
| Prim.Collect | LAB_7/main.py:32-35 | building the triples after the rounds succeeds exactly when vertex 0 reaches every vertex, and then gives the n - 1 parent triples of the final arrays, usable edges that join every vertex to 0 |
| Prim.Prim | LAB_7/main.py:18-35 | an empty graph fails at `key[0]`; otherwise `prim` succeeds exactly when vertex 0 reaches every vertex, and then returns the triples (parent[v], v, weight) of the final arrays for v = 1..n-1, each a non-zero edge whose parent is a tree vertex; these n - 1 edges join every vertex to 0, so they form a spanning tree |
| UnionFind.Find | LAB_7/main.py:39-42 | `find` returns the root of v (parent[r] == r) and re-points v at it; every other parent either stays or moves to its vertex's root, and the ranks are kept |
| UnionFind.FindKeepsRoots | LAB_7/main.py:39-42 | path compression changes no vertex's root and makes no new root |
| UnionFind.Link | LAB_7/main.py:48-54 | the lower-ranked root is hung below the other (the second below the first on a tie); the two sets merge, every other root stays, the set count drops by one, and only the first root's rank can grow by one, on a tie |
| UnionFind.Union | LAB_7/main.py:45-54 | the forest stays valid (rank[parent[v]] > rank[v] for every non-root v, so `find` terminates); ranks never fall; a rank grows by at most one, only at the first root when two distinct roots of equal rank merge |
| UnionFind.UnionMerges | LAB_7/main.py:45-54 | after `union` both vertices share a root; the two sets merge under one of their roots, other sets are untouched, and the set count drops by one exactly when they were apart |
| Kruskal.Candidates | LAB_7/main.py:59-64 | the edge list holds every pair u < v with a non-zero entry, with its weight, exactly once and in row order |
| Kruskal.SortByWeight | LAB_7/main.py:66 | the sorted list is in non-decreasing weight and a permutation of the edges |
| Kruskal.SortKeepsTies | LAB_7/main.py:66 | the sort is stable: the edges of each weight keep their order |
| Kruskal.StableSortUnique | LAB_7/main.py:66 | a stable sort by weight has only one possible result, so this model of `sorted` gives the same list as Python's |
| Kruskal.Consider | LAB_7/main.py:76-78 | an edge is kept exactly when its ends have different roots; then their sets merge and the set count drops by one, otherwise the sets stay |
| Kruskal.Turn | LAB_7/main.py:73-78 | one turn keeps the loop invariant: kept edges are listed edges in non-decreasing weight, one per merge, and every vertex is joined to its root through kept edges |
| Kruskal.KeepEdges | LAB_7/main.py:68-78 | starting from singleton sets, the loop over the whole sorted list ends with the loop invariant for every edge: kept edges are listed edges in non-decreasing weight, one per merge, and every vertex is joined to its root through kept edges |
| Kruskal.Kruskal | LAB_7/main.py:57-79 | the kept edges are listed edges in non-decreasing weight; their number is n minus the number of final sets (at most n - 1); the ends of every listed edge share a set, and kept edges join any two vertices of a set; on a symmetric graph connected from 0 exactly n - 1 edges are kept |

## Left out

- LAB_6 (digits of pi) is not part of this model. It works on floats and `Decimal` square roots.
- `eigen_fib` and `golden_ratio_fib` (LAB_1) are not modelled: they compute with floating-point eigenvectors and powers.
- Timing, plotting and the script code of every lab are not modelled: `exec_time`, `measure_time`, `current_time_millis`, the running-time tables, matplotlib, networkx and PrettyTable. These are clocks, I/O and floats.
- The random generators `generate_random_array`, `generateGraph` and `generate_random_graph` are not modelled. The facts the algorithms need from their output are preconditions instead: square matrices, a zero diagonal and non-negative weights.
- Counting sort on real numbers (the lab feeds it floats) is not modelled. The model works on integers, where `int(val - min_val)` is exact.
- The comparison sorts (merge sort, quicksort, heap sort and the sorted-order facts they share) are modelled on `int`. The lab sorts floats made by `round(random.uniform(-10000, 10000), 5)`. These sorts compare elements only with `<`, `>` and `<=`, and the generated floats are finite, never NaN, so they are totally ordered like integers. The order and permutation facts carry over; float representation is not modelled.
- QuickSort.Quicksort: the random pivot index is the parameter `pick`, reduced modulo the length. QuickSort.QuicksortPivotIndependent shows that the choice does not matter.
- Traversal.Dfs: requires a closed graph: the start node and every listed neighbour of every node are keys. This is stronger than the source needs. `dfs` evaluates `graph[node]` only for a node it visits for the first time, so it raises KeyError only when it reaches a missing node. A missing neighbour of a node the search never reaches does no harm there. The model does not cover such graphs or the KeyError path.
- Traversal.Bfs: requires a closed graph, as `Dfs` does. `bfs` evaluates `graph[m]` only for dequeued nodes, and those are reachable from the start, so the source needs only the reachable nodes to be keys. The source's module-level `queue` is a local queue here; it is empty again when `bfs` returns.
- Fibonacci.Power: requires m >= 0. For a negative m the source recurses until Python's recursion limit.
- Fibonacci.EigenFibOptimized: requires n >= 0, for the same reason.
- Sieves.TrialDivideToSqrt: the inner loop runs while j * j <= i, the exact integer form of the source's `j <= math.sqrt(i)`. Float rounding of `math.sqrt` for i above 2^52, where the two tests could differ, is not modelled.
- ShortestPaths.Dijkstra: requires both matrices to have at least n rows of at least n entries, n = len(vertices[0]). A shorter row is an IndexError that the model does not represent.
- ShortestPaths.Dijkstra: with a negative weight the greedy order is not sound, and the model promises only that every vertex is visited and no distance rises.
- ShortestPaths.AllPairs: the walk witness needs a 0/1 adjacency matrix, as the generator makes it; another non-zero entry keeps its weight after normalisation but is not an edge for `Dijkstra`.
- ShortestPaths.FloydWarshall: the source updates the caller's `edges` matrix itself, because `distance = edges` aliases it. The model returns the updated matrix.
- Prim.Prim: requires a square matrix. It proves that the triples form a spanning tree (n - 1 edges joining every vertex to 0), not that the tree has minimum total weight.
- ShortestPaths.DijkstraMatchesAllPairs: requires every weight to be at most `sys.maxsize`; a larger weight makes the all-pairs entry exceed the infinite distance that Dijkstra reports.
- Kruskal.Kruskal: requires a square matrix, and it does not prove minimum total weight.
- Kruskal.Kruskal: the kept edges are shown to form a spanning forest by counting: each kept edge merges two sets. No separate "no cycle" predicate is stated.
- Kruskal.Kruskal: the final `parent`/`rank` dictionaries are returned as a ghost value, only to state the set facts.
- UnionFind.Union: does not promise an unchanged `parent` when the two vertices already share a set, because the source's `find` calls compress paths there. Roots and ranks are unchanged.
- Prim.Grow: `Usable` reads `graph[u][v]` as true when non-zero, like Python. Negative weights count as edges.

## Findings

| source | as written | input that shows it | evidently intended | confidence | as-written member | corrected member |
|---|---|---|---|---|---|---|
| LAB_1/main.py:98-105 | `i, j = 0, 0`, so both accumulators stay 0 and the result is always 0 | n = 1 returns 0, not F(1) = 1 | start from `i, j = 1, 0`, so that j = F(k) after k rounds | not executed | Fibonacci.IterativeFib, Fibonacci.IterativeFibDiffers | Fibonacci.IterativeFibCorrected |
| LAB_2/main.py:15-48 | the recursive calls sort throw-away copies (`arr = a[:]`, results discarded), so the merge combines unsorted halves, and nothing is returned | [4, 3, 2, 1]: the local list ends as [2, 1, 4, 3] | merge the sorted halves and return the result | not executed | MergeSort.MergeSortAsWritten, MergeSort.MergeSortAsWrittenCounterexample | MergeSort.MergeSortFixed |
| LAB_5/main.py:87-91 | `range(n_vertices - 1)` skips the last row and column | 3 vertices, no edges: edges[0][2] and edges[2][0] stay 0 instead of `sys.maxsize` | `range(n_vertices)` | not executed | ShortestPaths.NormalizeVerticesSet, ShortestPaths.NormalizeVerticesSetMissesLastVertex | ShortestPaths.NormalizeAll |
