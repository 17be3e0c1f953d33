# GrafoDisperso in Dafny

This project models `GrafoDisperso`, the C++ core of a graph-exploration tool.
`GrafoDisperso` is a directed graph read from a text edge list and stored in
compressed sparse row (CSR) form:

- `row_ptr` holds one offset per node, plus one more at the end.
- `valores` holds the destinations of every source, one source after another.
- `column_indices` is a copy of `valores`.
- `num_nodos` and `num_aristas` are the node and edge counts.

On this structure the class offers these operations:

- the loader `cargarDatos`;
- the degree and neighbour queries `obtenerGrado` and `getVecinos`;
- the node of highest degree, `getNodoMaxGrado`;
- a breadth-first search bounded by depth, `BFS`;
- the two count getters.

The Dafny files:

- `wrappers.dfy`: the `Option` and `Outcome` result types.
- `edge_list.dfy` (module `EdgeList`):
  - the text format of the edge list;
  - `>> int` extraction;
  - when a line yields an edge;
  - the edge set and the largest node id described by a whole file.
- `csr.dfy` (module `Csr`):
  - the CSR invariant `IsCsr` over a ghost set of directed edges;
  - the sorted listing of a set;
  - degree and prefix-sum facts;
  - the uniqueness of the layout;
  - `Ball`, the nodes within k directed hops of a start node.
- `traversal.dfy` (module `Traversal`):
  - the state of the breadth-first search: the result list, the distance vector and the queue;
  - the steps that keep that state, and what it implies when the queue is empty;
  - the discovery order: each node after the start is appended by the scan of its first in-neighbour in the result, and a scan appends in ascending id.
- `grafo_disperso.dfy` (module `Grafos`):
  - the class `GrafoDisperso`, with the C++ vectors as `seq<int>` fields that the loader reassigns;
  - a ghost field `Edges`, holding the directed edges the fields encode;
  - the class invariant `Valid()`;
  - the loader's reading loop, the CSR construction loops and the search loops, as methods with loop invariants.

The class invariant has two cases:

- Nothing is loaded: every count is 0 and every vector is empty.
- A graph is loaded:
  - the fields are the CSR layout of `Edges` over `numNodos` nodes;
  - `column_indices` equals `valores`;
  - `num_aristas` is the number of edges, and also the length of `valores`;
  - `numNodos - 1` is the largest endpoint of an edge.

This model follows the code, including where a reader might expect otherwise:

- Edges are directed. The comment at `GrafoDisperso.cpp:16` speaks of undirected graphs, but only `origen -> destino` is stored (line 36).
- Duplicate lines collapse to one edge, and self-loops are kept.
- Each neighbour slice is sorted ascending, so it does not follow file order.
- Queries out of range return `0`, an empty vector or `-1`. They do not raise.
- Only the loader fails: when the file cannot be opened, or when no line yields an edge.

The defensive checks in `BFS` (lines 123, 129 and 137) are modelled as assertions and proved never to fire under the class invariant. So are the checks in `obtenerGrado` (line 162) and `getVecinos` (lines 174 and 182).

## Model

| member | source | states |
|---|---|---|
| EdgeList.ExtractIntOf | PracticaFinalizada/GrafoDisperso.cpp:27-29 | `>> int` on blanks, an optional sign and one or more decimal digits, followed by nothing or by a non-digit, reads the signed value and leaves exactly what follows |
| EdgeList.ExtractIntShape | PracticaFinalizada/GrafoDisperso.cpp:27-29 | conversely, a successful `>> int` consumed exactly such a text: blanks, an optional sign, digits, then a rest that does not start with a digit; the value read is the signed digits |
| EdgeList.AcceptedLineShape | PracticaFinalizada/GrafoDisperso.cpp:25-31 | a line yields the edge (a, b) only when it is written as a, then at least one blank or a sign, then b, then nothing or a non-digit, with a and b both non-negative |
| EdgeList.AcceptedLineOf | PracticaFinalizada/GrafoDisperso.cpp:25-31 | every line written that way yields (a, b) when a and b are both non-negative, and no edge when either is negative |
| EdgeList.FormattedLineRoundTrip | PracticaFinalizada/GrafoDisperso.cpp:27-29 | a line written as "<src> <dst>", followed by nothing or by text that does not continue the number, is read back as the edge (src, dst) |
| EdgeList.NegativeSourceSkipped | PracticaFinalizada/GrafoDisperso.cpp:31 | a line whose source is a nonzero number written with a minus sign adds no edge |
| EdgeList.CommentSkipped | PracticaFinalizada/GrafoDisperso.cpp:25 | a line starting with '#' adds no edge, whatever follows |
| EdgeList.EdgeSetMembers | PracticaFinalizada/GrafoDisperso.cpp:23-40 | the edge set of a file holds exactly the accepted edges of its lines: a repeated pair is there once, and a skipped line adds nothing |
| EdgeList.MaxOf | PracticaFinalizada/GrafoDisperso.cpp:19-33 | the running maximum is -1 exactly when no edge was accepted; otherwise it bounds both endpoints of every edge and is an endpoint of some edge |
| EdgeList.MaxIdBounds | PracticaFinalizada/GrafoDisperso.cpp:33-46 | over a whole file: the largest id is -1 iff the file has no edges, bounds every endpoint, and is attained by some edge |
| Csr.SortedElementsListing | PracticaFinalizada/GrafoDisperso.cpp:68-69 | turning a node set into a vector and sorting it gives a strictly ascending listing of exactly that set |
| Csr.SortedListingUnique | PracticaFinalizada/GrafoDisperso.cpp:68-69 | a set has a single sorted listing, so the hash order of the set does not matter |
| Csr.SortedListingCard | PracticaFinalizada/GrafoDisperso.cpp:68-74 | a sorted listing is as long as the set it lists |
| Csr.SliceLength | PracticaFinalizada/GrafoDisperso.cpp:166 | under the CSR invariant, row_ptr[i+1] - row_ptr[i] is the number of distinct destinations of i |
| Csr.OffsetIsPrefixSum | PracticaFinalizada/GrafoDisperso.cpp:58-60 | under the CSR invariant, every offset is the sum of the out-degrees of the nodes before it |
| Csr.DegreesAddUpToEdges | PracticaFinalizada/GrafoDisperso.cpp:58-60 | under the CSR invariant, the out-degrees of all nodes add up to the number of edges |
| Csr.CsrEdgeCount | PracticaFinalizada/GrafoDisperso.cpp:49-75 | under the CSR invariant, valores holds one entry per edge, so row_ptr[num_nodos], num_aristas and the length of valores agree |
| Csr.CsrUnique | PracticaFinalizada/GrafoDisperso.cpp:52-75 | two CSR layouts of the same edge set over the same node count are equal: the built arrays depend only on the edges |
| Csr.BallLabelled | PracticaFinalizada/GrafoDisperso.cpp:133-143 | a distance labelling that is closed under edges gives every node within k hops a label of at most k |
| Csr.BallMonotone | PracticaFinalizada/GrafoDisperso.cpp:116-145 | the nodes within a hops are among those within b hops when a <= b |
| Traversal.QueuedStart | PracticaFinalizada/GrafoDisperso.cpp:106-112 | the start node at distance 0, every other node at -1, and a queue holding only the start: together they form a valid search state |
| Traversal.QueuedDeep | PracticaFinalizada/GrafoDisperso.cpp:120 | dequeuing a node already at the depth bound, without expanding it, keeps the state valid |
| Traversal.ScanStart | PracticaFinalizada/GrafoDisperso.cpp:117-133 | dequeuing a node below the depth bound starts a scan of its sorted neighbour slice, whose entries are all node ids |
| Traversal.ScanSeen | PracticaFinalizada/GrafoDisperso.cpp:139 | a neighbour that already has a distance is passed over |
| Traversal.ScanNew | PracticaFinalizada/GrafoDisperso.cpp:139-143 | an unreached neighbour gets the distance of the current node plus one and is appended to the queue and to the result, keeping the state valid |
| Traversal.FirstParent | PracticaFinalizada/GrafoDisperso.cpp:116-143 | an unreached neighbour of the node being scanned has no edge from any node before it in the result: those were all expanded earlier and would have reached it |
| Traversal.DiscNew | PracticaFinalizada/GrafoDisperso.cpp:139-143 | appending an unreached neighbour records the scanned node as its discoverer and keeps the discovery order |
| Traversal.DiscSeen | PracticaFinalizada/GrafoDisperso.cpp:139 | passing over a reached neighbour keeps the discovery order |
| Traversal.DiscOutcome | PracticaFinalizada/GrafoDisperso.cpp:116-145 | the recorded discoverers are the first in-neighbours of each node in the result, so the result is in discovery order |
| Traversal.DiscoveryOrderExample | PracticaFinalizada/GrafoDisperso.cpp:133-143 | on the edges 0->1 and 0->2, the discovery order admits [0, 1, 2] and rules out [0, 2, 1] |
| Traversal.LabelNew | PracticaFinalizada/GrafoDisperso.cpp:140-142 | labelling an unreached node with a label no smaller than any so far keeps the result distinct and the labels nondecreasing along it |
| Traversal.ScanDone | PracticaFinalizada/GrafoDisperso.cpp:133-144 | once all its neighbours are scanned, the node counts as expanded: each of its edges leads to a node labelled at most one deeper |
| Traversal.BfsOutcome | PracticaFinalizada/GrafoDisperso.cpp:116-145 | when the queue is empty, the result holds exactly the nodes within K hops, and is ordered by hop distance |
| Traversal.ZeroDepth | PracticaFinalizada/GrafoDisperso.cpp:110-120 | with depth bound 0 the result is exactly [start] |
| Grafos.GrafoDisperso.constructor | PracticaFinalizada/GrafoDisperso.h:17-25 | a new graph has no nodes and no edges, and every vector is empty; it satisfies the class invariant |
| Grafos.GrafoDisperso.GetNumNodos | PracticaFinalizada/GrafoDisperso.h:34 | the node count is 0 iff there are no edges; otherwise it is one more than the largest endpoint of an edge |
| Grafos.GrafoDisperso.GetNumAristas | PracticaFinalizada/GrafoDisperso.h:35 | the edge count is the number of distinct directed edges, and the length of valores |
| Grafos.GrafoDisperso.ObtenerGrado | PracticaFinalizada/GrafoDisperso.cpp:156-167 | 0 outside [0, num_nodos); otherwise the number of distinct destinations of the node |
| Grafos.GrafoDisperso.GetVecinos | PracticaFinalizada/GrafoDisperso.cpp:169-187 | [] outside [0, num_nodos); otherwise exactly the node's destinations, ascending and each once; its length is always obtenerGrado |
| Grafos.GrafoDisperso.GradosSumanAristas | PracticaFinalizada/GrafoDisperso.cpp:156-167 | obtenerGrado of each node is its number of distinct destinations, and these degrees add up to num_aristas |
| Grafos.GrafoDisperso.GetNodoMaxGrado | PracticaFinalizada/GrafoDisperso.cpp:197-214 | -1 iff the graph has no nodes; otherwise a node whose degree is at least every node's, and strictly greater than the degree of every smaller id (the first maximum) |
| Grafos.GrafoDisperso.Bfs | PracticaFinalizada/GrafoDisperso.cpp:86-154 | [] for an empty graph, an out-of-range start or a negative depth. Otherwise: the start first; no duplicates; exactly the nodes within profundidadMax directed hops; nearer nodes before farther ones; [start] alone at depth 0; and in discovery order: each node after the start comes after its first in-neighbour in the result, nodes are ordered by the position of that in-neighbour, and nodes sharing it are in ascending id |
| Grafos.GrafoDisperso.CargarDatos | PracticaFinalizada/GrafoDisperso.cpp:6-84 | fails with CannotOpen when the file cannot be opened, and with NoValidEdges when no line yields an edge, changing nothing in either case. Otherwise the graph is exactly the file's edge set, num_nodos is 1 + the largest endpoint and num_aristas the number of distinct edges, whatever was loaded before |
| Grafos.GrafoDisperso.ConstruirCsr | PracticaFinalizada/GrafoDisperso.cpp:48-75 | given the counts and the map from each source to its destinations, the fields become the CSR layout of the edges, and the class invariant holds |
| Grafos.LeerAristas | PracticaFinalizada/GrafoDisperso.cpp:16-40 | the reading loop ends with: max_nodo as the largest endpoint (or -1 iff there are no edges); count_aristas as the number of distinct accepted edges; and, for every source, the map entry as exactly its destinations |
| Grafos.LeidaSinArista | PracticaFinalizada/GrafoDisperso.cpp:25-31 | a skipped line leaves the map and both counters as they were |
| Grafos.LeidaConArista | PracticaFinalizada/GrafoDisperso.cpp:33-38 | an accepted line raises max_nodo to its larger endpoint and records the edge; count_aristas grows by one only when the destination was new for that source |
| Grafos.ConstruirRowPtr | PracticaFinalizada/GrafoDisperso.cpp:52-60 | row_ptr has num_nodos + 1 entries, starts at 0, never decreases, and steps by each node's out-degree |
| Grafos.LlenarValores | PracticaFinalizada/GrafoDisperso.cpp:54-75 | valores becomes the ascending destinations of each source, source by source, delimited by row_ptr, so the CSR invariant holds; column_indices equals valores |
| Grafos.Recorrer | PracticaFinalizada/GrafoDisperso.cpp:106-153 | the search over the CSR arrays: it starts with the start node, has no duplicates, holds exactly the nodes within K hops, is ordered by hop distance, is [start] when K == 0, and is in discovery order (ordered by the position of each node's first in-neighbour in the result, ties by ascending id) |
| Grafos.Desencolar | PracticaFinalizada/GrafoDisperso.cpp:117-131 | taking the head of the queue keeps the search state and the discovery order: a node at the depth bound is dropped unexpanded, otherwise its slice, which the range checks never reject, is scanned |
| Grafos.VisitarVecinos | PracticaFinalizada/GrafoDisperso.cpp:133-144 | scanning the slice of a dequeued node keeps the search state valid, marks the node as expanded, records it as the discoverer of every node it appends, and leaves the queue as the unexpanded suffix of the result |
| Grafos.EscanearVecinos | PracticaFinalizada/GrafoDisperso.cpp:133-144 | the loop over the slice: after it, every entry has been scanned, with the scan state and the discovery order kept at each turn |
| Grafos.VisitarVecino | PracticaFinalizada/GrafoDisperso.cpp:134-143 | one entry of the slice: the scan state and the discovery order advance by one entry, and the queue stays the unexpanded suffix of the result |
| Grafos.AgregarFila | PracticaFinalizada/GrafoDisperso.cpp:71-74 | pushing a source's sorted destinations appends exactly them to valores and to column_indices, which stay equal |

## Left out

- File input: `CargarDatos` takes the file's lines as `Option<seq<string>>`, with `None` for a file that cannot be opened. `ifstream`, `getline` and `close` are not modelled.
- EdgeList.ExtractInt: does not model the failure of `>> int` on a value outside the 32-bit `int` range. A number of any size is read as is.
- Grafos.GrafoDisperso.CargarDatos: does not model 32-bit overflow of `max_nodo + 1` or of `count_aristas`. Node ids and counts are unbounded integers.
- Logging to `std::cout`/`std::cerr` and timing with `std::chrono` are not modelled. They do not affect any result.
- `getMemoriaUsada` is not modelled. It divides `vector::capacity()`, which is implementation-defined, in floating point.
- Iteration order of `unordered_map`/`unordered_set` is not modelled. The loader's map is a `map<int, set<int>>`, and each set is listed in ascending order. `Csr.CsrUnique` shows that the built arrays do not depend on any order.
- Sorting: `std::sort` of each neighbour vector is modelled by `Csr.SortedElements`, which lists the set in ascending order directly.
- Update in place: `distancia`, the queue and the result of `BFS` are sequences that the search methods reassign, not vectors updated in place. No other code refers to them, so no aliasing is lost.
- The ghost field `Edges` has no C++ counterpart. It names the edge set the fields encode, so that contracts can speak of it.
- `GrafoBase.h` is an interface without behaviour and is not part of this model. Neither is the Python interface (`gui.py`, `setup.py`).
