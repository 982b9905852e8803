# Galois: the spin lock and sequential helpers of three applications

Galois runs amorphous data-parallel programs: workers take items from a
worklist and apply a user operator to them, and each graph element carries
a spin lock that detects conflicts between tasks running at the same time.
This project models four pieces of that code. Where the source uses
parallel loops, the model reads them as plain sequential loops.

- **SimpleLock** (`SimpleLock.dfy`): the per-object spin lock
  `SimpleLock<true>`. It is modelled as a class with one 32-bit word. Its
  invariant is that the word is 0 (free) or 1 (held). `TryLock` fails on a
  held lock and takes a free one by or-ing 1 into the word. `Lock` retries
  `TryLock` until it succeeds. `Unlock` needs a held lock and frees it. The
  class `NoOpLock` models `SimpleLock<false>`: `TryLock` always succeeds, and
  `Lock` and `Unlock` change nothing.
- **Miner** (`Miner.dfy`): helpers of the frequent-subgraph miner over a
  graph given as adjacency lists:
  - seeding the embedding queue with single-edge embeddings;
  - counting vertex degrees;
  - the degree-guided adjacency test and its "all but the last vertex"
    form;
  - the lower-triangle connectivity flags of an extended embedding;
  - filling a symmetric 0/1 adjacency matrix from those flags.

  Flag (i, j), for j < i, sits at position `Tri(i) + j` = i(i-1)/2 + j. The
  lemmas show that this layout is a bijection onto the first n(n-1)/2
  positions. For n >= 2 the flags built by `GetConnectivity` are exactly the
  layout that `GenAdjMatrix` reads for n + 1 vertices.
- **Delaunay** (`Delaunay.dfy`): three parts of the triangulation driver:
  - the `ends_with` suffix test;
  - the search for a free output name, with file existence as an oracle;
  - the operator's sequential logic: skip an element that has left the
    mesh, drop duplicate points from the back of its list, stop when the
    list empties, and otherwise push the new elements that still hold
    points, in order.
- **Filter** (`Filter.dfy`): `filterNode`. It returns the number of nodes
  whose attribute map sends `key` to `value`, and an array holding each of
  them exactly once. The array is null exactly when there is no match.

## Model

| member | source | states |
|---|---|---|
| `SimpleLock.SpinLock.constructor` | include/Galois/Runtime/ll/SimpleLock.h:49-50 | a new lock has word 0, so it is free |
| `SimpleLock.SpinLock.TryLock` | include/Galois/Runtime/ll/SimpleLock.h:71-76 | succeeds iff the lock was free; the lock is held afterwards; on a held lock the word is unchanged; the word stays 0 or 1 |
| `SimpleLock.SpinLock.Lock` | include/Galois/Runtime/ll/SimpleLock.h:52-62 | given a free lock, retries TryLock until it succeeds and returns with the word at 1 |
| `SimpleLock.SpinLock.Unlock` | include/Galois/Runtime/ll/SimpleLock.h:64-69 | requires a held lock (the source's assert) and leaves the word at 0 |
| `SimpleLock.NoOpLock.TryLock` | include/Galois/Runtime/ll/SimpleLock.h:84 | always returns true |
| `SimpleLock.NoOpLock.Lock` | include/Galois/Runtime/ll/SimpleLock.h:82 | changes nothing |
| `SimpleLock.NoOpLock.Unlock` | include/Galois/Runtime/ll/SimpleLock.h:83 | changes nothing |
| `Miner.Miner.IsConnected` | lonestar/include/Mining/miner.h:80-100 | true iff the list of `from` contains `to` when deg(from) < deg(to), and otherwise iff the list of `to` contains `from` |
| `Miner.ScanEdges` | lonestar/include/Mining/miner.h:83-89 | the scan-with-break loop finds the target iff the list contains it |
| `Miner.ScanConnectedIsAdjacency` | lonestar/include/Mining/miner.h:80-100 | on an undirected graph the test means "edge from -> to" (and "edge to -> from"), whatever the degrees |
| `Miner.Miner.IsAllConnected` | lonestar/include/Mining/miner.h:68-79 | requires a non-empty embedding (the unsigned n-1); true iff every vertex but the last passes the adjacency test with dst |
| `Miner.Miner.DegreeCounting` | lonestar/include/Mining/miner.h:59-67 | afterwards degrees has one entry per vertex, and entry v is the number of edges of v |
| `Miner.Miner.Init` | lonestar/include/Mining/miner.h:24-53 | queued entries stay in front; the new entries are, as a multiset, the seeds of the graph, in no fixed order |
| `Miner.SeedEmbeddingsCount` | lonestar/include/Mining/miner.h:31-46 | [s, d] is seeded once per edge s -> d with s < d; nothing else is seeded |
| `Miner.SeedEmbeddingsMembers` | lonestar/include/Mining/miner.h:31-46 | e is a seed iff e = [s, d] with s < d and an edge s -> d |
| `Miner.Miner.GenAdjMatrix` | lonestar/include/Mining/miner.h:101-106 | for j < i < n, flag i(i-1)/2 + j set means a[i,j] and a[j,i] are 1; otherwise they, the diagonal and entries outside n x n keep their values |
| `Miner.TriClosedForm` | lonestar/include/Mining/miner.h:102-105 | the counter l reaches i(i-1)/2 at the start of row i |
| `Miner.TriIndexBelow` | lonestar/include/Mining/miner.h:102-105 | every pair j < i < n reads a flag below n(n-1)/2 |
| `Miner.TriIndexInjective` | lonestar/include/Mining/miner.h:102-105 | no flag is read for two different pairs |
| `Miner.TriIndexOnto` | lonestar/include/Mining/miner.h:102-105 | every flag below n(n-1)/2 is read for some pair |
| `Miner.Miner.GetConnectivity` | lonestar/include/Mining/miner.h:143-156 | appends one leading true, then flag (i, j) at i(i-1)/2 + j for 2 <= i < n, then n flags for (n, j): true at idx, the adjacency of emb[j] and dst elsewhere; the old flags are kept |
| `Miner.Miner.PairRow` | lonestar/include/Mining/miner.h:146-149 | row i holds, for each j < i, the adjacency test of emb[i] and emb[j] |
| `Miner.Miner.ExtensionRow` | lonestar/include/Mining/miner.h:150-155 | n flags: true at idx, otherwise the adjacency test of emb[j] and dst |
| `Delaunay.EndsWith` | apps/delaunaytriangulation/DelaunayTriangulation.cpp:234-241 | true iff str is some prefix followed by end, which is false whenever end is longer |
| `Delaunay.Decimal` | apps/delaunaytriangulation/DelaunayTriangulation.cpp:249-254 | the text `%d` writes for a non-negative number: non-empty and made only of the digits 0-9 (DecimalRoundTrip shows it names the number) |
| `Delaunay.DecimalRoundTrip` | apps/delaunaytriangulation/DelaunayTriangulation.cpp:249 | the decimal text of i reads back as i |
| `Delaunay.OutputNameInjective` | apps/delaunaytriangulation/DelaunayTriangulation.cpp:254-256 | different numbers give different output names, so the name names the chosen number |
| `Delaunay.GenName` | apps/delaunaytriangulation/DelaunayTriangulation.cpp:243-263 | requires a ".node" name; returns stem + "." + i for the least i in 1..15 whose stem.i.node is absent, so that file is free; returns None (the source aborts) iff all fifteen exist |
| `Delaunay.Element.TrimTuples` | apps/delaunaytriangulation/DelaunayTriangulation.cpp:46-59 | the list becomes Trimmed of the old list |
| `Delaunay.TrimmedSpec` | apps/delaunaytriangulation/DelaunayTriangulation.cpp:46-59 | the result is a prefix of the list; every removed tuple equals a point of the element; the result is empty or ends in a non-point |
| `Delaunay.PushRefinable` | apps/delaunaytriangulation/DelaunayTriangulation.cpp:69-75 | pushes the new elements that hold tuples, in iteration order |
| `Delaunay.RefinableCount` | apps/delaunaytriangulation/DelaunayTriangulation.cpp:69-75 | an element with tuples is pushed as often as it occurs; one without tuples is never pushed |
| `Delaunay.RefinableMembers` | apps/delaunaytriangulation/DelaunayTriangulation.cpp:69-75 | x is pushed iff x is a new element with a non-empty list |
| `Delaunay.Process` | apps/delaunaytriangulation/DelaunayTriangulation.cpp:39-76 | an element outside the mesh is untouched and nothing is pushed; otherwise its list is trimmed; the cavity is built iff points remain; pushes happen only then |
| `Filter.CollectMatches` | exp/apps/python/Filter.cpp:12-22 | collects each node whose map has key mapped to value exactly once, and nothing else; the count is the number of matching nodes |
| `Filter.FilterNode` | exp/apps/python/Filter.cpp:5-37 | num is the number of matching nodes; the array is null iff num = 0; otherwise it is newly allocated (the caller owns and frees it), has length num and holds every matching node once and nothing else |

## Left out

- The atomic `__sync_fetch_and_or`, the `pause` spin and the compiler memory barriers of the spin lock. Each operation is one state change; concurrency is not modelled.
- SimpleLock.SpinLock.Lock: requires a free lock. Run sequentially, a held lock would never be released, so the spin on a non-zero word is not modelled.
- `LockPairOrdered`, `TryLockPairOrdered` and `UnLockPairOrdered`: the header only declares them; their bodies are not part of this model.
- `trace`, `product` and `char_polynomial` in the miner: floating-point matrix algebra.
- Vertex labels (the `ENABLE_LABEL` build) and the `show` trace printing in `init`.
- Miner.Miner.GenAdjMatrix: the matrix is a rectangular `array2<real>`. The source's vector of vectors could have rows of different lengths.
- Miner.Miner.GetConnectivity: its two flag loops sit in the helpers PairRow and ExtensionRow. The flags and their order are those of the source.
- Miner.Miner.constructor: the source sets the graph pointer elsewhere; here the constructor takes the graph.
- The scheduling options of `do_all`, `do_all_local` and `for_each` (chunk size, stealing, per-socket worklists). Where the runtime fixes no order, the contracts promise none, except for Filter.CollectMatches (next line).
- Filter.CollectMatches: the parallel `do_all_local` into an `InsertBag` is modelled as one sequential pass in node order, so its bag comes out in increasing node order. The runtime's bag fixes no order; only FilterNode's contract, which promises no order, describes what callers see.
- Statistics: `StatTimer`, `StatManager` and `reportStat`.
- `read_points`, `write_points`, `write_mesh`, `make_graph` and `main`: file I/O, double-precision arithmetic and argument handling.
- `Cavity` (build and update), `Verifier`, and the internals of `Element` and `Tuple` are not part of this model. Points are an abstract type compared for equality. The elements that `cav.update` creates are a parameter of Delaunay.Process. Whether the element is still in the mesh is a boolean input. The lock that `getData(ALL)` takes is not modelled.
- Delaunay.Process: when the cavity is built, the tuple list it ensures is the list as `Cavity` receives it. Any change that `build` or `update` makes to the element afterwards is not modelled.
- The `access()` system call in `gen_name`: replaced by the oracle `fileExists`.
- Delaunay.GenName: returns None where the source prints an error and aborts.
- Delaunay.EndsWith: strings are Dafny strings. The C strings' terminating NUL and `strlen` are not modelled.
- Filter.FilterNode: `num` is an unbounded count; the source's `int` overflow is not modelled. Graph nodes are named by their position in node order.
- `deleteNodeList`: it only frees memory.
- The concurrency internals of `InsertBag`.
- The worklist, iteration arena, graph store and execution engine are not among the modelled files.
