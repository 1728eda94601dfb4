# AU algorithms, modelled in Dafny

This project models the C# library AU, a collection of textbook algorithms, and proves
properties of that model. The library covers:

- **Graphs.** A graph contract `IGraph` with two representations: an adjacency matrix
  with weight dictionaries, and adjacency lists.
- **Shortest paths.** Edge relaxation (`GraphExtension.Relax`), `Dijkstra.Compute`,
  `BellmanFord.Compute` and `FindNegativeWeightCycle`.
- **DAG algorithms.** `TopologicalSort` and the DAG shortest-path procedure.
- **A binary min-heap** (`PriorityQueue`).
- **Sorts.** Selection, insertion, bubble, merge, quick, heap and counting sort, and
  `ReallySimpleSort` for ones and twos.
- **Searches.** Linear (three variants), recursive linear, and iterative and recursive
  binary search, with a 32-bit factorial.
- **String algorithms.** The LCS table and its read-back, the transformation (edit)
  table and its script, the naive matcher, and the finite-automaton matcher.
- **Cryptography.** Shift, substitution and one-time-pad ciphers; RSA; extended Euclid;
  modular exponentiation; a naive primality test; and the sieve of Eratosthenes.

Most C# files become one Dafny module named after their class (`RSA.cs` becomes `Rsa`,
`Matching.cs` becomes `Matchings`). `Sorting.cs` is split into five modules: `Sorts`
(selection, insertion and bubble sort), `MergeSorts`, `QuickSorts`, `HeapSorts` and
`CountingSorts`. Some modules correspond to no C# file and hold the specification
functions, lemmas and result types the others share: `Wrappers`, `Arithmetic`, `Primes`,
`Fermat`, `Collections`, `ShortestPaths`, `NegativeCycles`, `DagPaths` and `InDegrees`.
The flavour follows the code:

- Classes whose methods update fields become Dafny classes with `modifies` frames:
  `AdjacencyMatrix`, `AdjacencyList`, `GraphExtension`, `PriorityQueue`, `Dijkstra`,
  `BellmanFord`, `DagAlgorithms`, `Transformation`, `RSA` and `Pad`.
- In-place array algorithms keep their arrays.
- Expression-only code becomes functions.
- Each looping method is proved against a specification function.
- The properties the library promises are lemmas about those functions.

Generic element types are specialised to `int`. Edge weights and distances, which are
`double` in C#, are integers, with `Inf` standing for positive infinity.

Where the library's documentation and its code disagree, the model follows the code:

- **Dijkstra.Compute.** The documentation calls it Dijkstra's algorithm. The code's
  priority queue orders the vertex ids themselves, not their distances. `ExtractMin`
  therefore yields 0, 1, …, N-1, and `DecreaseKey` finds the heap already valid and
  changes nothing. `Compute` is one relaxation pass in ascending vertex order, which is
  what the model states. `AscendingPassMissesDetour` exhibits a reachable vertex left at
  infinity.
- **BellmanFord.Compute.** The documentation promises |V|-1 relaxation passes. The code
  makes one pass.
- **FindNegativeWeightCycle.** The documentation says it reports a negative-weight cycle
  or an empty list. The code can throw when it casts a null predecessor, even on an
  acyclic graph (`OnePassThrowsOnChain`). When it does report a cycle after `Compute`,
  the model proves that cycle negative (`FoundCycleIsNegative`).
- **The matrix indexer.** It ignores its vertex argument and yields every set column of
  every row. As a result, `TopologicalSort` counts in-degree squared on a matrix
  (`InDegrees.MatrixCounted`) and emits the whole order only when those counts equal the
  true in-degrees.
- **Missing weights.** The documentation says a weight query for a pair never added
  returns null. In the code, the matrix's dictionary lookup throws. The model gives the
  lookup a `KeyNotFound` error; relaxation requires `RelaxSafe`, meaning no such throw.
- **PriorityQueue.ExtractMin.** Its empty-queue guard is `Count < 0`, which never
  fires. On an empty queue the read of `data[0]` throws instead.

## Model

| member | source | states |
|---|---|---|
| Graphs.Graph.Vertices | AU/GraphTheory/Graph/AdjacencyMatrix.cs:23-29 | The vertices are 0 … N-1 in ascending order; v is listed exactly when 0 <= v < N |
| Graphs.Graph.Adj | AU/GraphTheory/Graph/IGraph.cs:31 | Every vertex the indexer yields is a vertex of the graph; on lists u must be a vertex, while the matrix indexer accepts any u |
| Graphs.Graph.Added | AU/GraphTheory/Graph/IGraph.cs:39 | Add leaves a well-formed graph of the same representation and the same N |
| Graphs.Graph.Removed | AU/GraphTheory/Graph/IGraph.cs:45 | Remove leaves a well-formed graph of the same representation and the same N |
| Graphs.FirstIndex | AU/GraphTheory/Graph/AjacencyList.cs:65-74 | List.IndexOf for a present x: the first position holding x |
| Graphs.RemoveFirst | AU/GraphTheory/Graph/AjacencyList.cs:65-74 | List.Remove drops exactly the first occurrence: the multiset loses one x, the order of the rest is kept, an absent x changes nothing |
| Graphs.RowTargets | AU/GraphTheory/Graph/AdjacencyMatrix.cs:31-40 | The set columns of one matrix row, ascending: v is listed exactly when cell (u, v) is set |
| Graphs.TargetsContain | AU/GraphTheory/Graph/AdjacencyMatrix.cs:31-40 | Every set cell of the rows scanned so far is among the indexer's targets |
| Graphs.TargetsCount | AU/GraphTheory/Graph/AdjacencyMatrix.cs:31-40 | Column v occurs in the matrix indexer's output once per row that has cell (·, v) set |
| Graphs.MatrixIndexer | AU/GraphTheory/Graph/AdjacencyMatrix.cs:31-40 | Whatever vertex is asked about, v occurs in the matrix indexer's output as often as v's in-degree |
| Graphs.AddedQueries | AU/GraphTheory/Graph/AdjacencyMatrix.cs:60-69 | Add of an out-of-range pair changes nothing; in range, Exists(u, v) holds, Weight(u, v) is w, M grows by one, and every other pair answers as before (both representations) |
| Graphs.RemovedQueries | AU/GraphTheory/Graph/AdjacencyMatrix.cs:71-80 | Remove of an out-of-range pair changes nothing; in range, the weight becomes null and M drops by one; on a matrix Exists(u, v) is false, on lists it stays true exactly when v was listed twice; other pairs answer as before |
| Graphs.ListDuplicateSurvivesRemove | AU/GraphTheory/Graph/AjacencyList.cs:54-74 | On lists, adding (u, v) twice and removing it once leaves Exists(u, v) true while the weight is null |
| Graphs.MatrixCounterDrifts | AU/GraphTheory/Graph/AdjacencyMatrix.cs:60-80 | On a matrix M counts calls, not set cells: adding a pair that is already set raises M and changes no cell; removing a pair that is not set lowers M and changes no cell |
| Graphs.EmptyGraphs | AU/GraphTheory/Graph/AdjacencyMatrix.cs:46-58 | A new graph of either representation is well formed with N vertices, M = 0, no pair that Exists, every in-range weight lookup failing with KeyNotFound, and an indexer that yields nothing |
| Graphs.EmptyMatrixGraph | AU/GraphTheory/Graph/AdjacencyMatrix.cs:46-58 | The same facts for a new matrix graph: no edge, M = 0, every in-range lookup KeyNotFound, nothing yielded |
| Graphs.EmptyListGraph | AU/GraphTheory/Graph/AjacencyList.cs:40-52 | The same facts for a new list graph: no edge, M = 0, every in-range lookup KeyNotFound, every list empty |
| Matrices.AdjacencyMatrix.constructor | AU/GraphTheory/Graph/AdjacencyMatrix.cs:46-58 | The object's abstract graph is the empty N-vertex matrix graph |
| Matrices.AdjacencyMatrix.Add | AU/GraphTheory/Graph/AdjacencyMatrix.cs:60-69 | The abstract graph after Add is Added of the one before (see AddedQueries) |
| Matrices.AdjacencyMatrix.Remove | AU/GraphTheory/Graph/AdjacencyMatrix.cs:71-80 | The abstract graph after Remove is Removed of the one before (see RemovedQueries) |
| Lists.AdjacencyList.constructor | AU/GraphTheory/Graph/AjacencyList.cs:40-52 | The object's abstract graph is the empty N-vertex list graph |
| Lists.AdjacencyList.Add | AU/GraphTheory/Graph/AjacencyList.cs:54-63 | The abstract graph after Add is Added of the one before |
| Lists.AdjacencyList.Remove | AU/GraphTheory/Graph/AjacencyList.cs:65-74 | The abstract graph after Remove is Removed of the one before |
| Relaxation.Relaxed | AU/GraphTheory/Graph/GraphExtenstion.cs:22-31 | Relax(u, v) changes only Shortest[v] and Predecessors[v]; the new Shortest[v] is at most the old one and at most Shortest[u] + w(u, v); when it changes, Predecessors[v] becomes u; an unchanged distance means unchanged arrays |
| Relaxation.GraphExtension.Relax | AU/GraphTheory/Graph/GraphExtenstion.cs:22-31 | The arrays after the call are Relaxed of the arrays before |
| Relaxation.GraphExtension.Initialize | AU/GraphTheory/ShortestPath/BellmanFord.cs:45-54 | Fresh arrays: every distance infinite and every predecessor null, except Shortest[source] = 0 |
| Relaxation.ExistingTargets | AU/GraphTheory/Dag/DagAlgorithms.cs:107-109 | The vertices v below k with Exists(u, v), ascending, and exactly those |
| Relaxation.ExistingAlong | AU/GraphTheory/Dag/DagAlgorithms.cs:107-109 | Relaxing every v with Exists(u, v), vertex by vertex, is relaxing along ExistingTargets |
| Relaxation.PassStep | AU/GraphTheory/ShortestPath/BellmanFord.cs:56-58 | The pass over the vertices up to k+1 is the pass up to k followed by relaxing the indexer's targets of k in order |
| Relaxation.ListRelaxSafe | AU/GraphTheory/Graph/AjacencyList.cs:31-34 | On lists every pair the indexer yields has a weight, so relaxation never throws |
| ShortestPaths.InitialJustified | AU/GraphTheory/ShortestPath/BellmanFord.cs:45-54 | The initial arrays are justified: every finite distance is the weight of a walk from the source, and every predecessor link is a weighted edge |
| ShortestPaths.RelaxedJustified | AU/GraphTheory/Graph/GraphExtenstion.cs:22-31 | Relax keeps the arrays justified: finite distances stay walk weights, and each predecessor link p -> v is an edge with Shortest[v] >= Shortest[p] + w(p, v) |
| ShortestPaths.SinglePassJustified | AU/GraphTheory/ShortestPath/BellmanFord.cs:43-59 | The arrays after Compute are justified on every graph whose weight lookups do not throw |
| ShortestPaths.RelaxOrderJustified | AU/GraphTheory/Dag/DagAlgorithms.cs:90-111 | Relaxing the existing edges out of each vertex of any order keeps the arrays justified |
| ShortestPaths.BatchRelax | AU/GraphTheory/Graph/GraphExtenstion.cs:22-31 | Relaxing the edges out of u one at a time equals relaxing them at once, when u has no negative self-loop: neither their order nor repeats matter |
| NegativeCycles.InitialCyclesStrict | AU/GraphTheory/ShortestPath/BellmanFord.cs:45-54 | The initial arrays satisfy the strict-cycle invariant (every predecessor cycle has a link with positive slack), having no predecessor links at all |
| NegativeCycles.RelaxedCyclesStrict | AU/GraphTheory/Graph/GraphExtenstion.cs:22-31 | Relax on justified arrays keeps the strict-cycle invariant: every predecessor cycle still has a link with positive slack |
| NegativeCycles.PredCycleNegative | AU/GraphTheory/ShortestPath/BellmanFord.cs:80-93 | In justified arrays where every predecessor cycle has a slack link, a predecessor cycle weighs less than zero |
| NegativeCycles.SinglePassCyclesNegative | AU/GraphTheory/ShortestPath/BellmanFord.cs:43-59 | After Compute, every cycle of predecessor links has negative total weight |
| PriorityQueues.Swap | AU/Lib/PriorityQueue.cs:33-35 | Exchanging two positions keeps the multiset and the other positions |
| PriorityQueues.AppendedHeap | AU/Lib/PriorityQueue.cs:18 | Appending to a heap breaks the heap order only above the new last position |
| PriorityQueues.SiftUpStep | AU/Lib/PriorityQueue.cs:21-38 | Swapping a position with its larger parent moves the only defect one level up |
| PriorityQueues.RootReplaced | AU/Lib/PriorityQueue.cs:48-50 | Moving the last element to the root and dropping the last place leaves a defect only at the root |
| PriorityQueues.SiftDownStep | AU/Lib/PriorityQueue.cs:94-99 | Swapping a position with its smaller child moves the only defect to that child |
| PriorityQueues.HeapRootIsMin | AU/Lib/PriorityQueue.cs:55-58 | The root of a heap is at most every element |
| PriorityQueues.PriorityQueue.constructor | AU/Lib/PriorityQueue.cs:14 | A new queue is empty |
| PriorityQueues.PriorityQueue.Insert | AU/Lib/PriorityQueue.cs:16-39 | The list stays a heap, gains exactly one o, and Count grows by one |
| PriorityQueues.PriorityQueue.ExtractMin | AU/Lib/PriorityQueue.cs:41-53 | Returns an element of the queue that is at most all others, removes exactly one copy of it, and keeps the heap order |
| PriorityQueues.PriorityQueue.LastToRoot | AU/Lib/PriorityQueue.cs:48-50 | Moving the last element to the root and dropping the last place removes exactly one copy of the root |
| PriorityQueues.PriorityQueue.Peek | AU/Lib/PriorityQueue.cs:55-58 | Returns an element of the queue that is at most all others |
| PriorityQueues.PriorityQueue.DecreaseKey | AU/Lib/PriorityQueue.cs:69-72 | On a valid heap, sifting down from any index changes nothing |
| PriorityQueues.PriorityQueue.MinHeapify | AU/Lib/PriorityQueue.cs:74-101 | With a defect only at i, the list becomes a heap, is a permutation of the old one, changes only inside the subtree of i, and is left alone when it is already a heap |
| Dijkstras.Dijkstra.constructor | AU/GraphTheory/ShortestPath/Dijkstra.cs:26-29 | The object owns a fresh GraphExtension |
| Dijkstras.Dijkstra.Compute | AU/GraphTheory/ShortestPath/Dijkstra.cs:46-79 | Fresh arrays equal to one relaxation pass over the vertices in ascending order, from the initial arrays |
| Dijkstras.Dijkstra.InsertAll | AU/GraphTheory/ShortestPath/Dijkstra.cs:61-62 | The queue holds exactly the given vertices, as a heap |
| Dijkstras.Dijkstra.DrainQueue | AU/GraphTheory/ShortestPath/Dijkstra.cs:64-78 | Emptying the queue completes the ascending pass |
| Dijkstras.Dijkstra.VisitNext | AU/GraphTheory/ShortestPath/Dijkstra.cs:66-77 | One round extracts vertex k, the smallest queued id, and extends the pass by the edges out of k |
| Dijkstras.Dijkstra.RelaxEdgesOf | AU/GraphTheory/ShortestPath/Dijkstra.cs:69-77 | Relaxes along the indexer's targets of u in order; the DecreaseKey calls leave the queue as it was |
| Dijkstras.QueueStep | AU/GraphTheory/ShortestPath/Dijkstra.cs:66 | When the queue holds exactly k … N-1, ExtractMin yields k and leaves k+1 … N-1 |
| Dijkstras.AscendingPassMissesDetour | AU/GraphTheory/ShortestPath/Dijkstra.cs:46-79 | On edges 1->2, 2->0, 0->3 of weight 1, from source 1, vertex 3 stays at infinity although a walk of weight 3 reaches it |
| Dijkstras.RepresentationsAgree | AU/GraphTheory/ShortestPath/Dijkstra.cs:46-79 | A list graph and a matrix graph that weigh every pair alike give the same pass, when no vertex has a negative self-loop |
| BellmanFords.BellmanFord.constructor | AU/GraphTheory/ShortestPath/BellmanFord.cs:26-29 | The object owns a fresh GraphExtension |
| BellmanFords.BellmanFord.Compute | AU/GraphTheory/ShortestPath/BellmanFord.cs:43-59 | Fresh arrays equal to one relaxation pass over the vertices in ascending order, from the initial arrays |
| BellmanFords.BellmanFord.RelaxAllEdges | AU/GraphTheory/ShortestPath/BellmanFord.cs:56-58 | From the initial arrays, the nested loops produce the whole pass |
| BellmanFords.BellmanFord.RelaxEdgesOf | AU/GraphTheory/ShortestPath/BellmanFord.cs:57-58 | Relaxes along the indexer's targets of u in order, every one of them relaxable |
| BellmanFords.BellmanFord.RelaxNext | AU/GraphTheory/ShortestPath/BellmanFord.cs:58 | One more target of u is relaxed |
| BellmanFords.BellmanFord.FindNegativeWeightCycle | AU/GraphTheory/ShortestPath/BellmanFord.cs:71-101 | The empty list exactly when no edge can be relaxed further. Otherwise: a list of distinct vertices, each the predecessor of the next and the last the predecessor of the first; or WeightNotFound, only when some lookup throws; or NullPredecessor, only when an improvable edge's predecessor chain reaches null |
| BellmanFords.BellmanFord.ScanEdgesOf | AU/GraphTheory/ShortestPath/BellmanFord.cs:74-95 | The scan of u's targets finds the first edge that can still be relaxed, or reports every one settled |
| BellmanFords.BellmanFord.TraceCycle | AU/GraphTheory/ShortestPath/BellmanFord.cs:77-94 | Walking predecessors from v until a vertex repeats either reaches null or returns the predecessor cycle through the repeated vertex |
| BellmanFords.BellmanFord.CollectCycle | AU/GraphTheory/ShortestPath/BellmanFord.cs:86-93 | Reading predecessors back from x until x returns gives the cycle, front-inserted, ending at x |
| BellmanFords.ReversedCycle | AU/GraphTheory/ShortestPath/BellmanFord.cs:88-93 | The front-inserted list is a cycle of predecessor links with distinct vertices |
| BellmanFords.FoundCycleIsNegative | AU/GraphTheory/ShortestPath/BellmanFord.cs:43-101 | A cycle reported after Compute has negative total weight |
| BellmanFords.OnePassThrowsOnChain | AU/GraphTheory/ShortestPath/BellmanFord.cs:71-101 | On the acyclic chain 2->0->1 from source 2, the one pass leaves edge 0->1 improvable and the search throws NullPredecessor |
| BellmanFords.ChainPass | AU/GraphTheory/ShortestPath/BellmanFord.cs:43-59 | The arrays one pass leaves on that chain |
| InDegrees.CountedAtLeast | AU/GraphTheory/Dag/DagAlgorithms.cs:48-53 | The counting loop never counts less than v's true in-degree |
| InDegrees.MatrixCounted | AU/GraphTheory/Dag/DagAlgorithms.cs:48-53 | On a matrix the counting loop gives the in-degree squared |
| InDegrees.ListCounted | AU/GraphTheory/Dag/DagAlgorithms.cs:48-53 | On lists without repeated targets the counting loop gives the true in-degree |
| Dags.BumpedCounts | AU/GraphTheory/Dag/DagAlgorithms.cs:49-53 | Counting the targets of u adds to v's count, for an existing edge (u, v), the number of times v is listed |
| Dags.DagAlgorithms.constructor | AU/GraphTheory/Dag/DagAlgorithms.cs:26-29 | The object owns a fresh GraphExtension |
| Dags.DagAlgorithms.CountInDegrees | AU/GraphTheory/Dag/DagAlgorithms.cs:48-53 | From zeros, the in-degree array ends holding the counted in-degree of every vertex |
| Dags.DagAlgorithms.CountRow | AU/GraphTheory/Dag/DagAlgorithms.cs:49-53 | One outer turn of the counting loop: the counts grow from the rows below u to the rows up to u |
| Dags.DagAlgorithms.ZeroScan | AU/GraphTheory/Dag/DagAlgorithms.cs:55-59 | The stack holds distinct vertices without predecessors whose count is true, and every vertex left off it has a non-zero count |
| Dags.DagAlgorithms.Release | AU/GraphTheory/Dag/DagAlgorithms.cs:66-73 | After u is emitted, every count is the counted in-degree less the emitted predecessors, and a vertex whose count reaches zero is stacked unless already emitted or stacked |
| Dags.DagAlgorithms.ReleaseOne | AU/GraphTheory/Dag/DagAlgorithms.cs:68-72 | One turn of the release loop: v's count drops for an edge (u, v), and v is stacked if its count reaches zero and it is neither emitted nor stacked |
| Dags.DagAlgorithms.Emit | AU/GraphTheory/Dag/DagAlgorithms.cs:61-74 | Pops the top of the stack onto the output and keeps the loop invariant: output and stack distinct; each emitted vertex after its predecessors; each stacked vertex with all predecessors emitted; each count the counted in-degree less emitted predecessors; every other vertex with a non-zero count |
| Dags.DagAlgorithms.TopologicalSort | AU/GraphTheory/Dag/DagAlgorithms.cs:39-77 | At most N distinct vertices, each after all of its predecessors, each with a counted in-degree equal to its true in-degree; on an acyclic graph whose counts are the true in-degrees, every vertex is emitted |
| Dags.AllEmitted | AU/GraphTheory/Dag/DagAlgorithms.cs:61-74 | When the stack is empty, on an acyclic graph whose counts are the true in-degrees, every vertex has been emitted |
| Dags.PopKeepsDistinct | AU/GraphTheory/Dag/DagAlgorithms.cs:63-64 | Popping a stacked vertex onto the output keeps output and stack distinct and disjoint |
| Dags.DagAlgorithms.ShortestPath | AU/GraphTheory/Dag/DagAlgorithms.cs:90-111 | Fresh arrays that are always justified; on an acyclic graph whose counts are the true in-degrees, they are the shortest-walk distances from the source, unreachable vertices at infinity without predecessor, every predecessor link the last edge of a lightest walk |
| Dags.DagAlgorithms.RelaxTargets | AU/GraphTheory/Dag/DagAlgorithms.cs:107-109 | Relaxes every existing edge out of u, target by target |
| Dags.DagAlgorithms.RelaxIfEdge | AU/GraphTheory/Dag/DagAlgorithms.cs:108-109 | Relaxes (u, v) exactly when the edge exists |
| DagPaths.RelaxAlongLowers | AU/GraphTheory/Graph/GraphExtenstion.cs:22-31 | Relaxation never raises a distance |
| DagPaths.EdgeRelaxed | AU/GraphTheory/Dag/DagAlgorithms.cs:105-110 | After relaxing in a topological order, every weighted edge (x, v) satisfies Shortest[v] <= Shortest[x] + w(x, v) |
| DagPaths.RelaxOrderBoundsWalks | AU/GraphTheory/Dag/DagAlgorithms.cs:105-110 | After the relaxation in topological order, every walk from the source weighs at least its target's distance |
| DagPaths.LinksTight | AU/GraphTheory/Dag/DagAlgorithms.cs:105-110 | In justified arrays that bound every walk from the source, each predecessor link satisfies Shortest[v] = Shortest[p] + w(p, v) |
| DagPaths.DagShortestPaths | AU/GraphTheory/Dag/DagAlgorithms.cs:90-111 | Relaxing in topological order from the initial arrays gives exactly the shortest-walk distances from the source |
| Sorts.Swap | AU/Sorting/Sorting.cs:339-344 | Exchanges two array slots and nothing else |
| Sorts.MinIndex | AU/Sorting/Sorting.cs:22-27 | The first index of a smallest element of a[i .. size) |
| Sorts.Selection | AU/Sorting/Sorting.cs:16-30 | a[0 .. size) ends sorted and is a permutation of what it held; slots from size on are untouched |
| Sorts.Selected | AU/Sorting/Sorting.cs:28 | Swapping the minimum into slot i extends the sorted, smallest-first prefix |
| Sorts.InsertStep | AU/Sorting/Sorting.cs:44-53 | Inserting a[i] into the sorted prefix makes a[0 .. i] sorted, permutes the array and leaves the slots after i untouched |
| Sorts.ShiftUp | AU/Sorting/Sorting.cs:47-51 | The shifting loop moves every larger element one slot up, leaving the hole where key belongs |
| Sorts.Inserted | AU/Sorting/Sorting.cs:53 | Writing key into the hole left by the shifts gives a sorted prefix a[0 .. i] and a permutation of the array before |
| Sorts.InsertedPermutation | AU/Sorting/Sorting.cs:47-53 | The shifted prefix with key written into the hole is a permutation of the prefix before |
| Sorts.Insertion | AU/Sorting/Sorting.cs:37-55 | a[0 .. size) ends sorted and is a permutation of what it held; slots from size on are untouched |
| Sorts.PassCompare | AU/Sorting/Sorting.cs:75-79 | One comparison keeps the pass state: the part above the boundary stays settled, the current slot holds a maximum of the slots before it, and the prefix is sorted while no swap is recorded; a recorded swap stays recorded |
| Sorts.BubblePass | AU/Sorting/Sorting.cs:73-80 | One pass settles one more element at the top of the range; a pass without a swap means the whole range is sorted; a swap happens only while j < size; the array is permuted only within the range |
| Sorts.Bubble | AU/Sorting/Sorting.cs:64-82 | a[0 .. size) ends sorted and is a permutation of what it held; slots from size on are untouched |
| MergeSorts.CopyRange | AU/Sorting/Sorting.cs:122-133 | The fresh array holds the range followed by the infinity sentinel |
| MergeSorts.Merg | AU/Sorting/Sorting.cs:114-151 | With both halves sorted, a[p .. r] becomes sorted and a permutation of what it held; the rest of the array is unchanged |
| MergeSorts.MergeOne | AU/Sorting/Sorting.cs:140-149 | One step takes the smaller head, so the written part stays the sorted merge of what was taken |
| MergeSorts.MergSort | AU/Sorting/Sorting.cs:93-104 | a[p .. r] ends sorted and is a permutation of what it held; the rest of the array is unchanged |
| QuickSorts.Partition | AU/Sorting/Sorting.cs:178-191 | The pivot a[r-1] ends at the returned index q; everything before it is at most the pivot, everything after it larger; the range is permuted and the rest unchanged |
| QuickSorts.ScanOne | AU/Sorting/Sorting.cs:183-188 | One scan step keeps the elements at most the pivot in front of those larger |
| QuickSorts.Quick | AU/Sorting/Sorting.cs:158-166 | a[p .. r) ends sorted and is a permutation of what it held; the rest of the array is unchanged |
| QuickSorts.PartsSorted | AU/Sorting/Sorting.cs:162-165 | Two sorted parts around a correctly placed pivot form a sorted range |
| HeapSorts.HeapSort | AU/Sorting/Sorting.cs:323-334 | The output b is sorted; b and the queue together hold the old queue plus every element of a; every output element is at most what stays queued |
| HeapSorts.WholeArraySorted | AU/Sorting/Sorting.cs:323-334 | When the output is as long as the input and together with what stays queued holds exactly the input, nothing stays queued and the output is a permutation of the input |
| CountingSorts.CountOnes | AU/Sorting/Sorting.cs:201-206 | The number of ones in a[0 .. size) |
| CountingSorts.ReallySimpleSortAsWritten | AU/Sorting/Sorting.cs:199-217 | As written: fails exactly when the count of ones equals the array length; otherwise writes one more 1 than counted, overwriting a 2 or the slot after the range |
| CountingSorts.WriteOnesAsWritten | AU/Sorting/Sorting.cs:208-211 | The `i <= k` loop writes ones at 0 … k and fails on the write past the end |
| CountingSorts.WriteTwos | AU/Sorting/Sorting.cs:213-216 | Writes twos at from … size-1 and nothing else |
| CountingSorts.ReallySimpleSort | AU/Sorting/Sorting.cs:199-217 | Corrected: the range becomes its count of ones followed by twos; the rest of the array is untouched |
| CountingSorts.ReallySimpleSortSorts | AU/Sorting/Sorting.cs:199-217 | For a range of ones and twos, the corrected result is sorted and a permutation of it |
| CountingSorts.AsWrittenLosesATwo | AU/Sorting/Sorting.cs:208-211 | As written, a range holding a 2 ends with one 1 too many and one 2 too few |
| CountingSorts.AsWrittenExample | AU/Sorting/Sorting.cs:208-211 | As written, [2] becomes [1] |
| CountingSorts.CountKeysEqual | AU/Sorting/Sorting.cs:251-262 | equal[j] is the number of keys equal to j |
| CountingSorts.CountKeysLess | AU/Sorting/Sorting.cs:273-282 | less[j] = equal[0] + … + equal[j-1]: with equal holding the counts, the number of keys smaller than j |
| CountingSorts.Put | AU/Sorting/Sorting.cs:305-308 | Writes key at index next[key]-1 and advances next[key] |
| CountingSorts.RearrangeStep | AU/Sorting/Sorting.cs:303-309 | Key i lands at its place, and next keeps counting the copies placed |
| CountingSorts.Rearrange | AU/Sorting/Sorting.cs:290-311 | Every key is written at its place; the output is each value repeated as often as it occurs, ascending |
| CountingSorts.PlacesOrdered | AU/Sorting/Sorting.cs:290-311 | A smaller key goes to a smaller index, and of equal keys the earlier goes first (stability) |
| CountingSorts.CountingSortCorrect | AU/Sorting/Sorting.cs:233-240 | The output has the range's length, is sorted, is a permutation, and holds every key at its place |
| CountingSorts.Count | AU/Sorting/Sorting.cs:233-240 | Returns a fresh array, sorted, a permutation of a[0 .. size), every key at its stable place |
| Searches.NotFound | AU/Searching/Searching.cs:144-147 | NOT-FOUND is negative, so it is no index |
| Searches.LinearSearch | AU/Searching/Searching.cs:21-31 | The last index of key in a[0 .. size), or NOT-FOUND exactly when key is absent |
| Searches.BetterLinearSearch | AU/Searching/Searching.cs:37-45 | The first index of key, the same answer as the recursive search from 0 |
| Searches.SentinelLinearSearch | AU/Searching/Searching.cs:51-68 | Restores the array, and answers the first index of key or NOT-FOUND |
| Searches.RecursiveLinearSearch | AU/Searching/Searching.cs:80-91 | The first index of key in [i, size), or NOT-FOUND exactly when key is absent there |
| Searches.FirstMatchUnique | AU/Searching/Searching.cs:80-91 | Any index that is the first match from i is the recursive search's answer |
| Searches.BinarySearch | AU/Searching/Searching.cs:98-117 | A returned index holds key; on a sorted prefix, NOT-FOUND exactly when key is absent |
| Searches.RecursiveBinarySearch | AU/Searching/Searching.cs:125-138 | A returned index lies in [p, r] and holds key; on a sorted range, NOT-FOUND exactly when key is absent |
| Searches.RecursiveBinarySearchAsWritten | AU/Searching/Searching.cs:124-138 | The search as written, also called with r equal to the array size as documented: an answer is NOT-FOUND or an index in [p, r] below the size that holds key; None marks the read of a[size] |
| Searches.AsWrittenAgrees | AU/Searching/Searching.cs:125-138 | With r below the array size the as-written search never reads past the end and gives the corrected search's answer |
| Searches.AsWrittenOverrun | AU/Searching/Searching.cs:124-138 | On a sorted array the as-written search reads a[size] exactly when r is the size, p <= r, and every element from p on is below key |
| Searches.AsWrittenNotFound | AU/Searching/Searching.cs:124-138 | On a sorted array, when the as-written search answers, NOT-FOUND means key is absent from [p, r] |
| Searches.RecursiveOverrunExample | AU/Searching/Searching.cs:124-138 | On [1] with p = 0, r = 1 and key 2 the documented call reads past the end, while r = 0 answers NOT-FOUND |
| Searches.Factorial | AU/Searching/Searching.cs:154-160 | n! reduced modulo 2^32, the uint wrap-around |
| Lcs.ComputeLCSTable | AU/AlgorithmsOnStrings/LCS.cs:22-57 | As written: the table has max(m,1) × max(n,1) cells holding the clamped recurrence, all zero when a string is empty |
| Lcs.FirstRowCounts | AU/AlgorithmsOnStrings/LCS.cs:44-55 | In the as-written table, cell (0, j) counts the occurrences of x[0] in y[0 .. j], not an LCS length |
| Lcs.ClampCounterexample | AU/AlgorithmsOnStrings/LCS.cs:44 | For "A" and "AA" a cell of the as-written table is 2, while no common subsequence is longer than 1 |
| Lcs.AssembleLCS | AU/AlgorithmsOnStrings/LCS.cs:70-88 | As written: the empty string at a negative index or a zero cell; any string it returns is a common subsequence of the prefixes up to i and j (None stands for the read of index -1) |
| Lcs.AssembleThrows | AU/AlgorithmsOnStrings/LCS.cs:70-88 | For "AB" and "A" the read-back reads l[1, -1] |
| Lcs.ComputeLCSTableCorrected | AU/AlgorithmsOnStrings/LCS.cs:22-57 | Corrected: an (m+1) × (n+1) table whose every cell is the LCS length of the prefixes |
| Lcs.LcsUpperBound | AU/AlgorithmsOnStrings/LCS.cs:46-55 | No common subsequence of the prefixes is longer than the table's cell |
| Lcs.AssembleLCSCorrected | AU/AlgorithmsOnStrings/LCS.cs:70-88 | Corrected read-back: a common subsequence of the whole LCS length, hence a longest one |
| Transformations.ChooseMinimum | AU/AlgorithmsOnStrings/Transformation.cs:60-85 | A cell picks the cheapest of its candidate operations, with the code's tie-breaking |
| Transformations.FillCell | AU/AlgorithmsOnStrings/Transformation.cs:60-85 | One interior cell gets the table's cost and operation |
| Transformations.Transformation.constructor | AU/AlgorithmsOnStrings/Transformation.cs:9-15 | A new object has no tables yet |
| Transformations.Transformation.ComputeTransformTable | AU/AlgorithmsOnStrings/Transformation.cs:36-88 | Fresh (|x|+1) × (|y|+1) cost and operation tables whose every cell holds the cost and operation the recurrence prescribes |
| Transformations.Transformation.AssembleTransformation | AU/AlgorithmsOnStrings/Transformation.cs:96-110 | The operation script read back from cell (i, j); with ScriptApplies and ScriptCostIsTableCost it turns x[..i] into y[..j] at the cell's cost |
| Transformations.ScriptApplies | AU/AlgorithmsOnStrings/Transformation.cs:96-110 | Applying the script for (i, j) to x[..i] yields y[..j] |
| Transformations.ScriptCostIsTableCost | AU/AlgorithmsOnStrings/Transformation.cs:60-110 | The script's total cost is the table's cost at (i, j) |
| Transformations.AssembleEmpty | AU/AlgorithmsOnStrings/Transformation.cs:96-110 | The script for two empty prefixes is empty |
| Transformations.AssembleWhole | AU/AlgorithmsOnStrings/Transformation.cs:36-110 | The whole script turns x into y, consumes all of x, produces all of y, and costs the table's final cell |
| Matchings.SimpleMatcher | AU/AlgorithmsOnStrings/Matching.cs:17-42 | As written: reports exactly the valid shifts, in order, and fails exactly when the shift loop reads past the text |
| Matchings.OverrunExample | AU/AlgorithmsOnStrings/Matching.cs:25-37 | "AB" in "ABA" reads past the text at shift 2 |
| Matchings.SimpleMatcherCorrected | AU/AlgorithmsOnStrings/Matching.cs:17-42 | Corrected bound: exactly the valid shifts, ascending, never failing |
| Matchings.NextState | AU/AlgorithmsOnStrings/Matching.cs:88-98 | The downward search for a suffix finds Delta(k, ch): with DeltaIsSigma, the longest pattern prefix that is a suffix of the state's prefix plus ch |
| Matchings.BuildNextStateTable | AU/AlgorithmsOnStrings/Matching.cs:76-102 | An (m+1) × 128 table whose every entry is that transition, except column 127, which stays 0 |
| Matchings.DeltaIsSigma | AU/AlgorithmsOnStrings/Matching.cs:88-98 | Delta(k, c) is the length of the longest pattern prefix that is a suffix of pattern[..k] + [c], at most |pattern| |
| Matchings.FAStringMatcher | AU/AlgorithmsOnStrings/Matching.cs:56-67 | Reports the shifts where the automaton reaches the accepting state |
| Matchings.StateIsSigma | AU/AlgorithmsOnStrings/Matching.cs:56-67 | After reading t[..i] the state is the longest pattern prefix that ends there |
| Matchings.AutomatonMatches | AU/AlgorithmsOnStrings/Matching.cs:56-102 | Without character 127 in the text or pattern, the automaton reports exactly the occurrences of the pattern |
| Matchings.DemoShifts | Demo/AlgorithmsOnStrings.cs:62-64 | "AAC" occurs in "GTAACAGTAAACG" at shifts 2 and 9 |
| Ciphers.Cipher.constructor | AU/Cryptography/Ciphers/Cipher.cs:18-26 | The alphabet is A … Z, followed by a space when white space is used |
| Ciphers.AlphabetShape | AU/Cryptography/Ciphers/Cipher.cs:12 | The alphabet has 26 or 27 distinct characters: A … Z in order, then the space when white space is used; without it, no space and no lower-case letter |
| Ciphers.LowerUpper | AU/Cryptography/Ciphers/ShiftCipher.cs:21-60 | Lower-casing after upper-casing gives the lower-cased character, and upper-casing yields A … Z exactly from the ASCII letters |
| ShiftCipher.Convert | AU/Cryptography/Ciphers/ShiftCipher.cs:67-70 | The position of a character in the alphabet, -1 exactly when absent |
| ShiftCipher.Map | AU/Cryptography/Ciphers/ShiftCipher.cs:77-85 | The alphabet letter at position mod 26, with the remainder made non-negative |
| ShiftCipher.Encrypt | AU/Cryptography/Ciphers/ShiftCipher.cs:21-37 | Each upper-cased character is replaced by the letter key places further on |
| ShiftCipher.Decrypt | AU/Cryptography/Ciphers/ShiftCipher.cs:45-60 | Each character is replaced by the letter key places back, and the result lower-cased |
| ShiftCipher.ShiftBack | AU/Cryptography/Ciphers/ShiftCipher.cs:21-60 | Shifting an alphabet letter forward and back returns it |
| ShiftCipher.RoundTrip | AU/Cryptography/Ciphers/ShiftCipher.cs:21-60 | Decrypting an encryption gives the lower-cased plain text, when every character is a letter of the alphabet once upper-cased |
| ShiftCipher.OutsideAlphabet | AU/Cryptography/Ciphers/ShiftCipher.cs:21-60 | A character outside the alphabet does not survive: with key 3, "1" encrypts to "C" and decrypts to "z" |
| SubstitutionCipher.Encrypt | AU/Cryptography/Ciphers/SubstitutionCipher.cs:23-43 | Each upper-cased character is replaced by its book value; characters that are not book keys are kept |
| SubstitutionCipher.Decrypt | AU/Cryptography/Ciphers/SubstitutionCipher.cs:51-73 | Each character is replaced by the key of the first book entry whose value it is, kept when it is no value, and the result is lower-cased |
| SubstitutionCipher.RoundTrip | AU/Cryptography/Ciphers/SubstitutionCipher.cs:23-73 | When the book permutes its keys, decrypting an encryption gives the lower-cased plain text |
| SubstitutionCipher.CharRoundTrip | AU/Cryptography/Ciphers/SubstitutionCipher.cs:23-73 | One character round-trips under a book that permutes its keys |
| SubstitutionCipher.ValueOutsideKeys | AU/Cryptography/Ciphers/SubstitutionCipher.cs:23-73 | With the book A→B only, "b" encrypts to "B" and decrypts to "a" |
| SubstitutionCipher.DemoBookRoundTrips | Demo/Cryptography.cs:100-109 | The demo's book permutes its keys, so its texts round-trip |
| OneTimePad.Pad.constructor | AU/Cryptography/Ciphers/OneTimePad.cs:22-26 | The pad and the length check flag are stored |
| OneTimePad.Pad.CheckPadLength | AU/Cryptography/Ciphers/OneTimePad.cs:70-79 | Succeeds exactly when the length requirement is off or the pad is at least as long as the text; otherwise PadTooShort |
| OneTimePad.Pad.Apply | AU/Cryptography/Ciphers/OneTimePad.cs:34-62 | Fails exactly when the length check is on and the pad is shorter (PadTooShort), or the pad is empty and the text is not (DivideByZero); otherwise each character is xored with the pad character at its index modulo the pad length |
| OneTimePad.Pad.Encrypt | AU/Cryptography/Ciphers/OneTimePad.cs:34-44 | The masked text, failing with PadTooShort or DivideByZero exactly as Apply does |
| OneTimePad.Pad.Decrypt | AU/Cryptography/Ciphers/OneTimePad.cs:52-62 | The masked text, failing with PadTooShort or DivideByZero exactly as Apply does |
| OneTimePad.RoundTrip | AU/Cryptography/Ciphers/OneTimePad.cs:34-62 | Masking twice with the same pad gives the text back, when the pad is non-empty or the text empty |
| Euclid.Compute | AU/Cryptography/Helpers/Euclid.cs:16-31 | As written, with a floored quotient: the returned d divides a and b |
| Euclid.ComputeCorrected | AU/Cryptography/Helpers/Euclid.cs:16-31 | With a truncated quotient: d = a·x + b·y holds for every input, and d divides a and b |
| Euclid.Greatest | AU/Cryptography/Helpers/Euclid.cs:16-31 | Every common divisor of a and b divides the returned d |
| Euclid.AgreeOnNonNegative | AU/Cryptography/Helpers/Euclid.cs:16-31 | On non-negative inputs the as-written and corrected versions agree |
| Euclid.Bezout | AU/Cryptography/Helpers/Euclid.cs:16-31 | On non-negative inputs the as-written result satisfies d = a·x + b·y |
| Euclid.NonNegativeGcd | AU/Cryptography/Helpers/Euclid.cs:16-31 | On non-negative inputs d is non-negative |
| Euclid.Example | Demo/Cryptography.cs:40 | (30, 18) gives (6, -1, 2) |
| Euclid.BezoutFailsForNegative | AU/Cryptography/Helpers/Euclid.cs:28 | (-3, 2) gives (-1, 1, 2) as written, and -3·1 + 2·2 is not -1; the corrected version gives (-1, 1, 1) |
| ModularExponentiation.Compute | AU/Cryptography/Helpers/ModularExponentiation.cs:18-33 | x^d mod n, at most n-1; 1 when d is 0 |
| NaivePrimalityTest.IsPrime | AU/Cryptography/Primes/NaivePrimalityTest.cs:13-35 | True exactly when the number is prime |
| NaivePrimalityTest.TrialDivision | AU/Cryptography/Primes/NaivePrimalityTest.cs:29-31 | For odd numbers above 3 not divisible by 3, dividing by 5, 7, 9, … while the square stays within the number answers exactly whether it is prime |
| SieveOfEratosthenes.ComputePrimes | AU/Cryptography/Primes/SieveOfEratosthenes.cs:18-36 | Exactly the primes from 2 to limit, ascending |
| SieveOfEratosthenes.MarkComposites | AU/Cryptography/Primes/SieveOfEratosthenes.cs:24-31 | After marking, a number in range is unmarked exactly when it is prime |
| SieveOfEratosthenes.MarkMultiples | AU/Cryptography/Primes/SieveOfEratosthenes.cs:27-30 | Marks exactly the multiples of i from i·i on |
| Rsa.Create | AU/Cryptography/Ciphers/RSA.cs:83-98 | As written: fails exactly when p or q is not prime, with PNotPrime checked first; otherwise a fresh object holding p and q, accepting p = q |
| Rsa.CreateCorrected | AU/Cryptography/Ciphers/RSA.cs:83-98 | As Create, but also fails with SamePrimes when p = q |
| Rsa.RSA.constructor | AU/Cryptography/Ciphers/RSA.cs:83-98 | For primes p and q, stores them with n, r, e and d still zero |
| Rsa.RSA.Compute | AU/Cryptography/Ciphers/RSA.cs:121-137 | n = p·q and r = (p-1)(q-1); when some odd e in [5, r) is coprime to r, e is the least such and d in [0, r) is its inverse modulo r; otherwise e and d keep their values |
| Rsa.RSA.ComputeEAndD | AU/Cryptography/Ciphers/RSA.cs:168-196 | Tries the odd candidates from 5 upward: the least one coprime to r becomes e, with its normalised inverse as d; with none, e and d keep their values |
| Rsa.RSA.TryCandidate | AU/Cryptography/Ciphers/RSA.cs:172-192 | One candidate i, all smaller ones having failed: accepted, choosing keys, exactly when it is coprime to r |
| Rsa.Normalize | AU/Cryptography/Ciphers/RSA.cs:181-189 | The inverse brought into [0, r), congruent to the input modulo r |
| Rsa.RSA.FS | AU/Cryptography/Ciphers/RSA.cs:135 | The public function: x^e mod n, below n, for a positive exponent |
| Rsa.RSA.FP | AU/Cryptography/Ciphers/RSA.cs:136 | The private function: x^d mod n, below n, for a positive exponent |
| Rsa.RoundTrip | AU/Cryptography/Ciphers/RSA.cs:121-137 | For distinct primes and keys chosen by Compute, FP(FS(x)) = x and FS(FP(x)) = x for every x < n |
| Rsa.ComputeRoundTrip | AU/Cryptography/Ciphers/RSA.cs:121-137 | For distinct primes and e·d ≡ 1 modulo (p-1)(q-1), x^e mod n raised to d mod n gives x back for every x < n |
| Rsa.BookKeys | Demo/Cryptography.cs:70-78 | For r = 448, 5 is a candidate, Euclid gives (1, 2, -179), and -179 normalises to d = 269 with 5·269 ≡ 1 (mod 448) |
| Rsa.BookEncrypt | Demo/Cryptography.cs:75 | 327^5 mod 493 = 259 |
| Rsa.SamePrimesBreakRoundTrip | AU/Cryptography/Ciphers/RSA.cs:83-98 | With p = q = 5 the keys give FS(5) = 0 and FP(0) = 0, so 5 does not round-trip |

## Left out

- Generic element types are specialised to `int`; `IComparable` comparison is integer order.
- Edge weights and distances are integers, not `double`: there is no floating-point rounding, NaN or negative infinity.
- Lazy enumeration (`yield return`) is modelled as the sequence it produces.
- The text of matcher messages and the `ToString` of `AdjacencyMatrix` and `RSA` are output formatting, not modelled.
- Case mapping (`ToUpper`, `ToLower`) covers ASCII letters only; culture-specific mapping is not modelled.
- The ciphers' keys arrive as `object` and are cast; the casts are modelled as typed parameters, so a failed cast is not modelled.
- `RSA.GeneratePrimes` and the range constructor draw random primes; randomness is left out.
- The `PrimesTest` delegate is fixed to the naive test. `RabinMiller` is not part of this model.
- Rsa.RSA.Compute: requires p·q < 2^32, so the `uint` product does not wrap.
- ShiftCipher.Encrypt: the `int` sum of a position and the key is unbounded; 32-bit overflow for huge keys is not modelled.
- NaivePrimalityTest.IsPrime: requires a 32-bit number; `Math.Sqrt` is modelled as the bound d·d <= number, which agrees for such numbers.
- SieveOfEratosthenes.ComputePrimes: requires limit + 2^16 < 2^32 so that no `uint` index wraps.
- ModularExponentiation.Compute: the C# code computes through `double`; the model requires operands small enough for that to be exact.
- Euclid.Compute: requires |a| and |b| below 2^53, where the `double` quotient is exact.
- Transformations.Transformation.ComputeTransformTable: the operation costs are the constants of the class; the `Costs` argument is not read. Returning `this` for chaining is not modelled.
- PriorityQueues.PriorityQueue.ExtractMin: requires a non-empty queue; on an empty queue the code throws from the `data[0]` read, since its own guard never fires.
- PriorityQueues.PriorityQueue.Peek: requires a non-empty queue; on an empty queue the code's `data[0]` read throws, and that exception is not modelled.
- CountingSorts.Count: requires range >= 1; with range 0 the code throws at `less[0] = 0`, even for an empty input, and that exception is not modelled.
- Graphs.Graph.Exists: on lists requires u to be a vertex; the code's `List[vertexU]` throws for any other u, and that exception is not modelled.
- Searches.BinarySearch: the midpoint (p + r) / 2 is computed on unbounded integers; the C# `int` sum overflows when the indexes exceed 2^30.
- Searches.RecursiveBinarySearch: requires r below the array size, so the documented first call with r equal to the size is modelled by RecursiveBinarySearchAsWritten (see "## Findings"); the `int` overflow of the midpoint (p + r) / 2 beyond 2^30 is not modelled either.
- PriorityQueues.PriorityQueue.DecreaseKey: requires a valid heap and states that nothing changes; that is all the code can do on one.
- Searches.SentinelLinearSearch: requires size >= 1, since the code reads a[size-1] unconditionally.
- MergeSorts.MergSort: the infinity sentinel is a parameter larger than every element, in place of `Infinity<T>`.
- Matchings.NextState / Matchings.BuildNextStateTable: suffixes are compared ordinally, character code by character code. The C# `EndsWith(string)` overload compares under the current culture, which ignores zero-weight characters such as '\0'. For pattern "AB", the code's entry for state 1 on '\0' is 1 where the model's is 0, so on such characters the table, `FAStringMatcher` and `AutomatonMatches` describe the ordinal comparison only.
- Matchings.FAStringMatcher: requires every character of the text below the table width, where the code would read past the table.
- Dijkstras.Dijkstra.Compute: requires `RelaxSafe` (every pair the indexer yields has a weight); on a matrix, relaxing a pair never added throws, and that exception is not modelled.
- BellmanFords.BellmanFord.Compute: requires `RelaxSafe`, for the same reason.
- Dijkstras.RepresentationsAgree: holds only when both representations weigh every pair alike and no vertex has a negative self-loop; the matrix indexer's repeated targets would otherwise relax such a loop more often.
- Thread safety and reentrancy of the shared `Shortest` and `Predecessors` arrays are not modelled.

## Findings

| source | as written | input that shows it | evidently intended | confidence | as-written member | corrected member |
|---|---|---|---|---|---|---|
| AU/Sorting/Sorting.cs:208-211 | the ones loop runs `i <= k`, writing k+1 ones | [2] becomes [1]; with all ones and size equal to the length it writes past the end | `i < k`, writing exactly k ones | not executed | CountingSorts.ReallySimpleSortAsWritten, CountingSorts.AsWrittenExample | CountingSorts.ReallySimpleSort, CountingSorts.ReallySimpleSortSorts |
| AU/AlgorithmsOnStrings/LCS.cs:44 | the table is clamped to max(m,1) × max(n,1) and indexed from 0, so row 0 and column 0 count single matches | "A" and "AA": a cell holds 2, yet no common subsequence is longer than 1 | an (m+1) × (n+1) table with a zero border | not executed | Lcs.ComputeLCSTable, Lcs.ClampCounterexample | Lcs.ComputeLCSTableCorrected, Lcs.AssembleLCSCorrected |
| AU/AlgorithmsOnStrings/LCS.cs:70-88 | the read-back steps left from column 0 and reads l[i, -1] | "AB" and "A" | the read-back stops at the zero border | not executed | Lcs.AssembleLCS, Lcs.AssembleThrows | Lcs.AssembleLCSCorrected |
| AU/AlgorithmsOnStrings/Matching.cs:25-37 | shifts run while `i < n`, so the comparison reads past the text | "AB" in "ABA" reads index 3 | shifts run up to n - m | not executed | Matchings.SimpleMatcher, Matchings.OverrunExample | Matchings.SimpleMatcherCorrected |
| AU/Searching/Searching.cs:124-138 | the first call is documented to pass the array size as r; when key is above every element the recursion reaches p = r = size and reads array[size] | [1] with p = 0, r = 1 and key 2 | the first call passes the last index, size - 1 | not executed | Searches.RecursiveBinarySearchAsWritten, Searches.RecursiveOverrunExample, Searches.AsWrittenOverrun | Searches.RecursiveBinarySearch |
| AU/Cryptography/Helpers/Euclid.cs:28 | the quotient is `Math.Floor(a / b)` while `%` truncates | (-3, 2) gives (-1, 1, 2), and -3·1 + 2·2 = 1 ≠ -1 | quotient and remainder from the same division | not executed | Euclid.Compute, Euclid.BezoutFailsForNegative | Euclid.ComputeCorrected |
| AU/Cryptography/Ciphers/RSA.cs:83-98 | p = q is accepted | p = q = 5: FS(5) = 0 and FP(0) = 0 | p = q rejected | not executed | Rsa.Create, Rsa.SamePrimesBreakRoundTrip | Rsa.CreateCorrected |
