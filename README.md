# Ant-colony tour finder, modelled in Dafny

This project models the optimisation core of an ant-colony tour finder for a
campus map. The map is a directed graph whose edges carry a length in feet and a
one-letter surface code. It costs an edge under one of four metrics (walking or
skating, distance or time). It precomputes a shortest path for every ordered
pair of vertices with an early-exit Dijkstra over an indexed binary min-heap.
It then lets a colony of ants build closed tours through every vertex, guided by
a pheromone table that is evaporated and reinforced after every round.

The modules follow the Java sources:

- `Digraph` (digraph.dfy): vertices, edges, the adjacency map and walks.
- `Paths` (paths.dfy): the `Path` class with its cost cache.
- `Utils` (utils.dfy): the cost table.
- `Heap` (heap.dfy): `MinHeap` and `VertexHeap` as one class over a sequence,
  a position index and the shared score map.
- `SearchState` and `Djikstra` (searchstate.dfy, djikstra.dfy): the search.
- `ColonySpec` and `Colony` (colonyspec.dfy, colony.dfy): sums, evaporation,
  deposit and minimum as functions, and the `Ant` and `Colony` classes that
  update their fields in place.

State that the Java code mutates is held in class fields that the methods
reassign. Each method is specified against a function of its inputs or of the
old state, and the properties of those functions are proved as lemmas.

Random numbers, `Math.pow` and the float arithmetic in `desirability` and in the
deposit amount become inputs:

- `draws` and `starts` are reals in [0, 1).
- `weigh(tau, newVertices, length)` is a non-negative desirability.
- `amount(best, length)` is a non-negative deposit.

## Model

| member | source | states |
|---|---|---|
| Digraph.Digraph.constructor | src/core/Digraph.java:118 | The graph starts with no vertices. |
| Digraph.Digraph.AddVertex | src/core/Digraph.java:132-137 | Adding a vertex whose id is present leaves the map, and that vertex's edge list, unchanged; otherwise it adds the vertex with an empty list. |
| Digraph.Digraph.AddEdge | src/core/Digraph.java:139-143 | Both endpoints become vertices; exactly one edge is appended to the end of `from`'s list; every other list is unchanged; a `to` that was not yet a vertex (and is not `from`) gets an empty list. |
| Digraph.Digraph.NeighboringEdges | src/core/Digraph.java:145-151 | Returns `v`'s list in insertion order; every edge leaves `v` and ends at a vertex of the graph. |
| Digraph.Digraph.NeighboringVertices | src/core/Digraph.java:153-159 | Returns the destinations of `v`'s edges, one per edge, in the same order. |
| Digraph.Dsts | src/core/Digraph.java:153-159 | The destinations of an edge list, position by position. |
| Digraph.Digraph.GetEdge | src/core/Digraph.java:161-168 | Returns the first edge of `from`'s list that ends at `to`, or None exactly when no edge of that list ends at `to`. |
| Digraph.FirstTo | src/core/Digraph.java:161-168 | The front-to-back scan behind GetEdge: the first matching edge, None iff none matches. |
| Digraph.NeighborIffEdge | src/core/Digraph.java:153-168 | `to` is among NeighboringVertices(from) iff GetEdge(from, to) finds an edge. |
| Digraph.Digraph.GetVertex | src/core/Digraph.java:170-177 | Returns a vertex of the graph with the id, or None exactly when no vertex has it (vertex equality is by id, Digraph.java:34-42). |
| Digraph.Digraph.VertexSet | src/core/Digraph.java:179-181 | The vertex set as a value: a vertex is in it iff it is a key of the map, and removing from it cannot change the graph. |
| Digraph.WalkConcat | src/core/Colony.java:39-46 | A walk to `b` followed by a walk from `b` is a walk, as when an ant appends cached paths. |
| Digraph.WalkInConcat | src/core/Colony.java:39-46 | The same for walks whose edges are stored in the graph. |
| Digraph.WalkInPrepend | src/core/Djikstra.java:39-43 | Putting a back-pointer edge in front of a stored walk from its destination gives a stored walk from its source. |
| Digraph.DstSetConcat | src/core/Colony.java:41-44 | The vertices crossed off by two paths in turn are those of each path. |
| Digraph.ClosedSetTrapsWalks | src/core/Djikstra.java:33-50 | No stored walk leaves a vertex set closed under the edges, so an exhausted search has no route. |
| Utils.CanSkate | src/core/Utils.java:17-19 | canSkate (the code equals its upper-case form) holds iff the type code is not a lower-case letter. |
| Utils.TruncTenths | src/core/Utils.java:32-40 | The `(int)` cast of a product with a one-decimal multiplier: a count of tenths divided by ten, truncated toward zero, with bounds for both signs. |
| Utils.TimeCost | src/core/Utils.java:31-42 | The time table is defined exactly for the nine codes F, U, D, f, u, d, s, t and b (None, the exception, otherwise) and never negative for a non-negative length. |
| Utils.TimeCostIsSpeedTimesTenths | src/core/Utils.java:21-40 | Each table entry is the length times the walking speed of 272 feet per minute times the code's multiplier, truncated. |
| Utils.ComputeCost | src/core/Utils.java:23-43 | Distance metrics return the raw length for every code; time metrics return the table value or None for an unknown code (the exception); non-negative for a non-negative length. |
| Utils.WalkTimeIgnoresCase | src/core/Utils.java:28-29 | Under walking time the code is lower-cased first, so 'F', 'U' and 'D' cost the same as 'f', 'u' and 'd' and as the lower-case code under skating time. |
| Utils.SkateTimeTable | src/core/Utils.java:29-40 | Skating time uses the code as-is: F, U, D, f, u, d, s, t and b cost `len*272` times 2.0, 1.1, 5.0, 1.0, 0.9, 1.1, 0.5, 0.9 and 1.0, truncated. |
| Utils.WalkTimeUsesWalkingSpeed | src/core/Utils.java:28-37 | Walking time charges the upper-case codes at the lower-case multipliers. |
| Utils.TotalCostAppend | src/core/Utils.java:45-51 | The cost of a concatenation is the sum of the costs of its parts, and undefined if either part is. |
| Utils.TotalCostDefined | src/core/Utils.java:41-51 | A path has a cost iff every edge has one. |
| Utils.TotalCostNonNegative | src/core/Utils.java:45-51 | A path of non-negative lengths costs at least zero. |
| Utils.PrefixCostStep | src/core/Utils.java:47-49 | Adding the next edge's cost to a prefix total gives the total of the longer prefix; an edge without a cost leaves the whole path without one. |
| Utils.PathCost | src/core/Utils.java:45-51 | The accumulating loop returns the recursive total, None on the first unknown code. |
| Paths.VerticesOf | src/core/Digraph.java:103-110 | The vertex sequence of a non-empty path has one more entry than edges. |
| Paths.VerticesOfWalk | src/core/Digraph.java:103-110 | For a walk, entry 0 is the first source, entry i+1 the destination of edge i, and the last entry the walk's end. |
| Paths.Path.constructor | src/core/Digraph.java:87-92 | A path holds its own copy of the edges and has no cached metric. |
| Paths.Path.GetLength | src/core/Digraph.java:94-99 | A repeat call with the cached metric returns the cached length; otherwise it recomputes pathCost and caches it; a defined cost is always pathCost. |
| Paths.Path.Vertices | src/core/Digraph.java:103-110 | Fills a fresh array with the vertex sequence of the edges. |
| Heap.ParentOfChildren | src/core/MinHeap.java:63-65 | parent(left(i)) == i and parent(right(i)) == i. |
| Heap.Left | src/core/MinHeap.java:63 | The left child of a slot comes after it and is an odd slot. |
| Heap.Right | src/core/MinHeap.java:64 | The right child is the even slot just after the left child. |
| Heap.Parent | src/core/MinHeap.java:65 | Every slot but the root is the left or right child of its parent, which comes before it; with Java's truncating division the root is its own parent. |
| Heap.IsLeaf | src/core/MinHeap.java:67-69 | A slot that is not a leaf has both children in range; a leaf can still have a left child, and then that child is the last slot. |
| Heap.SwapF | src/core/MinHeap.java:71-75 | Exchanges two slots, leaves every other slot alone, keeps the multiset. |
| Heap.PercUpF | src/core/MinHeap.java:54-61 | Sifting up keeps length and multiset and moves the element only toward the root. |
| Heap.PercDownF | src/core/MinHeap.java:35-52 | Sifting down, with the source's leaf test, keeps length and multiset. |
| Heap.PopMinF | src/core/MinHeap.java:19-33 | Returns the root and a heap one shorter that has lost exactly that element. |
| Heap.DropRoot | src/core/MinHeap.java:22-27 | Swapping the root with the last slot and dropping it removes exactly the root. |
| Heap.PercUpRestoresOrder | src/core/MinHeap.java:54-61 | Sifting up the one out-of-order slot restores heap order. |
| Heap.InsertKeepsOrder | src/core/MinHeap.java:14-17 | Appending to an ordered heap and sifting up from the last slot leaves it ordered. |
| Heap.RootIsMinimal | src/core/MinHeap.java:23 | In an ordered heap the root has the least score. |
| Heap.PopMinLeavesDisorder | src/core/MinHeap.java:35-52 | Because isLeaf (MinHeap.java:67-69) ignores a lone left child, popping [1,2,3] leaves the unordered [3,2], and the next pop returns 3 although 2 scores less. |
| Heap.VertexHeap.constructor | src/core/VertexHeap.java:13-16 | An empty heap and index over the caller's score map. |
| Heap.VertexHeap.Score | src/core/VertexHeap.java:18-22 | A vertex without a score entry scores Integer.MAX_VALUE. |
| Heap.VertexHeap.Size | src/core/MinHeap.java:77-79 | The size is the number of indexed vertices. |
| Heap.VertexHeap.IsEmpty | src/core/MinHeap.java:81-83 | Empty iff no vertex is indexed. |
| Heap.VertexHeap.Contains | src/core/VertexHeap.java:65-67 | contains(v) iff v is in the heap. |
| Heap.VertexHeap.SizeIsKeyCount | src/core/VertexHeap.java:10 | The heap has as many slots as the index has keys. |
| Heap.VertexHeap.Swap | src/core/VertexHeap.java:58-63 | Swaps two slots and rewrites both positions in the index, keeping the index in sync. |
| Heap.VertexHeap.PercUp | src/core/MinHeap.java:54-61 | Rejects an index outside [0, size); otherwise the heap becomes PercUpF of the old one with the index in sync. |
| Heap.VertexHeap.PercDown | src/core/MinHeap.java:35-52 | Rejects an index outside [0, size); otherwise the heap becomes PercDownF of the old one with the index in sync. |
| Heap.VertexHeap.Insert | src/core/VertexHeap.java:24-28 | Records the position, appends and sifts up; the index gains exactly the new vertex. |
| Heap.VertexHeap.PopMin | src/core/VertexHeap.java:30-36 | None on an empty heap (the error); otherwise returns the old root, the heap becomes PopMinF's, and the vertex leaves the index. |
| Heap.VertexHeap.RemoveRoot | src/core/MinHeap.java:22-27 | Takes the root, swaps the last slot into its place and drops the last slot: the heap loses exactly the root and the index stays in sync with every remaining slot. |
| Heap.VertexHeap.Settle | src/core/MinHeap.java:29-30 | Sifts the new root down when the heap is not empty (the heap becomes PercDownF's) and removes the popped vertex from the index (VertexHeap.java:32-34). |
| Heap.VertexHeap.UpdateIfSmaller | src/core/VertexHeap.java:44-56 | None for a vertex not in the heap (the error); true and the new score iff it is smaller, then sifts up from the vertex's position, moving it only toward the root; otherwise nothing changes. |
| Heap.VertexHeap.Clear | src/core/VertexHeap.java:38-42 | Empties both the array and the index; the scores are not touched. |
| Heap.SwapAndDropLast | src/core/MinHeap.java:22-27 | After the swap and removal the index still matches every remaining slot. |
| Heap.CompleteIndex | src/core/VertexHeap.java:58-63 | An index matching every slot, with no stray keys, maps each key to its slot. |
| Heap.IndexAfterPop | src/core/VertexHeap.java:30-36 | Every indexed vertex but the popped one is still in the heap. |
| Heap.KeysAreSlots | src/core/VertexHeap.java:10 | The index's keys are exactly the heap's elements, one per slot. |
| SearchState.RelaxKeepsInvariant | src/core/Djikstra.java:60-68 | Giving a neighbour score = current + cost and this edge as back-pointer keeps the search invariant, including score(v) = score(bp(v).src) + cost(bp(v)). |
| SearchState.MarkKeepsConsistent | src/core/Djikstra.java:53-54 | Marking a popped vertex keeps scores and back-pointers consistent and ranks it after every earlier mark. |
| SearchState.MarkKeepsFrontier | src/core/Djikstra.java:53-71 | After relaxing all its edges, every neighbour of a marked vertex is marked or queued. |
| SearchState.DequeueKeepsInvariant | src/core/Djikstra.java:35 | Popping a queued vertex keeps the invariant and the vertex's score and back-pointer. |
| SearchState.MarkShrinksUnmarked | src/core/Djikstra.java:33-49 | Each mark shrinks the unmarked set, so the main loop terminates. |
| SearchState.ExhaustedSearchIsClosed | src/core/Djikstra.java:33-50 | When the queue runs dry before `finish` is marked, no walk from `start` reaches `finish`. |
| SearchState.TrailPrepend | src/core/Djikstra.java:39-43 | Putting a back-pointer in front keeps the trail a stored walk whose cost is the score difference. |
| SearchState.FollowBackPointer | src/core/Djikstra.java:39-43 | A back-pointer's source was marked earlier, so reconstruction terminates, and the trail extends. |
| SearchState.RelaxFUnmarked | src/core/Djikstra.java:60-68 | For an unmarked neighbour, relaxing inserts it with score(src)+cost when it is not queued, and otherwise lowers it only on a strictly smaller score. |
| SearchState.RelaxAllFStep | src/core/Djikstra.java:56-70 | Relaxing one more edge of the list is relaxing the prefix and then that edge. |
| SearchState.RelaxAllKeepsMarked | src/core/Djikstra.java:58 | Relaxing a list of edges never changes the score or back-pointer of a marked vertex. |
| SearchState.RelaxAllLowers | src/core/Djikstra.java:62-68 | Relaxing keeps every queued vertex queued and scored, and never raises the score of an unmarked vertex. |
| SearchState.RelaxAllBound | src/core/Djikstra.java:56-70 | After relaxing all edges of marked sources, every unmarked destination is scored at most score(src)+cost for each of those edges. |
| Djikstra.Get | src/core/Djikstra.java:39-42 | backPointers.get: Some exactly when the vertex has a back-pointer. |
| Djikstra.TracePath | src/core/Djikstra.java:39-43 | Reconstruction by front insertion yields a stored walk from start to finish whose cost is finish's score. |
| Djikstra.AllReachedGrows | src/core/Djikstra.java:56-70 | The neighbours relaxed so far are marked or queued. |
| Djikstra.Djikstra.constructor | src/core/Djikstra.java:14-20 | A search over the graph with an empty, valid heap, no scores, no marked vertices and no back-pointers. |
| Djikstra.Djikstra.Relax | src/core/Djikstra.java:57-68 | One edge of mark(): the (scores, back-pointers, queue) state becomes RelaxF of the old one (a marked neighbour is skipped; an undiscovered one gets score(src)+cost, this edge and a queue slot; a queued one takes them only when strictly smaller); the marked set and the invariant are kept and the neighbour ends marked or queued. |
| Djikstra.Djikstra.Discover | src/core/Djikstra.java:62-65 | An undiscovered neighbour gets the new score and this edge as back-pointer and joins the queue; nothing else changes. |
| Djikstra.Djikstra.Improve | src/core/Djikstra.java:66-67 | A queued neighbour takes the new score and this edge as back-pointer exactly when the score is strictly smaller; otherwise nothing changes. |
| Djikstra.Djikstra.RelaxAll | src/core/Djikstra.java:56-70 | The state becomes RelaxAllF of the old one: every edge of the list relaxed in order, with the marked set fixed; each destination ends marked or queued. |
| Djikstra.Djikstra.Mark | src/core/Djikstra.java:53-71 | Adds the vertex to the marked set, then the state becomes RelaxAllF of its edges; marked vertices keep their scores and back-pointers; the invariant holds. |
| Djikstra.Djikstra.Begin | src/core/Djikstra.java:23-31 | Whatever earlier calls left, the state becomes: only start marked, and scores, back-pointers and queue equal to relaxing start's edges from the single score start = 0. |
| Djikstra.Djikstra.PopNext | src/core/Djikstra.java:35 | Returns the old root of the heap, which becomes PopMinF's; the vertex leaves the queue and keeps its score and back-pointer; scores are unchanged. |
| Djikstra.Djikstra.Search | src/core/Djikstra.java:33-49 | A non-empty result is a stored walk from start to finish costing finish's score; an empty result means the frontier is exhausted or finish == start. |
| Djikstra.Djikstra.ShortestPath | src/core/Djikstra.java:22-51 | The result is non-empty iff start != finish and some walk connects them; it is then a stored walk from start to finish whose cost equals finish's score. Begin resets all search state first, so this holds whatever an earlier call left behind. |
| ColonySpec.SumPrefixGrows | src/core/Colony.java:77-88 | Running totals of non-negative weights grow along the list. |
| ColonySpec.SumStep | src/core/Colony.java:85-87 | Each roulette step subtracts the next weight. |
| ColonySpec.SumSnoc | src/core/Colony.java:78-80 | Appending a weight adds it to the running total and keeps non-negative weights non-negative. |
| ColonySpec.Target | src/core/Colony.java:83 | Scaling the total by a draw in [0, 1) gives a target in [0, total], below the total when it is positive. |
| ColonySpec.CountInBounds | src/core/Colony.java:52-60 | numNewVertices counts at most the path's vertices, all of them exactly when all are unvisited. |
| ColonySpec.CountInEmpty | src/core/Colony.java:52-60 | With nothing unvisited the count is 0. |
| ColonySpec.EvaporateProperties | src/core/Colony.java:172-179 | Evaporation keeps the keys and the symmetry, puts every entry at or above 0.5, and with rho in [0,1] never raises an entry already at the floor. |
| ColonySpec.PairsInTail | src/core/Colony.java:193-204 | The pairs of a key-vertex list's tail stay in a table with the same keys. |
| ColonySpec.Deposit | src/core/Colony.java:193-204 | Depositing along a key-vertex list keeps the table's keys. |
| ColonySpec.TouchesTail | src/core/Colony.java:193-204 | A pair touched by the tail is touched by the list. |
| ColonySpec.DepositFrame | src/core/Colony.java:193-204 | Deposit changes no entry other than (a,b) and (b,a) for consecutive key vertices. |
| ColonySpec.DepositSameBothWays | src/core/Colony.java:197-203 | Deposit adds the same amount to (a,b) and to (b,a). |
| ColonySpec.DepositGrows | src/core/Colony.java:193-204 | A non-negative deposit never lowers an entry and raises each hop's entry by at least the amount. |
| ColonySpec.AllPairsInKeys | src/core/Colony.java:190-205 | Every ant's pairs stay in a table with the same keys. |
| ColonySpec.DepositAll | src/core/Colony.java:190-205 | Depositing every ant's tour in turn keeps the table's keys. |
| ColonySpec.DepositAllProperties | src/core/Colony.java:190-205 | Depositing all tours never lowers an entry, leaves every pair no tour touches unchanged, and keeps the table symmetric. |
| ColonySpec.Lengths | src/core/Colony.java:182-188 | The ants' tour lengths in list order. |
| ColonySpec.MinIsLeast | src/core/Colony.java:181-188 | The minimum is at most every length and is one of them. |
| Colony.Enumerate | src/core/Colony.java:74 | The candidate array lists exactly the unvisited vertices, each once. |
| Colony.RouletteIndex | src/core/Colony.java:83-88 | The subtracting loop returns an index in range whose prefix sum is at most the target and whose next prefix sum exceeds it; below the total it picks a positive weight. |
| Colony.ScaledIndex | src/core/Colony.java:164 | `(int)(random * size)` is the integer part of the scaled draw and a valid index below the size. |
| Colony.TouringStart | src/core/Colony.java:23-29 | The wander loop's invariant holds at the start. |
| Colony.ReturnIsAHop | src/core/Colony.java:33-34 | With nothing unvisited the ant is away from start, so returning is a real hop. |
| Colony.HopsAppend | src/core/Colony.java:39 | Appending a different vertex keeps consecutive key vertices distinct. |
| Colony.CandidatesArePriced | src/core/Colony.java:77-81 | Every candidate has a priced, non-empty cached path and a pheromone entry. |
| Colony.CachedHop | src/core/Colony.java:40 | The cached path between two distinct vertices is a stored walk between them. |
| Colony.TouringStep | src/core/Colony.java:39-46 | One hop keeps the wander invariant and decreases the measure. |
| Colony.TouringHop | src/core/Colony.java:31-47 | Following the cached path to the chosen vertex keeps the invariant, crosses the vertex off, and decreases the measure. |
| Colony.TouringDone | src/core/Colony.java:47-49 | When the loop stops, the tour starts and ends at start, has at most \|V\|+1 key vertices, and is a closed stored walk reaching every vertex. |
| Colony.LegsStep | src/core/Colony.java:39-44 | Adding a key vertex appends the cached path from the previous one to the legs. |
| Colony.LegsWalk | src/core/Colony.java:39-46 | Through distinct consecutive vertices of a connected cache the legs form a stored walk from the first key vertex to the last. |
| Colony.Ant.constructor | src/core/Colony.java:15-20 | A new ant has no path, no key vertices and no edges. |
| Colony.Ant.NumNewVertices | src/core/Colony.java:52-60 | Counts the path's vertices that are unvisited, at most one more than its edges. |
| Colony.Ant.Desirability | src/core/Colony.java:64-69 | The Appeal of the hop: weigh of the pheromone on (a, b), the count of unvisited vertices on the cached path and its cost; non-negative. |
| Colony.AppealsAt | src/core/Colony.java:77-80 | Entry k of the weight list is candidate k's appeal plus the temperature. |
| Colony.AppealsAll | src/core/Colony.java:76-81 | Every entry of the weight list built over the candidates is that candidate's appeal plus the temperature, at every index at once. |
| Colony.AppealsStep | src/core/Colony.java:77-80 | One more candidate appends its appeal plus the temperature to the weight list. |
| Colony.Ant.Weigh | src/core/Colony.java:76-81 | Weight k is exactly candidate k's desirability (Appeal: weigh of its pheromone, new-vertex count and cached path cost) plus the temperature; all are non-negative and the target is their sum. |
| Colony.Ant.ChooseNextVertex | src/core/Colony.java:73-89 | Returns an unvisited vertex. |
| Colony.Ant.Follow | src/core/Colony.java:41-44 | Appends the path's edges and crosses off their destinations. |
| Colony.Ant.Step | src/core/Colony.java:39-44 | Appends the chosen vertex to the key vertices, the cached path's edges to pathEdges, and crosses their destinations off. |
| Colony.Ant.Hop | src/core/Colony.java:31-47 | One pass of the do-while loop: start once nothing is unvisited, else a chosen unvisited vertex; it performs Step's exact update, keeps the wander invariant and pathEdges equal to the legs of the key vertices, and decreases the measure. |
| Colony.Ant.HopAll | src/core/Colony.java:31-47 | The do-while loop ends back at start with nothing unvisited, keeping pathEdges equal to the legs of the key vertices. |
| Colony.Ant.Wander | src/core/Colony.java:22-50 | The tour begins and ends at start, every other vertex is the destination of some edge of the closed walk, there are at most \|V\|+1 key vertices, pathEdges is the concatenation of the cached paths between consecutive key vertices, and the path is a fresh Path over the edges. |
| Colony.CacheConnected | src/core/Colony.java:113-122 | In a strongly connected graph every cached path between distinct vertices is a priced stored walk. |
| Colony.FillingAdd | src/core/Colony.java:116-121 | Storing one Dijkstra result and pheromone 1 keeps the cache well formed. |
| Colony.FillRow | src/core/Colony.java:116-121 | The inner loop caches a path for every other vertex from `va`. |
| Colony.CoversJoin | src/core/Colony.java:113-122 | Rows already cached stay cached. |
| Colony.FillingDone | src/core/Colony.java:111-122 | After all rows, every ordered pair of distinct vertices, and no self-pair, has a cached path and pheromone 1, and the table is symmetric. |
| Colony.Colony.constructor | src/core/Colony.java:107-123 | After construction the cache covers exactly the ordered pairs of distinct vertices, every pheromone is 1, and there are no ants. |
| Colony.Colony.AddAnts | src/core/Colony.java:137-141 | Appends `n` fresh ants without paths; the old ants keep their order. |
| Colony.Colony.Wander | src/core/Colony.java:143-169 | Sequential branch: every ant from index FirstWanderer on (0 in iteration 1, `best` later) completes a tour along the cached paths between its key vertices; the ants before that index are unchanged. |
| Colony.WanderAnts | src/core/Colony.java:162-168 | Each ant `i` from index `b` on starts at `vertices[ScaledIndex(starts(i), |vertices|)]`, the vertex its draw picks, and completes a tour along the cache; the ants before `b` are unchanged. |
| Colony.WalkPriced | src/core/Colony.java:182-184 | A stored walk has a cost when every edge does. |
| Colony.HopsPairsIn | src/core/Colony.java:193-199 | Every hop of a tour has a pheromone entry in both directions. |
| Colony.EvaporateRows | src/core/Colony.java:173-179 | Evaporating some rows keeps the table's keys. |
| Colony.EvaporateRowsStep | src/core/Colony.java:173-179 | With the rows outside `rest` done, evaporating one more row of `rest` leaves only the others to do. |
| Colony.EvaporateRowsUnion | src/core/Colony.java:173-179 | Evaporating one more row after some rows is evaporating both. |
| Colony.EvaporateRowsAll | src/core/Colony.java:173-179 | Evaporating every row is Evaporate. |
| Colony.Colony.EvaporateRow | src/core/Colony.java:174-178 | The inner loop sets every off-diagonal entry of row `a` to max(0.5, rho*old). |
| Colony.Colony.Evaporation | src/core/Colony.java:172-179 | The table becomes Evaporate of the old one, so every entry is at least 0.5, and the keys and symmetry are kept. |
| Colony.Colony.EvaporateAll | src/core/Colony.java:172-179 | Visiting the rows one vertex at a time turns the whole table into Evaporate of the old one, leaving the ants and the cache as they were. |
| Colony.TouredAntsPriced | src/core/Colony.java:182-188 | Every toured ant has a path with a cost. |
| Colony.MinOfTours | src/core/Colony.java:181-188 | The minimum of the tour lengths is at most every ant's length and is some ant's length. |
| Colony.Colony.BestLength | src/core/Colony.java:181-188 | bestPathLength is the minimum path length over all ants. |
| Colony.DepositStep | src/core/Colony.java:193-204 | One iteration of the per-hop loop adds the amount to (a,b) and then to (b,a). |
| Colony.Colony.DepositTour | src/core/Colony.java:193-204 | The per-hop loop leaves the table equal to Deposit of the old one along the key vertices. |
| Colony.DepositAllStep | src/core/Colony.java:191-205 | One ant's deposit extends the deposits of the ants before it. |
| Colony.TouredAntsPairsIn | src/core/Colony.java:191-199 | Every hop of every toured ant has an entry in both directions. |
| Colony.Colony.DepositAnts | src/core/Colony.java:190-205 | The per-ant loop leaves the table equal to DepositAll of the old one. |
| Colony.Colony.Reinforce | src/core/Colony.java:181-205 | Deposits every ant's tour with the amount computed from the minimum length. |
| Colony.Colony.UpdatePheromones | src/core/Colony.java:171-206 | Evaporates, then with no ants stops where the Java code throws; otherwise deposits every tour with the minimum length over the evaporated table. |
| Colony.InsertKeepsAscending | src/core/Colony.java:220-222 | Inserting a tour after every shorter-or-equal one keeps lengths ascending. |
| Colony.Colony.InsertByLength | src/core/Colony.java:220-222 | Inserts one ant into an ascending list, adding exactly that ant. |
| Colony.Colony.SortedByLength | src/core/Colony.java:220-222 | A permutation of the ants in non-decreasing path length. |
| Colony.PermutationKeepsDistinct | src/core/Colony.java:220-222 | Reordering the ant list keeps the ants distinct objects. |
| Colony.Colony.SortAnts | src/core/Colony.java:220-222 | The ants become a permutation of themselves in non-decreasing path length; the tables are unchanged. |
| Colony.Colony.BestPath | src/core/Colony.java:224-227 | Sorts, then returns ant 0's path, whose length is minimal; None when there are no ants. |

## Left out

- The multithreaded branch of Colony.wander (Colony.java:146-161) is not modelled. Only the sequential branch is.
- learn (Colony.java:208-218) is not modelled. It is a driver over wander, updatePheromones and sortAnts that prints and updates a display.
- Display, GraphBuilder, Main, exportRoute, exportAndDisplayRoute and the timer are not part of this model.
- Vertex names, labels and coordinates are left out. So are edge names, ids, angles, directions and toString. Vertex equality is by id, which a datatype holding only the id gives.
- Edge.equals is not modelled. It tests `instanceof Vertex`, so edges never compare equal, and nothing in the core relies on it. Edges here are values with structural equality.
- Colony.Ant.Desirability: takes `weigh(tau, newVertices, length)` as an input instead of computing `tau^alpha * eta^beta` in float. So alpha and beta and float rounding are not modelled, and nor is the division by a zero-length path.
- Colony.Colony.Reinforce: takes `amount(best, length)` as an input instead of computing `(best/length)^Q` in float. Q is not modelled.
- Colony.Ant.ChooseNextVertex: takes the draw as a parameter in place of Math.random. It promises only a member of the unvisited set; weight-proportional choice is a statement about probability.
- Colony.Colony.Wander: takes `starts` and `draws` in place of Math.random, and does not state which vertex each ant starts from. It requires a strongly connected graph with at least two vertices, and these cases are not modelled: an unreachable pair has an empty cached path, so desirability's numNewVertices calls p.vertices(), which reads edge 0 and throws IndexOutOfBounds (Colony.java:54, 67; Digraph.java:105); a one-vertex graph makes the ant fetch the cached path from start to itself, which does not exist, and throws a NullPointerException (Colony.java:40-41); and when the last key vertex cannot reach the start, the closing hop appends nothing and the loop ends with a walk that is not closed.
- Digraph.Digraph.NeighboringEdges, Digraph.Digraph.NeighboringVertices and Digraph.Digraph.GetEdge require the vertex to be in the graph, and Djikstra.Djikstra.ShortestPath requires `start` to be; for any other vertex the Java code dereferences a missing map entry and throws a NullPointerException (Digraph.java:147, 155, 162).
- Colony.Colony.UpdatePheromones and Colony.Colony.BestPath require every ant to have toured; the Java code throws on an ant without a path.
- Colony.Colony.UpdatePheromones takes the ants' (key vertices, length) list as a ghost argument tied to the ants by a predicate, instead of reading it off the heap.
- Colony.Colony.SortAnts: does not state stability. It states the permutation and the order, and it uses exact lengths, not the comparator's `int` subtraction, which can overflow.
- Colony.Colony.BestLength: reads each length through the path cost function instead of the Path.getLength cache. The cache gives the same value (Paths.Path.GetLength).
- The pheromone table and the path cache are flattened to maps keyed by ordered pairs, where Java nests one map per vertex.
- Java `int` overflow is not modelled: path costs, Dijkstra scores and the sortAnts comparator use unbounded integers.
- Pheromone values, rho, the temperature, the desirabilities and the roulette sums are reals where Java uses `float` (Colony.java:76-87, 176, 197-203). The exact equalities stated for Colony.Colony.EvaporateRow, Colony.Colony.DepositTour, Colony.Colony.UpdatePheromones and Colony.Ant.Weigh hold in real arithmetic; float rounding is not modelled.
- Parameters.best is a `nat`. A negative `best` makes Colony.wander call `ants.get` at a negative index and throw (Colony.java:163-164); that case is not modelled.
- Colony.Ant.ChooseNextVertex, Colony.Ant.Weigh, Colony.Ant.Hop and the wander methods require a non-negative temperature (and non-negative desirabilities). With a negative one the Java roulette can start below zero, skip its loop and index `candidates[-1]` (Colony.java:83-88); that exception is not modelled.
- Case mapping covers the ASCII letters only; Java's Character.toUpperCase and toLowerCase also map letters of other alphabets. Every code in the cost table is ASCII.
- Utils.ComputeCost: models the double multipliers as exact tenths truncated toward zero. A double product that lands just below an integer could truncate one lower in Java.
- Djikstra.Djikstra.ShortestPath: requires every edge to have a cost under the metric (the Java code throws mid-search otherwise). It does not claim the path is the cheapest one. That claim fails as written, because the heap can pop out of order (Heap.PopMinLeavesDisorder). For the same reason, VertexHeap.PopMin does not claim to keep heap order.
- Heap.VertexHeap.Insert: requires the vertex not to be in the heap already. Dijkstra only inserts undiscovered vertices; a second insert in Java would leave a stale position.
- Paths.Path.Vertices: requires at least one edge; on an empty path the Java code throws.
- Heap.VertexHeap.PopMin and Heap.VertexHeap.UpdateIfSmaller: return None where the Java code raises an error (empty heap, vertex not in the heap).
