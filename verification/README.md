# Selector core, modelled in Dafny

Selector is an image-selection tool. Its "intelligent scissors" snap a
selection outline to edges in the picture. This project models the
algorithmic core of that tool:

- **`PriorityQueue`** (`heap_min_queue.dfy`) models `HeapMinQueue`, a
  min-priority queue of distinct keys. It keeps a binary heap of
  `(key, priority)` entries beside a map from each key to its heap position.
  - The class invariant is heap order plus a consistent index, both
    directions.
  - Every public operation keeps that invariant.
  - Each operation is specified against `Contents()`, the key-to-priority
    map the heap represents.
- **`Paths`** (`shortest_paths.dfy`) models `ShortestPaths`, a resumable
  Dijkstra search.
  - State: distance and predecessor arrays, a set of settled ids, and a
    `HeapMinQueue` frontier.
  - The graph is a sequence of adjacency lists. The weigher is a function
    from edges to non-negative integers.
  - A search invariant (`Inv`) over the values of that state is proved to
    hold from `setStart` on and to survive every step of `extendSearch`.
  - From the invariant it is proved that, once the frontier is empty, the
    settled vertices are exactly the reachable ones and each settled
    distance is a shortest one.
  - A ghost settle order (`rank`) beside the invariant gives every settled
    vertex an earlier-settled predecessor. So following `predecessors` from
    any discovered vertex leads back to the start along a walk whose weight
    is that vertex's distance, even with zero-weight edges.
- **`ScissorsWeights`** (`scissors_weights.dfy`) models the edge weights of
  the image graph:
  - `crossGrad`, the cross-gradient of one band of a raster at a pixel in
    one of eight directions;
  - the grayscale and colour weighers built on it;
  - the `makeWeigher` factory and its list of names.
  - Weights are proved non-negative and bounded, and an edge weighs the same
    in both directions.
- **`Selection`** (`point_to_point_selection.dfy`) models
  `PointToPointSelectionModel`, whose selection is a path of straight
  segments that becomes a closed polygon when finished.
  - `liveWire` and `appendToSelection` extend the path.
  - `movePoint` drags one vertex of a finished polygon.
- **`Exceptions`** (`exceptions.dfy`) turns Java exceptions into values:
  - a method that returns a value or throws returns `Result`;
  - a `void` method that may throw returns `Outcome`.

Where the Java documentation and the code disagree, the model follows the
code:
- `crossGrad`'s comment says a direction lies in `[0..8]`, but the code
  throws for 8 as for every value outside 0 to 7.
- `extendSearch` re-inserts the start into the frontier on every call. So
  the start can be settled and in the frontier at once, and the loop skips
  it when popped. The invariant therefore allows exactly that one stale
  entry (`StaleOnlyStart`).

## Model

| member | source | states |
|---|---|---|
| `PriorityQueue.Parent` | HeapMinQueue.java:224-228 | the parent of position 0 is 0 (Java's truncating `(0 - 1) / 2`); any other position is child `2p+1` or `2p+2` of its parent `p < i` |
| `PriorityQueue.RootIsMinimal` | HeapMinQueue.java:34-38 | in a heap-ordered sequence no entry has a smaller priority than the root (by induction up the parent chain) |
| `PriorityQueue.RootHoldsMinimum` | HeapMinQueue.java:80-98 | the root's key is in the queue with the root's priority, and no key in the queue has a smaller priority |
| `PriorityQueue.IndexSize` | HeapMinQueue.java:27-32 | a consistent index has exactly as many keys as the heap has entries (`index.size() == heap.size()`) |
| `PriorityQueue.SmallerChild` | HeapMinQueue.java:240-246 | the child chosen for a sift-down is a child of `k` with no sibling of smaller priority; the right child is chosen only when strictly smaller, so ties go left |
| `PriorityQueue.SwapUp` | HeapMinQueue.java:225-229 | exchanging an entry with its strictly greater parent moves the single heap-order fault up to the parent's position |
| `PriorityQueue.SwapDown` | HeapMinQueue.java:248-256 | exchanging an entry with its least, strictly smaller child moves the single heap-order fault down to that child |
| `PriorityQueue.SwapKeepsPriorities` | HeapMinQueue.java:157-168 | swapping two entries and re-pointing both keys keeps the index consistent and the key-to-priority mapping unchanged |
| `PriorityQueue.MoveLastToRoot` | HeapMinQueue.java:124-136 | putting the last entry in place of the removed root keeps the index consistent, leaves heap order broken only below the root, and the mapping loses exactly the root's key |
| `PriorityQueue.ValidPassesCheck` | HeapMinQueue.java:27-38 | the class invariant (`Valid`: heap order, and an index mapping exactly the heap's keys to their positions) implies everything `checkInvariant` asserts |
| `PriorityQueue.HeapMinQueue.CheckInvariant` | HeapMinQueue.java:44-53 | returns true exactly when every non-root entry is no smaller than its parent and indexed at its position and the index is as large as the heap; true whenever the class invariant holds |
| `PriorityQueue.HeapMinQueue.constructor` | HeapMinQueue.java:58-62 | a new queue satisfies the invariant and is empty |
| `PriorityQueue.HeapMinQueue.IsEmpty` | HeapMinQueue.java:67-70 | true exactly when the queue holds no key |
| `PriorityQueue.HeapMinQueue.Size` | HeapMinQueue.java:75-78 | the number of keys in the queue, equal to the size of the index |
| `PriorityQueue.HeapMinQueue.Get` | HeapMinQueue.java:80-89 | `NoSuchElement` exactly when empty; otherwise a key of the queue whose priority is no greater than any other's (and, by `Remove`'s contract, the key `remove()` would take) |
| `PriorityQueue.HeapMinQueue.MinPriority` | HeapMinQueue.java:95-98 | `NoSuchElement` exactly when empty; otherwise a priority held by some key and no greater than any key's priority |
| `PriorityQueue.HeapMinQueue.AddOrUpdate` | HeapMinQueue.java:104-111 | keeps the invariant; the mapping becomes the old one with `key` set to `priority`; the size grows by one exactly when `key` was absent |
| `PriorityQueue.HeapMinQueue.Remove` | HeapMinQueue.java:118-141 | keeps the invariant; on an empty queue `NoSuchElement` with nothing changed; otherwise returns a key of least priority and the mapping loses exactly that key; the result is always what `Get` returned just before |
| `PriorityQueue.HeapMinQueue.Clear` | HeapMinQueue.java:146-151 | keeps the invariant and empties the queue |
| `PriorityQueue.HeapMinQueue.Swap` | HeapMinQueue.java:157-168 | exchanges the entries at `i` and `j`, re-points both keys, keeps the index consistent and the mapping unchanged |
| `PriorityQueue.HeapMinQueue.Add` | HeapMinQueue.java:175-189 | for an absent key: keeps the invariant and adds `key` with `priority` to the mapping |
| `PriorityQueue.HeapMinQueue.Update` | HeapMinQueue.java:195-212 | for a present key: keeps the invariant and changes only that key's priority, sifting down when it grew and up otherwise |
| `PriorityQueue.HeapMinQueue.BubbleUp` | HeapMinQueue.java:219-230 | from heap order broken only above `k`, restores heap order without changing the size, the index's consistency or the mapping |
| `PriorityQueue.HeapMinQueue.BubbleDown` | HeapMinQueue.java:239-259 | from heap order broken only below `k`, restores heap order without changing the size, the index's consistency or the mapping |
| `Paths.WalkExtend` | ShortestPaths.java:173-178 | a walk to `u` followed by an edge leaving `u` is a walk to the edge's end, heavier by the edge's weight |
| `Paths.RelaxNone` | ShortestPaths.java:173-190 | relaxing no edge changes nothing |
| `Paths.RelaxKeep` | ShortestPaths.java:180-181 | an edge whose end is already no farther than through `u` is relaxed with no change of state |
| `Paths.RelaxUpdate` | ShortestPaths.java:181-186 | an edge whose end is unknown or farther than through `u` gives the end the distance through `u`, predecessor `u`, that distance as frontier priority and the walk to `u` plus the edge as witness; the result is still a relaxation of the edges so far |
| `Paths.LowerBound` | ShortestPaths.java:160-161 | every walk from the start to an unsettled vertex weighs at least the least frontier priority |
| `Paths.SettledClosest` | ShortestPaths.java:138-139 | the settled vertices are the closest ones: every walk to an unsettled vertex weighs at least the distance of any settled vertex |
| `Paths.RelaxKeepsSettled` | ShortestPaths.java:173-190 | relaxing the edges of the popped vertex keeps settled distances and predecessors and the start's, raises no known distance, and only lowers unsettled vertices other than `u`, to no less than `u`'s distance |
| `Paths.RelaxKeepsWitnesses` | ShortestPaths.java:178-182 | after relaxing, every known distance is still the weight of a walk from the start |
| `Paths.RelaxKeepsPredecessors` | ShortestPaths.java:182-184 | after relaxing, every discovered vertex other than the start has a settled predecessor with an edge that accounts for its distance |
| `Paths.SettleKeepsOptimal` | ShortestPaths.java:161-167 | settling a vertex of least frontier priority keeps every settled distance no greater than the weight of any walk to it |
| `Paths.SettleKeepsFrontier` | ShortestPaths.java:184-186 | after settling, the frontier holds exactly the discovered unsettled vertices, each with its distance as priority, and adds no stale start |
| `Paths.SettleKeepsOrder` | ShortestPaths.java:161-167 | after settling a vertex of least priority, settled distances are still no greater than any unsettled frontier priority |
| `Paths.SettleKeepsRelaxed` | ShortestPaths.java:173-190 | after settling `u` and relaxing its edges, every edge leaving a settled vertex is relaxed |
| `Paths.SettleStep` | ShortestPaths.java:161-190 | one settling round preserves the search invariant, keeps settled distances and predecessors, raises no distance and adds no stale frontier entry |
| `Paths.StartStep` | ShortestPaths.java:119-124 | a search that has discovered only its start, at distance 0, satisfies the search invariant |
| `Paths.SkipStep` | ShortestPaths.java:163-165 | a popped vertex that is already settled can only be the start, and dropping it preserves the search invariant |
| `Paths.ReseedStep` | ShortestPaths.java:152-153 | putting the start back with priority 0 preserves the search invariant, and changes nothing unless the start was settled |
| `Paths.ExhaustedSettlesReachable` | ShortestPaths.java:143-145 | when the frontier is empty, every vertex reachable from the start is settled |
| `Paths.SettledIsShortest` | ShortestPaths.java:54-57 | a settled vertex's distance is the least weight of any walk from the start to it |
| `Paths.SearchComplete` | ShortestPaths.java:105-113 | with an empty frontier the search is `Complete`: settled exactly when reachable, distance unknown exactly when unreachable, and every settled distance shortest |
| `Paths.RankStep` | ShortestPaths.java:166-186 | settling a vertex whose predecessor is settled, with the next rank in the settle order, keeps every settled vertex's predecessor settled and earlier, so predecessor links never form a cycle |
| `Paths.PredecessorsTrace` | ShortestPaths.java:40-44 | following predecessors back from any discovered vertex reaches the start along graph edges, and the walk weighs exactly the vertex's known distance |
| `Paths.PredecessorsTraceAll` | ShortestPaths.java:40-44 | the same for every discovered vertex at once |
| `Paths.SettledDistancesAgree` | ShortestPaths.java:137-148 | two searches from one start agree on every vertex both have settled, however their budgets were split |
| `Paths.FullSettledEmptiesFrontier` | ShortestPaths.java:132-133 | once all vertices are settled, the frontier (which holds no settled vertex) is empty |
| `Paths.ShortestPaths.constructor` | ShortestPaths.java:64-75 | a new solver has arrays of the vertex count, all cleared, no start and an empty frontier |
| `Paths.ShortestPaths.Reset` | ShortestPaths.java:82-88 | every distance and predecessor -1, nothing settled, the frontier empty, no start |
| `Paths.ShortestPaths.SettledCount` | ShortestPaths.java:94-96 | the number of settled vertices, never more than the vertex count |
| `Paths.ShortestPaths.VertexCount` | ShortestPaths.java:101-103 | the number of vertices of the graph |
| `Paths.ShortestPaths.AllPathsFound` | ShortestPaths.java:109-113 | true exactly when the frontier is empty and a start is set |
| `Paths.ShortestPaths.SetStart` | ShortestPaths.java:119-124 | clears all results, then the start alone has distance 0 and is the only frontier entry, with priority 0; the search invariant holds |
| `Paths.ShortestPaths.FindAllPaths` | ShortestPaths.java:130-135 | afterwards all paths are found and the search is `Complete`: the settled vertices are exactly those reachable from `s`, unreachable exactly when the distance is -1, each settled distance shortest; following `predecessors` back from any reached vertex gives a walk from `s` whose weight is its distance |
| `Paths.ShortestPaths.ExtendSearch` | ShortestPaths.java:149-194 | keeps the invariant; settles at most `maxToSettle` more vertices, and fewer only when all paths are found; keeps settled distances and predecessors; raises no distance; with budget 0 only re-seeds the start, so all paths are not found; following `predecessors` back from any discovered vertex gives a walk from the start whose weight is its known distance |
| `Paths.ShortestPaths.Reseed` | ShortestPaths.java:152-153 | keeps the invariant; the start's frontier priority becomes 0, and distances and predecessors are unchanged |
| `Paths.ShortestPaths.SettleNext` | ShortestPaths.java:155-169 | pops a frontier vertex of least priority; settles it exactly when it was not settled, else drops it with nothing else changed; keeps the invariant |
| `Paths.ShortestPaths.Settle` | ShortestPaths.java:166-190 | adds the popped vertex to the settled set, relaxes its edges, and keeps the invariant and all settled results |
| `Paths.ShortestPaths.RelaxEdges` | ShortestPaths.java:171-190 | the new distances, predecessors, frontier and witnesses are those of relaxing each edge of `u` in turn (`Relaxed`) |
| `ScissorsWeights.SideGrad` | ScissorsWeights.java:53-55 | a quarter of the difference of two pairs of samples lies in 0 to 127 |
| `ScissorsWeights.SideGradSwap` | ScissorsWeights.java:61-63 | reading the pairs from the other side of the edge gives the same gradient |
| `ScissorsWeights.Grad` | ScissorsWeights.java:50-68 | for a direction 0 to 7: between 0 and 255, at most 127 for horizontal and vertical edges, and `180 - 64` along the image border that such an edge runs beside |
| `ScissorsWeights.CrossGrad` | ScissorsWeights.java:43-72 | `IllegalArgument` exactly when the direction is not 0 to 7; otherwise the bounds and border value of `Grad` |
| `ScissorsWeights.GradSymmetric` | ScissorsWeights.java:52-68 | the reverse edge, from the neighbour in the opposite direction, has the same gradient |
| `ScissorsWeights.MonoWeight` | ScissorsWeights.java:111-127 | a grayscale weight lies between 0 and 180 (255 for diagonals), and at least 53 for horizontal and vertical edges |
| `ScissorsWeights.ColorWeight` | ScissorsWeights.java:160-174 | a colour weight lies between 0 and 540 (765 for diagonals), and at least 159 for horizontal and vertical edges |
| `ScissorsWeights.Weight` | ScissorsWeights.java:111-174 | `IllegalArgument` exactly for an invalid direction, propagated from `crossGrad`; otherwise a non-negative weight |
| `ScissorsWeights.Reverse` | ScissorsWeights.java:40-41 | the reverse edge has a valid direction and leads back to the original pixel |
| `ScissorsWeights.MonoWeightSymmetric` | ScissorsWeights.java:111-127 | an edge and its reverse have the same grayscale weight |
| `ScissorsWeights.ColorWeightSymmetric` | ScissorsWeights.java:160-174 | an edge and its reverse have the same colour weight |
| `ScissorsWeights.MakeWeigher` | ScissorsWeights.java:15-26 | succeeds exactly for "CrossGradMono" (the grayscale weigher) and "SimpleColorWeight" (the colour weigher); `IllegalArgument` for any other name |
| `ScissorsWeights.WeightNamesAsWritten` | ScissorsWeights.java:28-33 | the list as written has two names, the first "CrossGradMono" |
| `ScissorsWeights.WeightNamesAsWrittenNotCreatable` | ScissorsWeights.java:31-33 | some listed name is rejected by `makeWeigher` |
| `ScissorsWeights.WeightNames` | ScissorsWeights.java:28-30 | the corrected list has two names |
| `ScissorsWeights.WeightNamesCreatable` | ScissorsWeights.java:16-18 | a name is in the corrected list exactly when `makeWeigher` accepts it |
| `Selection.MovedAsWritten` | PointToPointSelectionModel.java:55-96 | the segment count is unchanged; segment `index` runs from `newPos` to its old end; for `index > 0` segment `index - 1` runs from its old start to `newPos`; for `index == 0` with several segments the last runs from the old first vertex to `newPos`; all others are untouched |
| `Selection.Moved` | PointToPointSelectionModel.java:40-46 | the documented move keeps the number of segments |
| `Selection.MovedKeepsClosed` | PointToPointSelectionModel.java:40-46 | moving any vertex of a closed polygon as documented leaves a closed polygon through the new start |
| `Selection.MovedAsWrittenAgrees` | PointToPointSelectionModel.java:69-77 | for `index > 0` the code does what its documentation says |
| `Selection.MovedAsWrittenBreaksClosed` | PointToPointSelectionModel.java:89-96 | moving the first vertex of the closed polygon (0,0)→(1,0)→(0,0) to (2,2) as written leaves a path that is not closed |
| `Selection.PointToPointSelectionModel.LiveWire` | PointToPointSelectionModel.java:23-29 | a segment ending at `p` that continues the path: a chained path stays chained with it appended |
| `Selection.PointToPointSelectionModel.AppendToSelection` | PointToPointSelectionModel.java:31-38 | appends exactly the live wire to `p`; the path then ends at `p`, stays chained, and start and state are unchanged |
| `Selection.PointToPointSelectionModel.MovePoint` | PointToPointSelectionModel.java:47-99 | `IllegalState` unless the state is `Selected`, then `IllegalArgument` for an index outside the segments, both changing nothing; otherwise the segments become `MovedAsWritten` and `start` becomes `newPos` exactly when `index == 0` |

## Left out

- Java `int` overflow is not modelled: distances, weights and priorities are unbounded integers. Java would wrap a distance sum past 2^31 - 1.
- `PathfindingSnapshot` is not part of this model. `extendSearch` returns one built over the live arrays and settled set, not copies; the method here returns nothing and the state stays in the object.
- `Graph`, `Vertex`, `Edge`, `Weigher` and `ImageGraph` are not part of this model:
  - the graph is a sequence of adjacency lists with ids 0 to n - 1;
  - a weigher is a function to non-negative integers;
  - an image edge is its start pixel and direction.
- Paths.ShortestPaths.SetStart: requires an id in range. The Java code would clear all results and then throw `ArrayIndexOutOfBoundsException`; that caller error is not modelled.
- Paths.ShortestPaths.FindAllPaths: requires an id in range, for the same reason: the Java code fails through `setStart` in the same way.
- PriorityQueue.HeapMinQueue.CheckInvariant: returns false where the Java code would raise an `AssertionError`, or a `NullPointerException` when a key is missing from the index (unboxing the `null` that `index.get` returns); with assertions disabled the Java method returns true unconditionally, which is not modelled.
- Which of several vertices tied for least priority is settled first is named by no contract: `Remove` returns the key at the root (`Get`), so the modelled heap decides it as the Java heap does, but no lemma says which vertex that is.
- The incremental-equals-batch property is proved only for distances (`SettledDistancesAgree`), not for predecessors, which may differ between tied paths.
- The grayscale conversion in the `CrossGradMonoWeight` constructor (a floating-point `BandCombineOp`) is not modelled: the grayscale raster is a parameter.
- A raster's `getSample` is a total function with samples 0 to 255.
  - Reads outside the image are excluded by the requirement that an edge and its neighbour lie in the image.
  - Colour images with fewer than three bands are excluded by the raster representation itself, which gives a sample for every band; the Java colour weigher reads bands 1 and 2, which a one-band raster lacks.
- `SelectionModel`, the superclass, is not part of this model:
  - its state, start point and segment list are fields of the class here;
  - `lastPoint` is taken to be the end of the last segment, or `start` while there is none;
  - its constructors and the state transitions it owns are not modelled.
- `PolyLine` is modelled as a straight segment by its two end points, the only kind this tool creates.
- `propSupport.firePropertyChange` (listener notification) is not modelled.
- `SelectorApp` (the user interface) is not part of this model.

## Findings

| source | as written | input that shows it | evidently intended | confidence | as-written member | corrected member |
|---|---|---|---|---|---|---|
| ScissorsWeights.java:31-33 | `weightNames` lists "CrossGradMono" and "HateCS" | `makeWeigher("HateCS", graph)` throws `IllegalArgumentException` for a name the factory itself lists | list "SimpleColorWeight", the second name `makeWeigher` accepts | high; not executed | `ScissorsWeights.WeightNamesAsWrittenNotCreatable` | `ScissorsWeights.WeightNamesCreatable` |
| PointToPointSelectionModel.java:89-96 | moving vertex 0 replaces the last segment with one from the old first vertex to `newPos` | closed polygon (0,0)→(1,0)→(0,0), `movePoint(0, (2,2))` gives segments (2,2)→(1,0) and (0,0)→(2,2), which no longer meet | the last segment keeps its start and ends at `newPos`, closing the polygon there | high; not executed | `Selection.MovedAsWrittenBreaksClosed` | `Selection.MovedKeepsClosed` |
