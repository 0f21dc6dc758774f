# Path-finding visualizer: the shortest-path routine, in Dafny

The visualizer is a single React component. It draws a small weighted,
undirected city map and animates Dijkstra's algorithm between a start node and
an end node. Its only algorithmic content is `findShortestPath` and the
`isInPath` test used when the edges are drawn. Both are modelled here:

- `graph.dfy` (module `Graph`) defines edges and distances. `Dist` is `Inf | Fin(n)` and stands for
  JavaScript's `Infinity` and finite numbers. The module also defines walks and their weight,
  which give "shortest" its meaning: `IsShortest(edges, s, t, d)` says that some walk from `s`
  to `t` weighs `d` and that no walk weighs less.
- `insertion_ordered_set.dfy` (module `InsertionOrderedSet`) models the JavaScript `Set` that
  holds the unvisited nodes. It is a sequence without repetitions, kept in insertion order.
  `Add` models `Set.add` and `Delete` models `Set.delete`.
- `dijkstra.dfy` (module `Dijkstra`) models the routine as imperative methods over the run
  state. The run state is the source's `distances` and `previous` dictionaries, as maps, and
  the `unvisited` set. The methods are:
  - `Initialise` for the `nodes.forEach` set-up;
  - `SelectMin` for the `unvisited.forEach` minimum scan;
  - `RelaxEdges` for the `edges.forEach` relaxation;
  - `ReconstructPath` for the predecessor walk;
  - `FindShortestPath`, the main `while` loop, which returns the visited trace and the path.

  The loop invariant is `Inv`, with one ghost predicate for each fact it keeps. The lemmas
  prove that `Inv` holds after set-up and after every settling step. `Conclude` then derives
  `Outcome`, the routine's contract.
- `path_view.dfy` (module `PathView`) models `isInPath`, the edge highlight test.
- `sample_graph.dfy` (module `SampleGraph`) holds the start-up map (nodes A–F, seven edges) and
  the results the routine gives on it.

What the routine does, as modelled:

- Ties in the minimum scan go to the node listed first in `nodes`. The scan uses a strict `<`
  and `unvisited` iterates in insertion order, which is the order of `nodes`.
- The loop stops when no unvisited node has a finite distance, or when the selected node is
  the end node. The end node is therefore never added to the visited trace.
- Each edge is relaxed in both directions. Only unvisited nodes are updated, and only on a
  strict improvement.
- The path is rebuilt by walking `previous` back from the end node until a `null` link. When
  the end node cannot be reached, the path is `[end]` and not an empty path. When the start
  node and the end node are the same, the path is `[start]` and the visited trace is empty.

Every edge must name two listed nodes, and the start and end must be listed node ids. These
are preconditions; the source never checks them. Node ids may repeat in `nodes`, because
`Set.add` drops the repeat.

## Model

| member | source | states |
|---|---|---|
| `Dijkstra.Initialise` | src/App.jsx:46-55 | Every node id gets distance `Infinity` and predecessor `null`, except the start node, which gets 0. `unvisited` holds each node id once, in the order of `nodes`. |
| `Dijkstra.SelectMin` | src/App.jsx:57-65 | The scan selects nothing exactly when every unvisited distance is infinite. Otherwise it selects an unvisited node with the least finite distance. That distance is strictly less than that of every node before it in `unvisited`. |
| `Dijkstra.TiesGoToEarliestNode` | src/App.jsx:48-65 | Another unvisited node with the same distance as the selected one comes later in `nodes`. |
| `Dijkstra.RelaxEdges` | src/App.jsx:74-89 | Visited nodes keep their distance and predecessor. An unvisited node's distance never grows. It ends at most the current node's distance plus the weight of each edge joining the two, in either direction. When it changed, it equals that sum for one such edge and the predecessor is the current node. An unchanged distance keeps its predecessor. |
| `Dijkstra.RelaxEdgeStep` | src/App.jsx:75-88 | Trying one more edge, first from→to and then to→from, extends the relaxation over the edges seen so far to that edge. The current node's own distance does not change. |
| `Dijkstra.RelaxImproves` | src/App.jsx:75-88 | Lowering an unvisited neighbour of the current node to the current distance plus the joining edge's weight, and recording the current node as its predecessor, extends the relaxation to that edge. |
| `Dijkstra.ReconstructPath` | src/App.jsx:92-97 | The walk back along `previous` terminates. Each link leads to a node settled earlier. The path ends at the end node and starts at a node with a `null` predecessor. Each entry is the predecessor of the next one. All entries except the last are settled. No node repeats. Consecutive entries are joined by an edge. The path is `[end]` exactly when `previous[end]` is `null`. The path's weight is the end node's distance minus the first node's distance. |
| `Dijkstra.FindShortestPath` | src/App.jsx:39-100 | The visited trace has no repeats, has at most one entry per node, never holds the end node, and starts with the start node unless start is the end. Its nodes are settled in non-decreasing distance, and each distance is the least weight of any walk from the start. The loop stops at the right point: when the end is reachable, every node left out of the trace is at least as far as the end, so every node with a lighter walk was visited; when the end is unreachable, every node reachable from the start was visited. The path ends at the end node, follows edges and has no repeats. When the end is reachable, the path starts at the start node and is a shortest walk. When the end is unreachable, the path is `[end]`. When start is the end, the trace is empty and the path is `[start]`. |
| `Dijkstra.Frontier` | src/App.jsx:57-89 | With the loop invariant, any walk from the start to an unvisited node has on it an unvisited node whose distance is at most the walk's weight. |
| `Dijkstra.EndIsNearest` | src/App.jsx:57-68 | When the scan finds no unvisited node closer than the end node, every walk from the start to an unvisited node weighs at least the end node's distance, which is then finite. |
| `Dijkstra.StopRule` | src/App.jsx:57-68 | When the loop stops, the end is reachable exactly when its distance is finite. A finite end distance is shortest and bounds every walk to an unvisited node from below. An infinite one means no unvisited node is reachable. |
| `Dijkstra.SelectionIsShortest` | src/App.jsx:57-70 | The selected node's distance is the least weight of any walk from the start to it. So a node is settled, or the end node is accepted, with its shortest distance. |
| `Dijkstra.ExhaustedMeansUnreachable` | src/App.jsx:67 | When the scan selects nothing, no walk leads from the start to the end node, and the start node has been settled. |
| `Dijkstra.EndSelected` | src/App.jsx:68 | When the scan selects the end node, its distance is finite and no walk to it is lighter. If the start is not the end, the start has been settled. |
| `Dijkstra.InitialInv` | src/App.jsx:46-55 | The state after set-up satisfies the loop invariant. |
| `Dijkstra.SettleStep` | src/App.jsx:67-89 | Deleting the selected node from `unvisited`, appending it to the trace and relaxing its edges keeps the loop invariant. |
| `Dijkstra.StepShape` | src/App.jsx:70-86 | After a settling step, the dictionaries still have exactly the node ids as keys. `unvisited` and the trace still have no repeats and still split the node ids between them. |
| `Dijkstra.StepSettled` | src/App.jsx:70-71 | A node appended to the trace with its shortest distance keeps every settled node's distance finite and shortest. |
| `Dijkstra.StepStart` | src/App.jsx:55-70 | After a settling step, the start node still has distance 0 and no predecessor, and it heads the trace. |
| `Dijkstra.StepSound` | src/App.jsx:76-86 | After a settling step, every finite distance is still the weight of some walk from the start. |
| `Dijkstra.StepRelaxed` | src/App.jsx:74-89 | After a settling step, every edge from a settled node to an unvisited node has been relaxed. |
| `Dijkstra.StepOrdered` | src/App.jsx:57-86 | After a settling step, the trace is still in non-decreasing distance, and no unvisited node is closer than a settled one. |
| `Dijkstra.OrderedAfterSettling` | src/App.jsx:57-71 | The trace stays in non-decreasing distance when the node appended is no closer than every settled node and no farther than every node still unvisited. |
| `Dijkstra.StepLinks` | src/App.jsx:76-86 | After a settling step, every `previous[v] = u` still names a settled `u`. Some edge joins `u` and `v`, and `v`'s distance is `u`'s plus that edge's weight. |
| `Dijkstra.StepUnlinked` | src/App.jsx:52-86 | After a settling step, a node with a `null` predecessor is still the start node or still at `Infinity`. |
| `Dijkstra.StepSettleOrder` | src/App.jsx:70-86 | After a settling step, every settled node's predecessor was settled before it. |
| `Dijkstra.LinkRank` | src/App.jsx:92-97 | Every `previous` link leads to a node settled strictly earlier. So the walk back from the end node cannot cycle. |
| `Dijkstra.BackChainPrepend` | src/App.jsx:94-96 | Putting the predecessor of the first entry in front, as `pathArray.unshift` does, keeps the path a chain of `previous` links. It also keeps the path's entries in the order in which they were settled. |
| `Dijkstra.WeighedChainPrepend` | src/App.jsx:94-96 | The edge behind that `previous` link extends the walk. Its weight is the difference between the two nodes' distances. |
| `Dijkstra.Conclude` | src/App.jsx:92-97 | The final run state and the rebuilt path together give the routine's contract. |
| `Dijkstra.ConcludeTrace` | src/App.jsx:57-71 | When the loop stops, the visited trace holds shortest distances in non-decreasing order, none beyond the end node's. When the end is reachable, every node outside the trace is at least as far as the end. When it is not, every reachable node is in the trace. |
| `Dijkstra.ConcludePath` | src/App.jsx:92-97 | When the loop stops, the rebuilt path is a shortest walk from the start if the end is reachable, and `[end]` otherwise. |
| `InsertionOrderedSet.Add` | src/App.jsx:53 | `unvisited.add` leaves a set holding the old elements and the new one, keeps the old elements first and in their order, grows by at most one element and keeps the set without repeats. |
| `InsertionOrderedSet.Delete` | src/App.jsx:70 | `unvisited.delete` takes out exactly the given node, keeps the rest without repeats, and shortens the set by one when the node was present. |
| `InsertionOrderedSet.AddKeepsOrder` | src/App.jsx:49-53 | Adding the node ids one by one with `unvisited.add` yields each id once, in the order of its first occurrence in `nodes`. |
| `InsertionOrderedSet.DeleteKeepsOrder` | src/App.jsx:70 | Deleting a node keeps the other unvisited nodes in the order of `nodes`. |
| `Graph.Dist.Below` | src/App.jsx:61-84 | JavaScript's `<` with `Infinity`: `Infinity` is below nothing, every finite distance is below `Infinity`, and finite distances compare as numbers. |
| `Graph.BelowIsStrictOrder` | src/App.jsx:61-84 | That `<` is irreflexive, transitive and total on distances, with `Infinity` on top. |
| `Graph.Dist.Plus` | src/App.jsx:76-83 | `distances[current] + edge.weight` stays `Infinity` on `Infinity` and adds the weight to a finite distance. The sum is never below the distance it started from. |
| `Graph.PotentialBound` | src/App.jsx:76-86 | If no edge is shorter than the difference of its ends' labels, a walk's labels rise by at most the walk's weight. This certifies lower bounds on shortest distances. |
| `Graph.PotentialLowerBound` | src/App.jsx:76-86 | With such a labelling that gives the start 0, every walk from the start to a node weighs at least that node's label. |
| `PathView.SomeStepFrom` | src/App.jsx:146-149 | The `path.some` scan from position `i` is true exactly when some consecutive pair at or after `i` is the edge's endpoints, in either order. |
| `PathView.IsInPath` | src/App.jsx:145-150 | An edge is drawn as on the path exactly when two consecutive path entries are its endpoints, in either order. Both endpoints are then on the path. A path shorter than two nodes highlights nothing. |
| `PathView.RouteIsHighlighted` | src/App.jsx:145-150 | Every edge the path takes is highlighted. A highlighted edge has the same endpoints as an edge the path takes at that position. |
| `SampleGraph.RouteAToF` | src/App.jsx:25-32 | On the start-up map, A to F gives the path A, C, F and visits A, C, B, D in that order. |
| `SampleGraph.OutcomeAToF` | src/App.jsx:25-32 | The routine's contract on the start-up map from A to F fixes the path as A, C, F, of weight 9, and the trace as A, C, B, D. |
| `SampleGraph.TraceAToF` | src/App.jsx:57-71 | From A to F the loop stops when F (9) is nearest: A, C, B and D (0, 4, 5 and 6) are visited in that order, and E (13) is not. |
| `SampleGraph.OrderAToF` | src/App.jsx:57-71 | A trace holding A, C, B, D with distances 0, 4, 5, 6 in non-decreasing order is A, C, B, D. |
| `SampleGraph.OnlyLightWalkAToF` | src/App.jsx:25-32 | On the start-up map, the only walk from A to F that weighs at most 9 is A, C, F. |
| `SampleGraph.RouteBToD` | src/App.jsx:25-32 | On the start-up map, which has no B–D edge, B to D gives the path B, A, D and visits B, A, C in that order. |
| `SampleGraph.OutcomeBToD` | src/App.jsx:25-32 | The routine's contract on the start-up map from B to D fixes the path as B, A, D, of weight 11, and the trace as B, A, C. |
| `SampleGraph.TraceBToD` | src/App.jsx:57-71 | From B to D the loop stops when D (11) is nearest: B, A and C (0, 5 and 8) are visited in that order, and F (13) and E (17) are not. |
| `SampleGraph.OrderBToD` | src/App.jsx:57-71 | A trace holding B, A, C with distances 0, 5, 8 in non-decreasing order is B, A, C. |
| `SampleGraph.OnlyLightWalkBToD` | src/App.jsx:25-32 | On the start-up map, the only walk from B to D that weighs at most 11 is B, A, D. |
| `SampleGraph.WeightAtLeastFour` | src/App.jsx:25-32 | Each edge of the start-up map weighs at least 4, so a walk over its edges weighs at least 4 per edge. |
| `SampleGraph.PotentialFromA` | src/App.jsx:25-32 | The distances 0, 5, 4, 6, 13, 9 of A to F from A leave no edge of the start-up map shorter than the difference of its ends. |
| `SampleGraph.PotentialFromB` | src/App.jsx:25-32 | Likewise the distances 5, 0, 8, 11, 17, 13 from B. |
| `SampleGraph.WalksFromA` | src/App.jsx:25-32 | From A there are walks of weight 5 to B, 4 to C, 6 to D, 13 to E and 9 to F. |
| `SampleGraph.BoundsFromA` | src/App.jsx:25-32 | No walk from A is lighter than 5 to B, 4 to C, 6 to D, 13 to E or 9 to F. |
| `SampleGraph.ShortestFromA` | src/App.jsx:25-32 | The shortest distances from A are A 0, B 5, C 4, D 6, E 13 and F 9. |
| `SampleGraph.WalksFromB` | src/App.jsx:25-32 | From B there are walks of weight 5 to A, 8 to C, 11 to D, 17 to E and 13 to F. |
| `SampleGraph.BoundsFromB` | src/App.jsx:25-32 | No walk from B is lighter than 5 to A, 8 to C, 11 to D, 17 to E or 13 to F. |
| `SampleGraph.ShortestFromB` | src/App.jsx:25-32 | The shortest distances from B are B 0, A 5, C 8, D 11, E 17 and F 13. |
| `SampleGraph.NearerIsVisited` | src/App.jsx:57-71 | When the end is reachable, a node with a walk lighter than the end's distance is in the trace. |
| `SampleGraph.VisitedDistance` | src/App.jsx:57-71 | A node in the trace carries its shortest distance. |
| `SampleGraph.SameHead` | src/App.jsx:57-71 | A trace in non-decreasing distance over the nodes of a list of strictly increasing distances starts with that list's first node. |
| `SampleGraph.SameTailMembers` | src/App.jsx:57-71 | With that common first node removed, the trace and the list hold the same nodes. |
| `SampleGraph.TraceByDistance` | src/App.jsx:57-71 | A trace without repeats, in non-decreasing distance, over exactly the nodes of a list of strictly increasing distances, is that list. |
| `SampleGraph.RouteCToC` | src/App.jsx:68 | With start C and end C, the trace is empty and the path is C alone. |
| `SampleGraph.WalksAvoidG` | src/App.jsx:25-32 | No edge of the start-up map touches a node G, so no walk that starts elsewhere ends at G. |
| `SampleGraph.RouteToIsolatedNode` | src/App.jsx:92-97 | With a node G that no edge touches, A to G gives the path G alone, not an empty path. Every other node is visited, in the order A, C, B, D, F, E. |
| `SampleGraph.OutcomeToIsolatedNode` | src/App.jsx:92-97 | The routine's contract from A to the unreachable G fixes the path as G and the trace as A, C, B, D, F, E. |
| `SampleGraph.TraceToIsolatedNode` | src/App.jsx:57-67 | With the end out of reach the loop runs until nothing reachable is left: all of A to F are visited, nearest first. |
| `SampleGraph.OrderFromA` | src/App.jsx:57-71 | A trace holding A to F with distances 0, 4, 5, 6, 9, 13 for A, C, B, D, F, E in non-decreasing order is A, C, B, D, F, E. |

## Left out

- React state and hooks are not modelled: `useState`, `useEffect`, the `setPath`, `setVisitedNodes` and `setIsAnimating` calls, and the `isAnimating` re-entrancy guard (src/App.jsx:7-13, 40-44, 98-99). They hold presentation state only. The visited trace and the path are returned instead.
- The guard that returns early when the start or end text field is empty (src/App.jsx:40) is replaced by the precondition that both are node ids.
- The 500 ms `setTimeout` pause after each settled node (src/App.jsx:72) only paces the animation and does not change the result.
- SVG rendering, node coordinates and names, node fill colours, `VERTEX_RADIUS`, `GRID_SIZE` and the text inputs (src/App.jsx:3-4, 102-250) are presentation. A node is modelled by its id alone.
- JavaScript number arithmetic is not modelled. Weights are natural numbers and `Infinity` is `Inf`. Negative, fractional or non-numeric weights are out of scope.
- An end id that is not a node is excluded by precondition. The source's rebuild loop would never meet `null` for such an id (src/App.jsx:94-96).
- An edge naming an unknown node is excluded by precondition. The routine itself would skip such an edge, but drawing it would fail (src/App.jsx:143-144). Without the precondition, walks through unknown ids would break the "shortest" contract.
- There are no error results for bad edges or bad endpoints, no cancellation and no total-distance result, because the source has none of them. The final distances and the edges the path takes are returned as ghost results, so that the contract can state shortness.
- `FindShortestPath` states the tie-break for each selection through `SelectMin`, `TiesGoToEarliestNode` and the loop invariant that `unvisited` keeps the order of `nodes`. It does not restate the tie-break over the whole trace.
