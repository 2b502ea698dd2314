# Domino tiling by maximum flow — a Dafny model of tiling.cpp

tiling.cpp decides whether a floor plan can be covered by 1×2 dominoes. The
floor is text: `' '` is an open cell, `'\n'` ends a row and any other
character is blocked. `has_tiling` colours the open cells like a chessboard
and rejects an odd number of cells or unequal colour counts at once. Otherwise
it builds a flow network: the source feeds every white cell, every black cell
drains into the sink, and each white cell feeds the black cells beside it. All
capacities are 1. The floor is accepted when the maximum flow (`max_flow`:
Edmonds–Karp with a breadth-first `augmenting_path`) equals the number of
white cells.

The model has five modules:

- `Graphs` (graph.dfy): the graph value shared by the algorithms. A vertex is
  an integer id. A graph maps each vertex to the weights of its out-edges, so
  the neighbour set is the key set of the weight map. It also has paths,
  reachability and sums of weights.
- `AugmentingPaths` (augmenting_path.dfy): the breadth-first search and the
  path reconstruction of `augmenting_path`.
- `MaxFlows` (max_flow.dfy): the residual copy with reverse edges, the
  unit-augmentation loop and the flow count of `max_flow`. `MaxFlow` also
  returns the final residual graph and the number of rounds, which tiling.cpp
  discards, so that contracts can speak about them.
- `Tiling` (tiling.dfy): the floor scan, the two colourings, the network
  wiring and the verdict of `has_tiling`.
- `WrapExample` (wrap_example.dfy): one floor worked through the whole model.

`has_tiling` colours each cell twice, and the model keeps both:

- **Scan colour.** While scanning, the colour comes from the running column and
  row. It decides the source and sink edges and the counts.
- **Wiring colour.** While wiring, the colour comes from `index % rowLength` and
  `index / rowLength`. It decides which cells get grid edges.

The right-hand neighbour probe never checks that the column is inside the row.
A wiring-white cell in the last column is therefore joined to the first cell of
the next row, whatever the row length. The model keeps this behaviour.
`WrapExample` shows its effect: the floor `"###\n## \n ##"` has two open cells
that are not neighbours, yet `has_tiling` accepts it.

Some definitions carry no contract of their own. Their meaning is stated by
lemmas about them:

- `MaxFlows.Augment` is the weight-update loop of `max_flow`
  (tiling.cpp:145-149). The `Augment*` lemmas and `Push` state what it does.
- `Tiling.IsBlackAt` is the scan colour (tiling.cpp:200). `Tiling.WiringBlack`
  is the wiring colour (tiling.cpp:248-251).
- `Tiling.WireTargets` is the neighbour probing of a wiring-white cell
  (tiling.cpp:248-272). The `WireTargets*`, `Network*` and `RightEdgeWraps`
  lemmas state its properties.
- `Tiling.SourceRow` is the source's row of edges to the scan-white cells
  (tiling.cpp:231-235). `Tiling.Network` states it.

## Model

| member | source | states |
|---|---|---|
| AugmentingPaths.AugmentingPath | tiling.cpp:10-81 | the answer is true exactly when the sink can be reached from the source over nonzero-weight edges; the returned path then runs from the source to the sink, repeats no vertex, and is no longer than any other such path |
| AugmentingPaths.Search | tiling.cpp:37-64 | the discovered vertices and their discovery links form a tree rooted at the source whose links are nonzero edges; the discovered set is closed under nonzero edges, and each such edge out of a discovered vertex leads at most one layer further out |
| AugmentingPaths.Explore | tiling.cpp:46-63 | one queue round keeps the search invariant: the queue stays in layer order over at most two layers, the head becomes explored, and only neighbours of the head are newly discovered |
| AugmentingPaths.Discover | tiling.cpp:51-62 | a neighbour across a nonzero edge that is not yet discovered joins the queue within one layer of the current vertex; nothing else is discovered |
| AugmentingPaths.TracePath | tiling.cpp:70-78 | following the discovery links back from the sink and reversing yields a path from the source to the sink without repeats, whose length is the sink's layer plus one |
| AugmentingPaths.WithinLayers | tiling.cpp:46-64 | the i-th vertex of any path from the source through a region closed under nonzero edges lies at most i layers out, so no path is shorter than the layer of its end |
| AugmentingPaths.Reverse | tiling.cpp:77-78 | the result has the input's length and holds the input's elements in reverse order |
| MaxFlows.BuildResidual | tiling.cpp:110-135 | the copy keeps every edge of the input graph with its weight, adds each missing reverse edge with weight 0, keeps existing reverse edges unchanged, and leaves no edge without its reverse |
| MaxFlows.AddReverseEdges | tiling.cpp:127-135 | handling one vertex gives every edge out of it a reverse edge, adds only weight-0 reverses, and changes no weight of the input graph |
| MaxFlows.Push | tiling.cpp:147-148 | pushing a unit across u→v lowers that weight by one and raises the reverse weight by one; every other weight is unchanged, and so is the two-way total of every pair |
| MaxFlows.AugmentKeepsPairSums | tiling.cpp:145-149 | updating along a path keeps the two-way total r(u,v) + r(v,u) of every pair of vertices |
| MaxFlows.AugmentOffPath | tiling.cpp:145-149 | a vertex not on the path keeps all its outgoing weights |
| MaxFlows.AugmentFirstRow | tiling.cpp:145-149 | along a path without repeats, the first vertex loses exactly one unit on its first edge and nothing else |
| MaxFlows.AugmentNonNegative | tiling.cpp:145-149 | updating along a path of nonzero edges without repeats keeps every weight non-negative |
| MaxFlows.AugmentRowSums | tiling.cpp:145-149 | along a path without repeats, the total weight out of the first vertex drops by one, that of the last vertex rises by one, and every other vertex keeps its total |
| MaxFlows.PushRowSums | tiling.cpp:147-148 | one push moves one unit of row total from the tail of the edge to its head and changes no other row total |
| MaxFlows.RoundRowSums | tiling.cpp:142-149 | one round from source to sink leaves the row total of every other vertex unchanged (flow conservation) and raises the sink's by one |
| MaxFlows.AugmentRound | tiling.cpp:142-149 | one round keeps the residual graph symmetric, non-negative and with the same pair totals, and lowers the total weight out of the source by exactly one |
| MaxFlows.InitialResidual | tiling.cpp:110-135 | for non-negative capacities the initial copy is a residual graph of the input, and each of its weights is the capacity of that edge |
| MaxFlows.InitialRowSums | tiling.cpp:119-135 | the initial copy has the row totals of the input graph, because every added reverse edge weighs zero |
| MaxFlows.ResidualPreserved | tiling.cpp:138-150 | a graph with the same shape, non-negative weights and the same pair totals as a residual graph is again a residual graph of the input |
| MaxFlows.UnitSourceWeights | tiling.cpp:153-155 | when every source edge has capacity 1 and nothing enters the source, the residual source row has the input's neighbours, each with weight 0 or 1 |
| MaxFlows.FlowOut | tiling.cpp:152-155 | the flow value is the number of neighbours of the source minus the total residual weight out of it |
| MaxFlows.EdmondsKarp | tiling.cpp:137-150 | the loop ends with no augmenting path left; every round keeps symmetry, non-negativity and pair totals and conserves flow at every other vertex; the source total drops and the sink total rises by the number of rounds |
| MaxFlows.MaxFlow | tiling.cpp:85-162 | the final graph is a residual graph of the input with no source-to-sink path, and it conserves flow at every vertex but the source and the sink; with unit source edges, the flow equals the number of rounds and the number of used-up source edges, and lies between 0 and the source's degree |
| Graphs.SumCountsZeros | tiling.cpp:153-155 | over 0/1 weights, the key count minus the weight total is the number of zero weights, and the total lies between 0 and the key count |
| Graphs.ZeroKeysAll | tiling.cpp:286 | every weight is zero exactly when the zero weights are as many as the keys |
| Tiling.RowLength | tiling.cpp:167-168 | the row length is the offset of the first line break: no line break comes before it, and it is either the whole length or the offset of a line break |
| Tiling.Col | tiling.cpp:178-213 | the column of an offset is its distance from the previous line break, or from the start when there is none |
| Tiling.GridIndexBounds | tiling.cpp:181-212 | grid indices are non-negative, never decrease, and grow past every character that is not a line break |
| Tiling.GridIndexInjective | tiling.cpp:196-198 | two different open cells never share a grid index |
| Tiling.ScanStep | tiling.cpp:186-213 | reading one character keeps the scan state: running column, row and grid index, the cells found so far, and their counts by colour |
| Tiling.ParseFloor | tiling.cpp:178-213 | the scan yields exactly the open cells of the floor, keyed by grid index with their scan colour, with the black count and white count equal to the numbers of such cells |
| Tiling.CellsBeforeMembers | tiling.cpp:196-208 | every open cell is recorded under its grid index with its scan colour, every recorded index comes from an open cell, and all indices lie below the current grid index |
| Tiling.AddBlackCell | tiling.cpp:200-203 | a new cell raises the black count by one exactly when it is black |
| Tiling.AddWhiteCell | tiling.cpp:204-207 | a new cell raises the white count by one exactly when it is white |
| Tiling.CellsSplit | tiling.cpp:200-207 | every open cell is black or white and none is both, so the two counts add up to the cell count |
| Tiling.Network | tiling.cpp:227-281 | the network has the cells, the source and the sink as vertices; it is closed and all capacities are 1; the source feeds exactly the scan-white cells and nothing enters it; the sink has no out-edges; and a cell drains into the sink exactly when it is scan-black |
| Tiling.NetworkAdjacent | tiling.cpp:248-272 | between grid neighbours there is an edge exactly when the first cell is wiring-white and the second is an open cell |
| Tiling.NetworkLocal | tiling.cpp:248-272 | every edge between cells leaves a wiring-white cell and ends at a grid neighbour, or at the cell just past the end of the row |
| Tiling.WireTargetsAdjacent | tiling.cpp:253-272 | a grid neighbour is a wire target exactly when the cell is wiring-white and the neighbour is open |
| Tiling.WireTargetsLocal | tiling.cpp:253-272 | every wire target is open, belongs to a wiring-white cell, and is its grid neighbour or the cell just past the end of its row |
| Tiling.RightEdgeWraps | tiling.cpp:253-269 | a cell in the last column is joined to the first cell of the next row exactly when it is wiring-white, and that cell is then wiring-black exactly when the row length is odd |
| Tiling.WrapColour | tiling.cpp:248-251 | the first cell of the next row has the same wiring colour as a wiring-white last-column cell when the row length is even, and the other colour when it is odd |
| Tiling.FlowVerdict | tiling.cpp:275-303 | the final residual network is a residual of the tiling network, conserves flow, and has no augmenting path; the answer is yes exactly when it leaves no capacity out of the source |
| Tiling.Decide | tiling.cpp:215-303 | an odd number of cells or unequal colour counts gives no; balanced counts give the flow verdict on the network |
| Tiling.HasTiling | tiling.cpp:165-304 | an odd number of open cells or unbalanced colours gives no; otherwise the answer is yes exactly when the max-flow residual of the floor's network, which conserves flow and has no augmenting path, leaves no capacity out of the source |
| WrapExample.FloorCells | tiling.cpp:167-213 | the floor "###\n## \n ##" has row length 3 and the open cells 5 (scan-white) and 6 (scan-black) |
| WrapExample.FloorNetwork | tiling.cpp:227-281 | the network of that floor is exactly source → 5 → 6 → sink; the edge 5 → 6 comes from the right-hand probe wrapping past the end of row 1 |
| WrapExample.WhiteTargets | tiling.cpp:248-272 | cell 5 is wiring-white and its only wire target is cell 6 |
| WrapExample.CellsApart | tiling.cpp:248-249 | cells 5 and 6 are not grid neighbours for row length 3 |
| WrapExample.LeakReaches | tiling.cpp:138-150 | in a flow-conserving residual of that network, an unused source edge leaves the path source → 5 → 6 → sink open |
| WrapExample.FloorSaturated | tiling.cpp:138-155 | every flow-conserving residual of that network without an augmenting path has used up the source |
| WrapExample.AcceptsFloor | tiling.cpp:165-304 | `has_tiling` accepts that floor although its two open cells are not neighbours and no domino can cover them |

## Left out

- The `cerr`/`abort` checks of `augmenting_path` and `max_flow` become preconditions. Null vertices do not exist in the model. Source and sink must be vertices. The "every neighbour has a weight" check holds by construction, because neighbours are the keys of the weight map.
- AugmentingPaths.AugmentingPath: tiling.cpp visits neighbours in hash order, so when several shortest paths exist it returns one that depends on that order. The model leaves the choice arbitrary and states only what every such path satisfies.
- AugmentingPaths.AugmentingPath: an id that is not a key of the graph has no out-edges in the model. The search in tiling.cpp follows the `neighs` of any vertex it dequeues, including a neighbour outside the vertex set, whose own edges the validity check never looked at. On such a graph tiling.cpp can find a path that the model calls unreachable. `max_flow` never passes such a graph, because it requires every neighbour to be a vertex (`Closed`).
- `new`/`delete` and vertex addresses are not modelled. Vertices are integer ids, graphs are immutable values, and the residual "deep copy" is a new map value.
- MaxFlows.MaxFlow: requires every neighbour to be a vertex of the graph (`Closed`). In tiling.cpp, `C[np]` on such a neighbour is a null copy that is then dereferenced.
- MaxFlows.MaxFlow: requires non-negative capacities, as the function's comment assumes.
- MaxFlows.MaxFlow: requires source and sink to differ. With equal endpoints the path is `[s]`, no weight changes, and the loop never ends.
- MaxFlows.MaxFlow: does not state that the result is a maximum flow (max-flow/min-cut). It states only the residual invariants, flow conservation, and that no augmenting path is left. Unit augmentation is a maximum flow only for 0/1 capacities, and general capacities are out of scope.
- Tiling.HasTiling: the floor is a sequence of Unicode characters, while tiling.cpp reads its `std::string` one byte at a time. A character that takes several bytes in UTF-8 is one blocked cell in the model but several blocked cells in tiling.cpp. That shifts the columns, grid indices, row length and colours. For `"# \né "` the model finds a white cell 1 and a black cell 3 joined by an edge and answers yes, while tiling.cpp sees two white cells and answers no. For ASCII floors the two agree.
- Tiling.ParseFloor: counts columns and grid indices in characters, not bytes, for the same reason. The two agree on ASCII floors.
- Tiling.HasTiling: does not state "accepted exactly when a domino tiling exists". That is false for this code because of the right-hand wrap, which `WrapExample.AcceptsFloor` exhibits.
- Tiling.HasTiling: requires that a floor starting with a line break has no balanced non-empty set of cells. In that case tiling.cpp computes `index % rowLength` with `rowLength == 0`.
- `int` and `size_t` arithmetic is unbounded in the model: counters, grid indices and `gy * rowLength + gx` do not overflow. In `has_tiling`, where every capacity is 1, overflow would need floors of over 2^31 characters.
- MaxFlows.MaxFlow: does not model 32-bit `int` overflow. It accepts any non-negative capacities, but in tiling.cpp the residual weights (`++weights[...]`, tiling.cpp:148) and the flow sum (tiling.cpp:153-155) are `int`. With capacities near 2^31 they overflow on a graph of a few vertices, which is undefined behaviour in C++. For example, take source 0, sink 3 and two source edges of capacity 2147483647 to vertices 1 and 2 with no path onwards. The model returns `flow == 2 - 2 * 2147483647`, a value below the `int` range.
- vertex.h and tiling.h are not part of this model. The `Vertex` record is replaced by the graph map described above.
