# Skiing: longest, then steepest, downhill path on an elevation grid

This project is a Dafny model of the helper module of the *skiing* program
(`src/skiingHelper.js`). The program reads a rectangular map of elevations.
It then finds the longest path a skier can take: each step moves north,
south, east or west to a strictly lower cell. Among the longest paths it
keeps the steepest ones, those whose first elevation minus last elevation
is greatest.

The helper does this in steps. The Dafny modules follow the same steps:

| module | file | the program's step |
|---|---|---|
| `JsValues` | `js_values.dfy` | JavaScript values the helper relies on: reads past the end of an array (`undefined`, here `Option`), `-Infinity` (here `ExtInt.NegInf`), `R.max`, the reduction `max`, `%` and `filter` |
| `Grid` | `grid.dfy` | `getNewsSurroundings` and the four edge predicates |
| `Roots` | `roots.dfy` | `hasNoIncommingPath` and `getRootIndices`: the cells no neighbour is higher than |
| `Reachability` | `reach.dfy` | the set of cells a recursive fill reaches, used to specify `fillDagFromSkiMap` |
| `Descent` | `descent.dfy` | `initDag` and `fillDagFromSkiMap`. The DAG is an object whose keys the fill overwrites in place, so it is the class `DescentDag` with a `map` field. |
| `TopoSort` | `topo_sort.dfy` | `getTopologicallySortedOrder` (Kahn's algorithm) and `hasIncommingEdgeInDag` |
| `LongestPath` | `longest_path.dfy` | `findMaxDistanceAndPaths`, with its two arrays `distances` and `fromNodes` relaxed in topological order, and `getFullPath` / `getFullPaths` |
| `Selection` | `selection.dfy` | `getMaxDistanceFromRoots` and `getSteepestPaths` |
| `Pipeline` | `pipeline.dfy` | `getLongestPathsByEachRoots` and `getLongestSteepestPath` |
| `Parse` | `parse.dfy` | `parseToSkiMap` over the already-split integer tokens |
| `Examples` | `examples.dfy` | the unit tests' 4×4 map and their expected values, proved about the model |

The main results are:
- On a well-formed grid, `getNewsSurroundings` returns exactly the in-grid
  side neighbours.
- A root is exactly a cell with no higher neighbour.
- The filled DAG holds exactly the strictly downhill moves.
- Every path of the DAG that starts at a root is a descent on the map, and
  every descent from a root is a path of the DAG.
- Kahn's algorithm lists every node once, after all of its predecessors.
- The relaxation computes, for each cell, the length of the longest path
  to it from the root.
- Every path `getLongestSteepestPath` returns is a descent from a root, and
  no descent from a root is longer.
- On a map where cell 0 has no lower neighbour and some cell has one, the
  answer is complete. It is not empty, and every entry has the greatest drop
  among the longest descents. Every longest descent with that drop has an
  entry with the same first and last cell.

A well-formed grid here means a width of 2 to 4, a height of at least 2,
and exactly width × height elevations. The longest-path result also
assumes the elevations span at most `MAX_LOOP`.

`R.max(a, b)` is taken to be `b > a ? b : a`, so `NaN` never wins a
comparison. `maxSteep` at `src/skiingHelper.js:101` then skips the `NaN`
drop of an empty path. Later Ramda releases order `NaN` above every number.
Under that definition a single empty path would make `maxSteep` `NaN`, and
nothing would be selected.

The code and the unit tests disagree on `getSteepestPaths`. The test
(`src/skiingHelper.spec.js:185-201`) builds its input with a key `path` and
expects the keys `maxDistance`, `pathIndices` and `pathValues`. The code
reads `paths` and returns `drop`, `pathLength`, `pathIndex` and `pathValue`.
The model follows the code.

## Model

| member | source | states |
|---|---|---|
| JsValues.Elem | src/skiingHelper.js:303 | reading index `i` of an array gives a value exactly when `i` is in range, and that value is the element; otherwise `undefined` |
| JsValues.Plus1 | src/skiingHelper.js:194-195 | adding the edge weight 1 keeps `-Infinity` and raises a finite distance by exactly one |
| JsValues.Max | src/skiingHelper.js:3 | `R.max` returns one of its two arguments, and that argument is at least the other |
| JsValues.MaxOf | src/skiingHelper.js:3 | `reduce(R.max, -Infinity)` is an upper bound of every element, and it is either `-Infinity` or one of the elements |
| JsValues.JsRemNonNegative | src/skiingHelper.js:348 | for divisors 2 to 4 (the widths the grid theorems cover), JavaScript's `%` on a non-negative index agrees with the mathematical remainder |
| JsValues.Filter | src/skiingHelper.js:120-122 | `filter` keeps exactly the elements that satisfy the test, and never makes the array longer; order and repetitions are fixed by `FilterAppend` and `FilterSingle` |
| JsValues.FilterAppend | src/skiingHelper.js:120-122 | filtering a concatenation is the concatenation of the filtered parts, so the kept elements stay in their order |
| JsValues.FilterSingle | src/skiingHelper.js:120-122 | a one-element array keeps its element exactly when it passes the test, so every occurrence is judged on its own |
| JsValues.FilterSame | src/skiingHelper.js:120-122 | two tests that agree on every element of the array keep the same elements |
| Grid.NewsSurroundings | src/skiingHelper.js:300-344 | every case returns 2 to 4 `[index, skiMap[index]]` pairs, and each pair's elevation is the map's value at that index (`undefined` outside the map) |
| Grid.IsLeftEdge | src/skiingHelper.js:346-349 | `isLeftEdge`, with JavaScript's `%` and the bound `(y - 1) * 4`; its meaning on widths 2 to 4 is stated by `Grid.PositionOf` |
| Grid.IsTopEdge | src/skiingHelper.js:350-352 | `isTopEdge`: the index lies in the first row, from 0 up to but not including `x`; its meaning is stated by `Grid.PositionOf` |
| Grid.IsRightEdge | src/skiingHelper.js:353-356 | `isRightEdge`, with JavaScript's `%`; its meaning is stated by `Grid.PositionOf` |
| Grid.IsBottomEdge | src/skiingHelper.js:357-360 | `isBottomEdge`: the index lies in the last `x` cells; its meaning is stated by `Grid.PositionOf` |
| Grid.PositionOf | src/skiingHelper.js:346-360 | for widths 2 to 4, each edge predicate holds exactly on its row or column of the grid: left is column 0, top is row 0, right is the last column, bottom is the last row |
| Grid.Position | src/skiingHelper.js:346-360 | the same on any well-formed map, giving the row and column of each cell |
| Grid.InGridNeighboursAreAdjacent | src/skiingHelper.js:300-344 | the in-grid side neighbours of a cell are exactly the cells that share a side with it, and there are 4 minus the number of borders the cell touches |
| Grid.NewsSurroundingsExact | src/skiingHelper.js:300-360 | on a well-formed map, the indices `getNewsSurroundings` returns are the in-grid side neighbours in north, west, east, south order, and every elevation it returns is defined |
| Grid.NeighboursAreAdjacent | src/skiingHelper.js:300-360 | on a well-formed map, an index is returned by `getNewsSurroundings` if and only if it shares a side with the cell |
| Grid.LeftEdgeQuirk | src/skiingHelper.js:346-349 | on a 5-wide map, cell 10 is in the left column but fails `isLeftEdge` because of the `(y - 1) * 4` bound. It is then handled as a plain bottom-edge cell, and cell 9, at the end of the row above, is returned as its west neighbour. |
| Roots.HasNoIncomingPath | src/skiingHelper.js:286-291 | `hasNoIncommingPath`: every neighbour's elevation is at most the cell's (`undefined` compares false); its meaning is stated by `Roots.RootIsLocalMaximum` |
| Roots.RootIsLocalMaximum | src/skiingHelper.js:286-291 | `hasNoIncommingPath` holds if and only if no side neighbour is strictly higher than the cell |
| Roots.IndicesWhere | src/skiingHelper.js:161 | `skiMap.map((_, i) => i).filter(keep)` lists exactly the indices below `n` that pass the test, in increasing order |
| Roots.GetRootIndices | src/skiingHelper.js:160-164 | the roots are exactly the cells satisfying `hasNoIncommingPath`, listed in increasing order |
| Descent.Lower | src/skiingHelper.js:275-276 | an index is kept if and only if it belongs to a neighbour whose elevation is defined and strictly below the cell's, and no more indices than neighbours are returned |
| Descent.SkiableSurroundings | src/skiingHelper.js:274-276 | every skiable surrounding is a cell of the map strictly lower than the cell |
| Descent.SkiableAreLowerAdjacent | src/skiingHelper.js:272-276 | on a well-formed map, a cell is a skiable surrounding if and only if it shares a side with the cell and is strictly lower |
| Descent.SkiableIncreasing | src/skiingHelper.js:274-276 | on a well-formed map, the skiable surroundings are in increasing order, so they never repeat |
| Descent.InitDag | src/skiingHelper.js:170-175 | the DAG starts with exactly the roots as keys, each with an empty list |
| Descent.DescentDag.Fill | src/skiingHelper.js:272-284 | filling from a cell overwrites, for every cell reachable downhill from it, its entry with that cell's skiable surroundings, and leaves all other entries unchanged |
| Descent.DescentDag.FillFromRoots | src/skiingHelper.js:36-39 | filling from every root in turn adds the whole descent graph of the roots to the DAG |
| Descent.InitThenFill | src/skiingHelper.js:30-39 | filling overwrites every empty root entry that `initDag` created, so the DAG afterwards is exactly the descent graph |
| Descent.DescentGraphShape | src/skiingHelper.js:272-284 | the filled DAG goes strictly downhill, names only its own keys, lists for each key the key's skiable surroundings, and every key is a root or has an incoming edge |
| Descent.RootNotSkiable | src/skiingHelper.js:286-291 | no cell can ski into a root |
| Descent.DescentGraphReady | src/skiingHelper.js:23-39 | on a well-formed map, the DAG filled from the roots is ready for Kahn's algorithm: it descends, its roots are distinct and have no incoming edge, and every other key has one |
| Descent.GraphPathIsDescent | src/skiingHelper.js:272-284 | every path of the filled DAG that starts at a root moves only between side neighbours, to strictly lower cells |
| Descent.DescentIsGraphPath | src/skiingHelper.js:272-284 | every such descent from a root is a path of the filled DAG |
| Descent.DescentGraphFaithful | src/skiingHelper.js:272-284 | the two together: from the roots, the paths of the DAG are exactly the descents of the map |
| Descent.DescentDrops | src/skiingHelper.js:275 | along a descent of `n` steps the elevation drops by at least `n` |
| Descent.ClimbToRoot | src/skiingHelper.js:160-164 | on a well-formed map, every cell is the last cell of a descent that starts at a root |
| Descent.DescentBounded | src/skiingHelper.js:275 | no descent has more steps than the highest elevation minus the lowest |
| Reachability.Reach | src/skiingHelper.js:280-282 | the cells a recursive fill from a cell visits contain the cell, and all are at most as high |
| Reachability.ReachClosed | src/skiingHelper.js:280-282 | what a fill reaches is closed under the DAG's edges |
| Reachability.ReachHasPredecessor | src/skiingHelper.js:280-282 | every cell a fill reaches, other than its start, has a reached predecessor |
| Reachability.FillCovers | src/skiingHelper.js:36-39 | filling from every root overwrites every entry the initial DAG had |
| TopoSort.TopologicallySortedOrder | src/skiingHelper.js:241-270 | Kahn's algorithm lists only keys of the DAG. When the DAG is ready, it lists each key exactly once, and no node comes before any of its predecessors. |
| TopoSort.HasIncomingEdge | src/skiingHelper.js:266-270 | `hasIncommingEdgeInDag`: some list of the DAG contains the node; `TopoSort.RootedShape` and `Descent.DescentGraphReady` state when it holds |
| TopoSort.AllOrdered | src/skiingHelper.js:246-262 | when the work list is empty, every node reachable from the roots has been listed |
| TopoSort.ClearShrinks | src/skiingHelper.js:251 | `dag[n] = []` never adds list entries and removes at least one when the list was not empty, which bounds the loop |
| TopoSort.RootedShape | src/skiingHelper.js:266-270 | a descending DAG whose keys are roots or successors names only its own keys, and each non-root key has an incoming edge |
| LongestPath.Relax | src/skiingHelper.js:194-199 | one relaxation stores `distances[u] + 1` and predecessor `u` for `v` exactly when that beats the stored distance, and changes nothing otherwise |
| LongestPath.RelaxOutEdges | src/skiingHelper.js:193-200 | relaxing all edges out of one node in sorted order keeps the distance table consistent and extends the longest-path invariant over that node |
| LongestPath.RelaxInOrder | src/skiingHelper.js:192-201 | relaxing every node in a topological order leaves, in each cell, the length of the longest DAG path to it from the root, with a matching predecessor |
| LongestPath.FindMaxDistanceAndPaths | src/skiingHelper.js:181-218 | the result's `maxDistance` is the maximum of the distances, and its `paths` are the full paths of the cells at that distance. Given a topological order, the distances and predecessors are those of longest paths from the root, and the result is longest. |
| LongestPath.Trace | src/skiingHelper.js:223-228 | following predecessors back from a cell ends at the cell, goes through linked cells only, and stops at the start or after `MAX_LOOP` steps |
| LongestPath.FullPath | src/skiingHelper.js:221-229 | the full path is empty exactly when the predecessor entry is falsy. Otherwise it ends at the cell, each cell follows its recorded predecessor, and it starts at the start unless it ran `MAX_LOOP` steps. |
| LongestPath.GetFullPath | src/skiingHelper.js:221-229 | the loop returns the path `FullPath` describes |
| LongestPath.FullPaths | src/skiingHelper.js:231-236 | one full path per cell, in cell order |
| LongestPath.OfDistance | src/skiingHelper.js:205-210 | mapping to `null` and filtering by truthiness keeps, in cell order, the path of each cell at the given distance (an empty path is truthy and kept); it never returns more paths than cells |
| LongestPath.OfDistanceMembers | src/skiingHelper.js:205-210 | a path is kept if and only if it belongs to a cell at the maximum distance |
| LongestPath.LongestBound | src/skiingHelper.js:192-201 | no path from the root to a cell is longer than the cell's final distance |
| LongestPath.Chain | src/skiingHelper.js:192-201 | every cell with a finite distance has a DAG path from the root of exactly that length |
| LongestPath.TraceAlong | src/skiingHelper.js:223-228 | following predecessors from the `n`th cell of a predecessor chain gives back the chain's first `n + 1` cells |
| LongestPath.FullPathAlong | src/skiingHelper.js:221-229 | a predecessor chain from the start, no longer than `MAX_LOOP` steps and whose second-to-last cell is not 0, is what `getFullPath` returns for its last cell |
| LongestPath.ChainLinked | src/skiingHelper.js:196-198 | the longest path to a cell follows the recorded predecessors back to the root |
| LongestPath.FullPathIsLongest | src/skiingHelper.js:221-229 | when the predecessor is truthy, the full path of a cell is a longest DAG path from the root to that cell |
| LongestPath.MaxReached | src/skiingHelper.js:203 | the maximum distance is finite and at least 0, and some path from the root has exactly that length |
| LongestPath.MaxBounds | src/skiingHelper.js:203 | no path from the root is longer than the maximum distance, and a path of that length ends at a cell with that distance |
| LongestPath.KeptPathsAreLongest | src/skiingHelper.js:203-210 | every non-empty path kept is a DAG path from the root of the maximum length |
| LongestPath.LongestEndsKept | src/skiingHelper.js:203-210 | every longest path from the root ends at a cell whose path is kept, unless that cell's predecessor is falsy |
| LongestPath.RootPathsAreLongest | src/skiingHelper.js:203-215 | the returned `{maxDistance, paths}` is longest from the root, and a kept path ends at each cell a longest path reaches, except when that cell's predecessor is 0 |
| LongestPath.DistanceMeaning | src/skiingHelper.js:188-201 | a finite distance is the length of a DAG path from the root to the cell, and every such path is no longer; a cell that a path reaches has a finite distance |
| LongestPath.ZeroPredecessorQuirk | src/skiingHelper.js:222 | a cell whose predecessor is cell 0 fails the test `!fromNodes[to]`, so its full path is empty although it is reachable |
| Selection.GetMaxDistanceFromRoots | src/skiingHelper.js:116-123 | the result is the input filtered by "no result has a greater distance", so the kept results are in input order with every occurrence; they are exactly the results with a maximal distance, and something is kept when there was a result |
| Selection.MaximalIsMax | src/skiingHelper.js:117-121 | a result with a maximal distance has the distance that `max` computes, and some result has it |
| Selection.Flatten | src/skiingHelper.js:92-94 | `R.chain` yields exactly the paths of all the results; order and repetitions are fixed by `FlattenAppend` and `FlattenSingle` |
| Selection.FlattenAppend | src/skiingHelper.js:92-94 | flattening a concatenation of results concatenates their flattenings, so paths come in result order |
| Selection.FlattenSingle | src/skiingHelper.js:92-94 | one result flattens to its own paths, in order and with repetitions |
| Selection.Steep | src/skiingHelper.js:96 | the drop of a path is a number exactly when the path is non-empty and both of its ends are on the map (otherwise `NaN`) |
| Selection.SameEndsSameDrop | src/skiingHelper.js:96 | two non-empty paths with the same first and last cell have the same drop |
| Selection.MaxSteep | src/skiingHelper.js:101 | `max` of the drops bounds every numeric drop and is one of them; it is `-Infinity` exactly when no drop is a number |
| Selection.SteepestOf | src/skiingHelper.js:102-105 | the filter keeps exactly the paths whose drop equals the maximum drop |
| Selection.SteepestOfAppend | src/skiingHelper.js:102-105 | the filter works part by part on a concatenation, keeping the paths in order |
| Selection.SteepestOfSingle | src/skiingHelper.js:102-105 | a single path is kept exactly when its drop is a number equal to the maximum |
| Selection.PathsOf | src/skiingHelper.js:110 | the `pathIndex` fields of a list of entries, one per entry, in order |
| Selection.ToEntry | src/skiingHelper.js:106-113 | the entry records the drop, the path, its length and the elevation at each index of the path |
| Selection.EntriesAreSteepest | src/skiingHelper.js:102-113 | every entry comes from a non-empty path with the greatest drop |
| Selection.SteepestAreEntries | src/skiingHelper.js:102-113 | every path with the greatest drop gives an entry |
| Selection.GetSteepestPaths | src/skiingHelper.js:91-114 | the entries' paths, in order, are the flattened paths filtered by "the drop is the maximum drop", with every occurrence; each entry records its drop, length and elevations; every path with the greatest drop has an entry |
| Selection.SomethingSelected | src/skiingHelper.js:91-114 | when some path has a numeric drop, at least one entry is returned |
| Selection.SteepestIsSelected | src/skiingHelper.js:91-114 | a path whose drop no path exceeds has an entry |
| Pipeline.GetLongestPathsByEachRoots | src/skiingHelper.js:131-152 | one result per root, in root order. Each is the run from its root: its `maxDistance` is the maximum of that run's distances, and its `paths` are the rebuilt paths of the cells at that distance, in cell order. When the order is sorted for the root, the run's tables are those of longest paths and the result is longest from the root. |
| Pipeline.GetLongestSteepestPath | src/skiingHelper.js:21-74 | the answer is `getSteepestPaths` over the results `getMaxDistanceFromRoots` keeps, with one result per root. On a well-formed map each result is longest from its root. If the elevations also span at most `MAX_LOOP`, every entry is a descent from a root that no descent from a root is longer than (`LongestAnswer`). On a `WellBehaved` map the answer is also complete (`CompleteAnswer`). It is not empty, and every entry is a longest descent whose drop, which it records, no longest descent exceeds. Every such descent has an entry with its first and last cell. |
| Pipeline.SortedRuns | src/skiingHelper.js:44-60 | when the DAG is ready and Kahn's order lists every key once after its predecessors, every root's run has longest-path tables and a longest result |
| Pipeline.ReadyIsSorted | src/skiingHelper.js:44-60 | Kahn's order over a ready DAG is a valid order for the longest-path search from every root |
| Pipeline.SelectedAreLongest | src/skiingHelper.js:44-68 | every entry selected from longest results over the descent graph is a descent from a root, and no descent from a root is longer |
| Pipeline.SelectedIsLongest | src/skiingHelper.js:64-68 | the same for one selected entry |
| Pipeline.PathOfRootIsLongest | src/skiingHelper.js:64-66 | a path of a result with the maximal distance is a descent from a root, and no descent from a root is longer |
| Pipeline.AnswerIsComplete | src/skiingHelper.js:64-68 | on a `WellBehaved` map, the selection over longest results is not empty, sound and complete (`CompleteAnswer`) |
| Pipeline.TruthyPredecessor | src/skiingHelper.js:221-222 | when cell 0 has no lower neighbour, no cell records 0 as its predecessor, so every reached cell other than the start passes `!fromNodes[to]` |
| Pipeline.LongDescentExists | src/skiingHelper.js:272-276 | when some cell has a lower neighbour, some descent from a root takes at least one step |
| Pipeline.GreatestResult | src/skiingHelper.js:116-123 | some result has a distance no result exceeds |
| Pipeline.GreatestIsLongest | src/skiingHelper.js:116-123 | the longest path from the root of such a result is a longest descent |
| Pipeline.LongestTakesStep | src/skiingHelper.js:64 | on a `WellBehaved` map some longest descent takes at least one step |
| Pipeline.RootOfLongest | src/skiingHelper.js:116-123 | the root a longest descent starts at has that descent's length as its distance, and its result is kept by `getMaxDistanceFromRoots` |
| Pipeline.KeptEnd | src/skiingHelper.js:203-210 | when cell 0 has no lower neighbour, a longest descent of at least one step from the run's root has a kept path from that root to the same last cell |
| Pipeline.LongestIsKept | src/skiingHelper.js:203-210 | the same over all kept results: a longest descent of at least one step has a path among them with its first and last cell |
| Pipeline.KeptIsLongest | src/skiingHelper.js:64 | every non-empty path of a kept result is a longest descent |
| Pipeline.AllKeptAreLongest | src/skiingHelper.js:64 | the same for all kept paths at once (`KeptAreLongest`) |
| Pipeline.AllLongestAreKept | src/skiingHelper.js:203-210 | the same as `LongestIsKept` for all longest descents at once (`LongestAreKept`) |
| Pipeline.SelectionNotEmpty | src/skiingHelper.js:101-105 | when every longest descent that steps has a kept copy and one such descent exists, at least one entry is returned |
| Pipeline.SelectionSound | src/skiingHelper.js:101-113 | every entry is a longest descent whose drop no longest descent exceeds, and it records that drop |
| Pipeline.SteepestKeptIsSteepest | src/skiingHelper.js:101-105 | a kept path with the greatest drop among kept paths has the greatest drop among longest descents |
| Pipeline.SelectionComplete | src/skiingHelper.js:101-113 | every longest descent whose drop no longest descent exceeds has an entry with its first and last cell |
| Pipeline.SteepestIsKept | src/skiingHelper.js:101-105 | such a descent has a kept copy with its ends, whose drop no kept path exceeds |
| Parse.ParseToSkiMap | src/skiingHelper.js:5-13 | `x` and `y` are the first two tokens. The elevations are the tokens from the third up to, but not including, the last. There is no map (an undefined width or height) exactly when fewer than two tokens were read. |
| Parse.ParseRender | src/skiingHelper.js:5-13 | writing a map as width, height, elevations and one trailing token, then parsing it, gives the map back |
| Examples.NewsExample | src/skiingHelper.spec.js:5-57 | the test's expected surroundings of cells 0, 7 and 5 of the 4×4 map |
| Examples.RootExample | src/skiingHelper.spec.js:59-61 | cell 13 of the test map is a root, although its neighbour 12 is equally high |
| Examples.FullPathExample | src/skiingHelper.spec.js:131-150 | with the test's predecessor table, the full path to cell 14 is `[1, 5, 9, 10, 14]`, and the paths to the start and to an unreached cell are empty |
| Examples.FlattenExample | src/skiingHelper.spec.js:185-201 | `R.chain` over two root results lists their paths in order |
| Examples.EntryExample | src/skiingHelper.spec.js:185-201 | the path `[6, 5, 9, 10, 14]` has a drop of 8 and elevations 9, 5, 3, 2, 1 |
| Examples.SteepestOfTwo | src/skiingHelper.js:91-114 | with two paths the second steeper, only the second is selected |
| Examples.SteepestExample | src/skiingHelper.spec.js:185-201 | on the test's two paths the steepest is `[6, 5, 9, 10, 14]`, with a drop of 8 and length 5, as the code computes it |

## Left out

- Console logging, the timing and HTTP input of `src/index.js`, and the splitting of the response text on whitespace and `parseInt` are not modelled. `Parse.ParseToSkiMap` takes the already-parsed integer tokens, so `NaN` tokens are not represented.
- Parse.ParseToSkiMap: its `None` stands for the object whose `x` or `y` is `undefined` when fewer than two tokens are read; the model does not carry the partial object further.
- The optional `getEdge` argument of `findMaxDistanceAndPaths` is never passed by the program, so the edge weight is fixed at 1.
- LongestPath.FindMaxDistanceAndPaths: requires that every node of the order is a key of the DAG, and that every node and successor is a cell of the map. A missing key makes the program throw (`dag[nodeIndex].forEach` on `undefined`), which is not modelled. An index off the map is a no-op in the program: `undefined < nextDist` is false, and so is every comparison with `NaN`. The model leaves that case out. The only caller, `getLongestPathsByEachRoots` on the filled DAG, meets both conditions.
- TopoSort.TopologicallySortedOrder: requires every root to be a key and every listed node to be a key. The program throws on a missing key. Its correctness is only stated for a DAG that is ready (descending, roots without incoming edges, every other key with one).
- LongestPath.GetFullPath: requires a predecessor table in which each predecessor is on the map and is the start or has a predecessor itself. This is what the relaxation produces. Arbitrary tables, where the program would read `undefined` and loop, are not modelled.
- The grid theorems (`Grid.NewsSurroundingsExact` and those built on it) are stated only for widths 2 to 4. The bound `(y - 1) * 4` in `isLeftEdge` makes wider maps wrong, as `Grid.LeftEdgeQuirk` shows. They are also stated only for heights of at least 2 and for exactly width × height elevations.
- Pipeline.GetLongestSteepestPath: its longest-descent guarantee (`LongestAnswer`) needs elevations that span at most `MAX_LOOP`, because longer walks are cut by the loop bound in `getFullPath`.
- Pipeline.GetLongestSteepestPath: completeness (`CompleteAnswer`) is promised only on a `WellBehaved` map, for two reasons. First, a cell whose recorded predecessor is cell 0 gets an empty full path (see `LongestPath.ZeroPredecessorQuirk`), so the answer can miss longest descents or be empty. Second, on a map where no cell has a lower neighbour (such as a 2×2 map of equal elevations) every root's only kept path is its own empty path. That path has a `NaN` drop, so the answer is empty.
- Pipeline.GetLongestSteepestPath: completeness matches entries to descents by their first and last cell. When two longest descents share both ends, the program rebuilds only the one its predecessor table records.
- LongestPath.RootPathsAreLongest: the same falsy-0 exception applies to the completeness half.
- Descent.DescentDag.Fill: the recursion is modelled, but the string keys of the JavaScript object and `parseInt(_index, 10)` are modelled as integer keys.
- Concurrency, floating-point arithmetic and integer overflow do not arise: all distances and elevations are unbounded integers. JavaScript numbers would lose precision only beyond 2^53.
