# graph-route-finder in Dafny

A model of the `Graph` class of graph-route-finder (`graph.js`). The class holds a weighted directed graph as an adjacency store: source node, then neighbour, then edge cost. It has seven operations:

- `refresh` replaces the store.
- `from(node)` returns the neighbour map of a node.
- `to(node)` lists the sources with an edge into a node.
- `set` adds an edge or overwrites its cost, in place.
- `remove` deletes an edge, in place.
- `findRoutes(start, end, options)` enumerates routes best-first. The queue of partial routes is kept sorted by cost. The cheapest route is taken off the queue. It is collected when it has a nonzero cost and ends at `end`. It is extended along every neighbour whose edge key `"<from>-<to>"` has been used fewer than `pathReuseLimit` times. Afterwards the collected routes are filtered by their number of stops.
- `calculate(route)` sums the edge costs along an explicit route, and fails with "No Such Route" on a pair with no usable edge.

Modules:

- `Wrappers`: `Option`, `Result`.
- `Adjacency`: the store as a `map<Node, map<Node, nat>>`, and the pure effect of `set`, `remove` and `to` on it.
- `Walks`: walks, their path cost, edge keys and use counts.
- `Calculation`: `calculate`, as written and corrected.
- `Search`: routes, options, the stable sort, the stop filter, one expansion step, and the termination measure of the search.
- `GraphClass`: the class `Graph`. It has one mutable field `nodes`. Its methods change that field under `modifies this`, and its functions `reads this`.

Design decisions:

- `findRoutes` is a method with the `while` loop of graph.js:80-110. Its invariants say four things:
  - every queued route is a valid walk from `start`;
  - its cost is the sum of its edges;
  - its counter holds the use count of each edge key, which stays within the reuse limit;
  - both the queue and the collected list stay sorted, and nothing queued costs less than the last route collected.
- The loop is proved to terminate, also on graphs with cycles. Every iteration lowers the summed weight of the queue. The weight of a route is `Weight(b) = 1 + d * Weight(b - 1)`, where `b` is the reuse budget the route has left and `d` is the largest out-degree.
- JavaScript's `for..in` visits integer-like keys (such as `"1"` and `"10"`) first, in ascending numeric order, and the other keys in insertion order. Here that order is left unspecified: the loops in `to` and in one expansion take any remaining key.
- `Array.prototype.sort` is stable, so the sort is modelled as a stable insertion sort.

## Model

| member | source | states |
|---|---|---|
| GraphClass.Graph.constructor | graph.js:8-10 | the store of a new graph is the given one, empty by default |
| GraphClass.Graph.Refresh | graph.js:16-18 | the store is replaced by the given one, empty by default |
| GraphClass.Graph.From | graph.js:24-26 | a neighbour map is returned exactly when the node is a source, and it is that node's row |
| GraphClass.Graph.To | graph.js:32-40 | the nested scan returns exactly the sources with an edge into `node`, each mapped to `{node: cost}` |
| Adjacency.Predecessors | graph.js:32-40 | a source is a key of the result exactly when it has an edge into `node`, and its value is the singleton map of that edge |
| Adjacency.PredecessorsAfterSet | graph.js:32-51 | after `set(s, node, c)`, `to(node)` is the old result with `s` mapped to `{node: c}` and nothing else changed |
| Calculation.TestGraphPredecessorsB | graph.test.js:33-35 | on the test graph, the sources into B are A with `{B: 1}` and E with `{B: 3}` |
| Adjacency.SetEdge | graph.js:48-51 | edge `start -> end` then has cost `cost`; every other edge is unchanged; the sources gain `start`; every other row is unchanged |
| GraphClass.Graph.Set | graph.js:48-52 | the store becomes `SetEdge` of the old store, and the store is returned |
| Adjacency.SetOverwrites | graph.js:48-51 | a second `set` of the same edge overwrites the first |
| Adjacency.RemoveEdge | graph.js:59-61 | edge `start -> end` is then absent; every other edge and the set of sources are unchanged; removing a missing edge changes nothing |
| GraphClass.Graph.Remove | graph.js:59-62 | the store becomes `RemoveEdge` of the old store, and the store is returned |
| Adjacency.RemoveIdempotent | graph.js:59-61 | removing the same edge twice equals removing it once |
| Adjacency.SetThenRemove | graph.js:48-61 | `remove` undoes a `set` of a new edge; the only remnant is an empty row when the source was new |
| Search.LimitOf | graph.js:71-73 | a limit is in force exactly when the option is given and nonzero, and then it is the option |
| Search.ReuseLimitOf | graph.js:74 | the reuse limit is the option when given and nonzero, else 1, and never below 1 |
| Search.InsertByCost | graph.js:109 | insertion adds exactly one route (multiset) |
| Search.InsertByCostSorted | graph.js:109 | insertion keeps a sorted queue sorted |
| Search.SortByCost | graph.js:109 | the result is a permutation of the queue (multiset), sorted by cost |
| Search.KeepWithinStops | graph.js:113 | a route is kept exactly when it has at most `stopLimit + 1` nodes; the result is no longer than the input, and sorted when the input is |
| Search.KeepWithinStopsCopies | graph.js:113 | every copy of a route within the stop limit is kept, and no copy of any other route |
| Search.KeepWithinStopsInOrder | graph.js:113 | the kept routes are a subsequence of the input, in their original order |
| Search.Expand | graph.js:96-106 | the children are exactly the extensions along the neighbours whose edge key is below the reuse limit, at most one per neighbour |
| Search.Extend | graph.js:99-104 | the extension appends `n` to the nodes, adds the edge cost, and counts the new edge's key once more while every other key keeps its count |
| Search.StartRouteValid | graph.js:78 | the initial route `[start]` of cost 0 is valid |
| Search.ExtendValid | graph.js:98-104 | extending a valid route along an edge whose key is below the limit gives a valid route that costs no less |
| Search.ExtendCounts | graph.js:99-102 | the new counter is the use count of every key along the extended route, still within the limit |
| Search.ExtendArrival | graph.js:86-90 | with reuse 1, a route that reaches `end` with a cost is not extended, so every earlier visit of `end` was reached at cost 0 |
| Search.ZeroPathCost | graph.js:87 | a walk of cost 0 uses only edges of cost 0 |
| Search.CostlyRouteLeavesStart | graph.js:86-94 | a valid route with a nonzero cost starts at a node with a row, and its first hop is an edge of that row |
| Search.ReuseBound | graph.js:98-102 | in a valid route the counter is the use count of each key, and no key or edge is used over the reuse limit |
| Search.EdgeKeyListed | graph.js:98 | the key of every edge of the graph is among the graph's edge keys |
| Search.RouteLengthBound | graph.js:80-110 | a valid route has at most (number of edge keys) × (reuse limit) edges |
| Search.BudgetSpent | graph.js:98-102 | the budget left plus the edges walked equals the number of keys times the reuse limit |
| Search.BudgetBump | graph.js:99-102 | one more use of a key of the graph takes exactly one unit of budget |
| Search.SumSort | graph.js:109 | sorting the queue leaves its summed weight unchanged |
| Search.ChildrenWeighLess | graph.js:97-106 | the children of one expansion weigh less together than the route they replace |
| Search.StartOk | graph.js:77-78 | the initial queue and the empty result satisfy the loop invariants |
| Search.PopStep | graph.js:82-83 | popping the cheapest route keeps the invariants, and lowers the queue weight by that route's weight |
| Search.CollectStep | graph.js:87-88 | collecting an arrival within the cost limit keeps the collected list valid and sorted |
| Search.MergeStep | graph.js:96-109 | after expansion and re-sort, the queue invariants hold and the weight is below its value before the pop |
| Walks.KeyCountsCountUses | graph.js:99-102 | the counter built along a walk holds, for every key, the number of uses of that key |
| Walks.EdgeUsesBelowKeyUses | graph.js:98 | uses of a single edge never exceed the uses of its key |
| Walks.PathCostSnoc | graph.js:103 | extending a walk by an edge adds that edge's cost to its path cost |
| GraphClass.FilteredRoutesOk | graph.js:112-113 | every route returned is a valid walk from `start` to `end` with nonzero cost, within the cost and stop limits and the reuse bound; the result is sorted; nothing is returned when `start` has no row; `CalculateRecorded` agrees with each cost |
| GraphClass.Graph.FindRoutes | graph.js:70-114 | every route is a walk from `start` to `end` with positive cost and its true path cost; every key use and the route length are bounded; with reuse 1 no route passes `end` earlier at a cost; the result is sorted by cost; it holds at most `routeLimit` routes and is empty for an unknown start; `calculate` returns each route's cost when the route has no zero-cost edge |
| Calculation.PairUp | graph.js:124-127 | the fold appends exactly the consecutive pairs from `index` on |
| Calculation.Pairs | graph.js:124-127 | a list of n ≥ 2 nodes gives its n − 1 consecutive pairs in order; a shorter list gives none |
| Calculation.Calculate | graph.js:120-136 | succeeds exactly when every consecutive pair has an edge of nonzero cost, then with the walk's path cost; it fails only with `NoSuchRoute` |
| Calculation.CalculateRecorded | graph.js:130-136 | corrected: succeeds exactly on walks, with their path cost, else `NoSuchRoute` |
| Calculation.CalculateAgreesOnPositiveCosts | graph.js:132 | on walks with no zero-cost edge, the code as written and the corrected one agree |
| Calculation.ZeroCostEdgeRejected | graph.js:132 | on `{A: {B: 0}}` the walk A, B costs 0, yet `calculate` fails |
| Calculation.ShortRouteCostsZero | graph.js:121-127 | a route of at most one node, or a bare node, costs 0 |
| Calculation.SumCosts | graph.js:130-136 | the summing fold fails only with `NoSuchRoute`, and a success is at least the starting sum |
| Calculation.SumCostsSpec | graph.js:124-136 | over the pairs of a route, the fold gives the start plus the path cost when every pair passes the edge test, and `NoSuchRoute` otherwise |
| Calculation.AsList | graph.js:121 | an array is taken as it is, and a bare node becomes the one-node route |
| Calculation.GraphError.Message | graph.js:133 | the message reads "No Such Route" once its zero-width spaces are left out |
| Calculation.MessageText | graph.js:133 | the message is, character by character, the text `calculate` throws |
| GraphClass.Graph.Calculate | graph.js:120-137 | on the current store, the cost calculation succeeds exactly when every pair passes the edge test; a success is the path cost; a failure is `NoSuchRoute` |
| Calculation.TestGraphCostABE | graph.test.js:139 | on the test graph the route A, B, E costs 4 |
| Calculation.TestGraphCostAD | graph.test.js:141 | on the test graph the route A, D costs 10 |
| Calculation.TestGraphCostEACF | graph.test.js:143 | on the test graph the route E, A, C, F costs 8 |
| Calculation.TestGraphNoRouteADF | graph.test.js:146-151 | on the test graph the route A, D, F fails with `NoSuchRoute` |
| Calculation.AcceptedWalkIsWalk | graph.js:130-133 | every route that `calculate` accepts is a walk |

## Left out

- Edge costs are natural numbers, and sums of costs are unbounded. JavaScript numbers (fractions, negative costs, `NaN`) are not modelled, and neither is the `parseInt` call in `calculate`. `parseInt(cost, 10)` returns `cost` only for naturals below 10^21. From 10^21 up, the cost prints in exponent form (`1e+21`, `3e+21`, `1.5e+21`), and `parseInt` keeps only the digits before the `.` or `e` (1, 3, 1). Costs and sums are also exact only below 2^53. The model therefore agrees with the source only for costs and sums below 2^53.
- `Infinity` as a limit is written `None`. Options of any type other than a natural number, and a `null` options object, are not modelled. An absent options object is `NoOptions`.
- The `for..in` order is not modelled: integer-like keys in ascending numeric order, then the other keys in insertion order. The model leaves that order open. So `Graph.To` and `Search.Expand` promise the set of results, one child per neighbour. Among queued routes of equal cost, the order that this produces is not modelled either.
- Aliasing is not modelled. `refresh` and the constructor keep a reference to the caller's object, so a later `set` or `remove` is visible to the caller. Here the store is a value.
- Routes of `calculate` that contain `null` or `undefined` are not modelled. The pairing fold's `== null` test (graph.js:125) skips only a pair whose second element is `null` or `undefined`. So `['A', null, 'B']` gives the single pair `[null, 'B']`. A node here is always a string, and a bare argument is a one-node route.
- The thrown `Error` is modelled as `Err(NoSuchRoute)`. Its message is `NoSuchRoute.Message()`, with the zero-width spaces of graph.js:133.
- Node names that are keys of `Object.prototype` (`toString`, `constructor`, `__proto__`, and so on) are not modelled. `this.nodes[node]` on a plain object also reads inherited members. So `from('toString')` returns a function where the model returns `None`. `calculate(['constructor', 'name'])` returns `NaN` where the model returns `Err(NoSuchRoute)`. `set('__proto__', x, c)` writes onto `Object.prototype`. The model's store is a map that holds only the keys put into it.
- GraphClass.Graph.FindRoutes: the contract states soundness, not completeness. It does not say that every route within the limits is found. So the route counts the test suite expects (5, 4, 3, 1 and 22 routes, graph.test.js:90-136) are not derived.
- Search.RouteLengthBound: the bound is over distinct edge keys. Keys of different edges can coincide when node names contain `-`, so they share one counter, as they do in the template-string keys of graph.js:98-102.
- Two things describe the failure of `calculate` as a missing edge: the test 'should get error when route not found' (graph.test.js:146) and the message 'No Such Route' (graph.js:133). The code also throws on an edge of cost 0, because 0 is falsy. The model follows the code (see Findings).
- `Search.Expand` requires a reuse limit of at least 1. With that, the test `!paths[key] || paths[key] < limit` of graph.js:98 coincides with "use count below the limit". `ReuseLimitOf` always supplies such a limit.

## Findings

| source | as written | input that shows it | evidently intended | confidence | as-written member | corrected member |
|---|---|---|---|---|---|---|
| graph.js:132 | `nodes[path[1]]` is a truthiness test, so an edge of cost 0 is treated as missing and the call throws | store `{A: {B: 0}}`, `calculate(['A', 'B'])` | fail only when an edge is absent, and return 0 here | not executed | Calculation.ZeroCostEdgeRejected | Calculation.CalculateRecorded |
