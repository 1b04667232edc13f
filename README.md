# City route finder: graph store and searches

A model of the graph core behind a browser page. On that page a user records
roads between cities and then asks for a route between two cities by
breadth-first, depth-first or uniform-cost search. The page then shows the
route and its total distance.

The model holds the adjacency map `graph` as the field `adj` of the class
`Store.GraphStore`. The map goes from city names to lists of edge records
`{to, distance}`. Its methods are:

- `AddPath` appends one record at each end of a road. It keeps symmetry: every
  record has a mirror record at the other end.
- `Reset` deletes every key.
- `Bfs`, `Dfs` and `Ucs` are the three frontier searches. Each keeps the
  source's frontier, its `visited` set, its extraction order and its early
  return on the goal.
- `CalculateDistance` is the cost accumulator for a node path.

The searches are proved against specifications stated over walks and routes
of the graph (module `Walks`):

- a returned path is a walk from `start` to `end` without repeated nodes;
- `null` means that `end` is unreachable;
- breadth-first search returns a path with the fewest hops;
- uniform-cost search returns a path that some route of least total distance
  follows, when no distance is negative;
- depth-first search returns the walk it first descends along, when that
  walk reaches `end`. From each node, that walk steps to the target of the
  last road recorded there that leads off the walk.

A search reaches the TypeError of iterating `graph[current]` only when
`start` is not a key, or when the graph is not symmetric. The model returns
`NotAKey` in that case. On a graph built by `AddPath`, which stays symmetric,
the TypeError arises exactly when `start` differs from `end` and is not a key.

The proofs share one invariant (module `Frontier`). It says:

- every queued path is a walk out of `start` through visited nodes;
- `start` is visited or is the last node of a queued entry; for breadth-first
  and uniform-cost search that entry costs at most 0;
- every record leaving a visited node leads to a visited node or to the last
  node of a queued entry; for breadth-first and uniform-cost search that entry
  costs at most the visited node's settled cost plus one step (one hop, or
  the record's distance). With the settled part below, this gives every route
  to an unvisited node some queued entry that costs no more than the route
  (`Frontier.Witness`);
- for breadth-first search, and for uniform-cost search when no distance is
  negative, every visited node was settled at its least cost. Depth-first
  search ranks nothing, so this part does not apply to it.

Each search bundles that invariant with its own shape facts into one loop
predicate (module `Loops`), with one lemma per branch of the loop body.
Uniform-cost search re-sorts its frontier before each extraction, as the
source does. The sort is modelled as the stable insertion sort `Ordering.SortByCost`.

Modules:

- `Graphs`: edges, the adjacency map and road insertion.
- `Walks`: walks, routes, costs and reachability.
- `Frontier`: frontier entries, successor generation and the search invariant.
- `Ordering`: the stable sort by cost.
- `Costs`: the distance accumulator.
- `Loops`: the per-search loop predicates.
- `Store`: the class and its methods.

## Model

| member | source | states |
|---|---|---|
| Graphs.WithPath | script.js:18-29 | adding a road creates missing keys for both ends and appends `{to, d}` at `from` and `{from, d}` at `to`; every other list is unchanged; a self-loop gets both records at its one key |
| Graphs.AdjacentWithPath | script.js:20-29 | the list at any node after adding a road is its old list (or empty) followed by exactly the records appended at that node |
| Graphs.MultWithPath | script.js:28-29 | adding a road raises the count of each `(u, v, d)` record by exactly the records the road adds there, and changes no other count |
| Graphs.WithPathSymmetric | script.js:28-29 | adding a road keeps every record mirrored by a record of the same distance at the other end |
| Graphs.WithPathHasEdge | script.js:28-29 | after adding a road both of its ends are adjacent to each other |
| Graphs.SymmetricIsClosed | script.js:28-29 | in a symmetric graph every edge target is itself a key, so no expansion reaches a missing adjacency list |
| Store.GraphStore.constructor | script.js:2 | the store starts with an empty map, which is symmetric |
| Store.GraphStore.AddPath | script.js:18-29 | the new map is the old map with the road added, and a symmetric map stays symmetric |
| Store.GraphStore.Reset | script.js:222 | the map becomes empty (and so symmetric) |
| Store.PushUnvisited | script.js:97-101 | the queue grows by the current path extended by each unvisited neighbour, in edge-list order |
| Store.PushCosted | script.js:148-155 | the queue grows by one entry per unvisited neighbour, with the extended path and the cost so far plus that edge's distance, in edge-list order |
| Store.GraphStore.Bfs | script.js:83-105 | `start == end` gives `[start]`; a missing start key gives the TypeError, and on a symmetric map only that does; a returned path is a repetition-free walk from start to end with no more nodes than any walk between them; `null` only when end is unreachable |
| Store.GraphStore.Dfs | script.js:108-130 | the same facts as breadth-first search except length optimality; when the descent along last-listed fresh roads reaches end, the result is exactly that descent |
| Store.GraphStore.Ucs | script.js:133-159 | the same walk, error (including the symmetric-map case) and `null` facts; a returned path is the node sequence of a route that, when no distance is negative, has the least total distance of all routes from start to end |
| Store.GraphStore.CalculateDistance | script.js:162-171 | the result is the path's accumulated first-match distance, or the failure when a step has no edge record or its node has no list |
| Walks.RouteIsWalk | script.js:97-99 | the nodes that a route of edge records passes through form a walk |
| Walks.WalkHasRoute | script.js:97-99 | every walk is the node sequence of some route with one edge record per step |
| Walks.HopCost | script.js:83-105 | counting each hop as one, a route costs its length |
| Walks.ShutBlocksReach | script.js:95-104 | no walk leaves a node set that every edge record stays inside, so no target outside it is reachable |
| Frontier.PushedSound | script.js:148-155 | every pushed entry comes from an unvisited neighbour, with the extended path and the summed cost |
| Frontier.PushedComplete | script.js:148-155 | every unvisited neighbour gives a pushed entry, at the position its edge-list order dictates |
| Frontier.HopsOfSuccessors | script.js:97-101 | the paths pushed by the hop searches, counted by hops, are the entries the costed push would make |
| Frontier.LastFresh | script.js:122-124 | the chosen record is the last one whose target is not yet visited; none is chosen exactly when every target is visited |
| Frontier.FreshSuccessor | script.js:122-124 | the path pushed last, and so popped next, leads to the target of the last record with an unvisited target |
| Frontier.LayeredShiftPush | script.js:88-99 | shifting the head and pushing one-node-longer paths keeps the queue sorted by length, with lengths spanning at most two values |
| Frontier.BfsHeadIsCheapest | script.js:88 | the head of a queue kept this way has the fewest hops of all queued paths |
| Frontier.SuccessorRoutesMatch | script.js:148-153 | each pushed entry's path and cost are those of the extended route over the actual edge record |
| Frontier.InvInit | script.js:84-85 | the initial frontier and empty visited set satisfy the search invariant |
| Frontier.Witness | script.js:87-103 | under a ranked metric (hops, or distances none of which is negative), every route from start to an unvisited node has a queued entry that costs no more than the route |
| Frontier.PoppedIsOptimal | script.js:138-143 | an extracted entry of least cost whose node is unvisited costs no more than any route to that node |
| Frontier.DropKeepsInv | script.js:95 | discarding an entry whose node is already visited keeps the invariant |
| Frontier.InvPermuted | script.js:138 | reordering the frontier keeps the invariant |
| Frontier.ExpandKeepsInv | script.js:95-101 | marking the extracted node visited and pushing its unvisited successors keeps the invariant, with the node settled at the extracted cost |
| Frontier.ExhaustedUnreachable | script.js:87-104 | when the frontier runs empty, end is unreachable from start |
| Frontier.MissingKey | script.js:97 | a queued node without an adjacency list is start itself or the target of an unmirrored record |
| Frontier.FewerUnvisited | script.js:95-96 | visiting a key lowers the number of unvisited keys, so every search ends |
| Frontier.HopExpandKeepsInv | script.js:95-101 | the expansion step of the hop searches keeps the invariant over their path queues |
| Frontier.HopDropKeepsInv | script.js:95 | discarding a visited path from a hop-search queue keeps the invariant |
| Ordering.SortByCost | script.js:138 | the sort rearranges the frontier: the same entries, each as often as before |
| Ordering.SortByCostSorts | script.js:138 | the sort leaves the frontier in ascending cost |
| Ordering.SortByCostIsStable | script.js:138 | entries of equal cost keep their relative order through the sort |
| Ordering.FirstMin | script.js:138-139 | the chosen index holds a least cost and every earlier entry costs strictly more |
| Ordering.SortHeadIsFirstMin | script.js:138-139 | sorting and then shifting extracts the first entry of least cost |
| Costs.FindEdge | script.js:167 | the lookup gives the first record leading to the node, and none exactly when no record does |
| Costs.PathCostFailsOnward | script.js:164-168 | once one step of the path fails, the whole accumulation fails |
| Costs.PathCostSucceeds | script.js:162-171 | the accumulator succeeds exactly on paths whose consecutive nodes are joined by an edge |
| Costs.PathCostIsFirstRoute | script.js:164-168 | a successful total is the cost of the route that takes the first matching record at every step |
| Costs.PathCostOfRoute | script.js:162-171 | when parallel records carry equal distances, the accumulator returns the cost of any route along the path |
| Costs.CheapestAtMostReported | script.js:162-171 | a cheapest route costs no more than what the accumulator reports for its node path |
| Costs.ReportedCanExceedCheapest | script.js:167 | with two parallel records of distances 5 and 1, the accumulator reports 5 for a path whose cheapest route costs 1 |
| Loops.BfsStart | script.js:84-85 | the initial queue `[[start]]` satisfies the breadth-first loop predicate |
| Loops.BfsFound | script.js:88-92 | a path returned from the queue head is a repetition-free walk from start to end, `[start]` when they coincide, and no longer than any walk between them |
| Loops.BfsMissing | script.js:97 | the TypeError arises only for a missing start key or a non-symmetric graph, and on a symmetric graph only for a missing start key |
| Loops.BfsExpand | script.js:95-101 | expanding the head keeps the breadth-first loop predicate, and the count of unvisited keys falls |
| Loops.BfsDrop | script.js:95 | dropping a visited head keeps the breadth-first loop predicate |
| Loops.Descent | script.js:113-125 | the descent extends the given walk and keeps it as its prefix |
| Loops.DescentStep | script.js:113-125 | each step of the descent leaves a node that is not end and has an edge list, along the last record leading off the walk so far |
| Loops.DescentShape | script.js:113-125 | the descent repeats no node, and every node before its last is a key other than end |
| Loops.DescentExample | script.js:108-130 | with roads A-B, A-C, C-T, B-T added in that order, the descent from A to T is `[A, C, T]`, so depth-first search returns that path |
| Loops.DirectDescent | script.js:122-124 | when the last road recorded at start leads to end, the descent is `[start, end]` |
| Loops.DfsStart | script.js:109-110 | the initial stack satisfies the depth-first loop predicate |
| Loops.DfsFound | script.js:113-117 | a popped path ending at end is a repetition-free walk from start, and it is the whole descent when the descent reaches end |
| Loops.DfsMissing | script.js:122 | the TypeError arises only for a missing start key or a non-symmetric graph (on a symmetric graph only for a missing start key), and never when the descent reaches end |
| Loops.DfsExpand | script.js:120-126 | expanding the top of the stack keeps the depth-first loop predicate, and the count of unvisited keys falls |
| Loops.DescentExpand | script.js:120-125 | expanding the top of the stack while it is a prefix of the descent puts the next prefix on top and marks exactly the nodes before its last as visited |
| Loops.DfsExhausted | script.js:112-129 | an empty stack means end is unreachable and the descent did not reach it |
| Loops.DfsDrop | script.js:120 | popping a visited path keeps the depth-first loop predicate |
| Loops.UcsStart | script.js:134-135 | the initial frontier satisfies the uniform-cost loop predicate |
| Loops.UcsSorted | script.js:138 | the sorted frontier keeps the loop predicate and its head has the least cost |
| Loops.UcsFound | script.js:139-143 | the returned path is a repetition-free walk from start to end that follows a route of least distance when no distance is negative |
| Loops.UcsMissing | script.js:148 | the TypeError arises only for a missing start key or a non-symmetric graph, and on a symmetric graph only for a missing start key |
| Loops.UcsExpand | script.js:146-155 | expanding the head keeps the uniform-cost loop predicate, and the count of unvisited keys falls |
| Loops.ExpandTraced | script.js:149-153 | every entry pushed by uniform-cost search is the path and cost of a route out of start |
| Loops.UcsDrop | script.js:146 | dropping a visited head keeps the uniform-cost loop predicate |
| Loops.UcsExhausted | script.js:137-158 | an exhausted uniform-cost frontier means end is unreachable |
| Loops.HopExhausted | script.js:87-104 | an exhausted hop-search frontier means end is unreachable |

## Left out

- Drawing, node positions and random placement (`drawGraph`, `nodePositions`, `getRandomPosition`) only affect the canvas.
- The DOM event handlers and `showResult` are user-interface glue. They parse input with `parseInt` and upper-case city names. City names are opaque strings in the model, and distances are unbounded integers.
- Distances are JavaScript numbers, so floating point. The model uses exact integers.
- Object-prototype keys such as `constructor` are not modelled as present in an empty map.
- Exceptions are results. The TypeError raised when `graph[current]` is undefined is `NotAKey` in the searches and `NoSuchEdge` in the accumulator.
- `Array.prototype.sort` is modelled by one stable sort with the same comparator, not the engine's algorithm.
- The searches only read the map. Their methods take a snapshot of `adj` and declare no `modifies`.
- Store.GraphStore.Dfs: the result is pinned down only when the first descent reaches `end`. After a dead end the source backtracks to older stack entries, and the model states only the walk, repetition and reachability facts for that case.
- Store.GraphStore.Ucs: optimality is stated for graphs with no negative distance. With negative distances the source gives no guarantee, and the model states only the walk facts.
- Store.GraphStore.CalculateDistance: with parallel records of different distances, it reports the first record's distance, not necessarily the cost of the route that uniform-cost search took. This is shown by `Costs.ReportedCanExceedCheapest`. Equality holds without such records (`Costs.PathCostOfRoute`), and an inequality holds in general (`Costs.CheapestAtMostReported`).
