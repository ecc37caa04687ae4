# A* route search of the route planner

This project models the A* search at the heart of `RoutePlanner`, the part
of a road-map route planner that finds a route between two map nodes.
It proves properties of that model.

The map is a graph whose nodes are the indices `0..n-1`. Four kinds of
state are modelled:

- `RoutePlanner.nodes` is an array of search fields: cost so far `g`,
  heuristic `h`, `parent` (-1 for none) and `visited`. The search writes
  these in place.
- `openList` is a sequence of node indices.
- `distance` and `path` are the results handed back.
- A ghost `depth` records how many parent links separate each discovered
  node from the start. It only serves to show that parent chains end.

The operations are the following:

- **`CalculateHValue`** is a pure function.
- **`NextNode`** sorts the open list by f = g + h and removes its front.
- **`AddNeighbors`** discovers the unvisited neighbours of a node. For each
  one it sets g, h, parent and visited, and appends the node to the open
  list.
- **`ConstructFinalPath`** walks the parent links back to the start. It sums
  the distances, scales the sum, and reverses the walk.
- **`AStarSearch`** seeds the open list with the start node. It then extracts
  and expands nodes until the goal comes off the list or the list runs empty.

The graph enters through three parameters:

- an adjacency list per node, standing in for `RouteModel::Node::FindNeighbors`;
- an abstract distance function, standing in for `RouteModel::Node::distance`;
- a natural-number scale, standing in for `MetricScale`.

The distance function is assumed to be zero exactly between a node and
itself, so the goal test "distance to the goal is 0" singles out the goal.

Module layout:

- `graph.dfy` (`Graph`): the search fields, the graph, walks and path
  lengths, and the neighbour filter.
- `parent_chain.dfy` (`ParentChain`): the parent links as a tree rooted at
  the start, and the route read off it.
- `open_list.dfy` (`OpenList`): sorting by f.
- `astar.dfy` (`AStar`): the heuristic, the search invariants, and the
  effect of one expansion.
- `route_planner.dfy` (`RoutePlanning`): the `RoutePlanner` class and its
  methods.

The search keeps four invariants, all proved:

- **`WellDiscovered`.** Every discovered node other than the start is a
  neighbour of its parent. Its g is its parent's g plus the edge between
  them, and its h is its distance to the goal. The parent links lead back
  to the start.
- **`FrontierOk`.** Open-list nodes are discovered. A discovered node off
  the list has been expanded, so it is not the goal and all its neighbours
  are discovered.
- **Termination.** The loop ends because each round discovers a node or
  shortens the open list.
- **Extraction order.** With distances that obey the triangle inequality,
  nodes come off the open list in non-decreasing f. This is proved one
  round at a time, by `RoundKeepsOrder`.

When the search succeeds, the stored path is a walk from the start to the
goal along graph edges. The reported distance is its length times the
scale. When the open list runs empty, the goal is unreachable from the
start.

## Model

| member | source | states |
|---|---|---|
| AStar.CalculateHValue | src/route_planner.cpp:17-19 | the heuristic of a node is zero exactly when the node is the goal (the value is the node's distance to the fixed goal) |
| AStar.HeuristicAdmissible | src/route_planner.cpp:17-19 | for symmetric distances obeying the triangle inequality, the heuristic of the first node of any path ending at the goal is at most that path's length |
| Graph.FindNeighbors | src/route_planner.cpp:27 | a node is returned exactly when it is adjacent and not yet visited; a duplicate-free adjacency list gives a duplicate-free result no longer than it |
| RoutePlanning.RoutePlanner.constructor | src/route_planner.cpp:4-14 | a fresh planner for the given start and goal nodes: nothing visited, empty open list, every node's search fields at their initial values, empty path, zero distance |
| OpenList.SortBy | src/route_planner.cpp:46-49 | the result is a permutation of the input in non-decreasing order of the key |
| OpenList.InsertIntoPrefix | src/route_planner.cpp:46-49 | moving one more element into a sorted prefix keeps the multiset and extends the sorted prefix by one |
| OpenList.SiftStep | src/route_planner.cpp:46-49 | exchanging the inserted element with a greater left neighbour keeps the insertion invariant |
| OpenList.SiftDone | src/route_planner.cpp:46-49 | an insertion that stopped leaves the prefix up to the inserted position sorted |
| OpenList.FrontIsMinimal | src/route_planner.cpp:53-54 | the front of a sorted permutation of a list is in the list, has the least key of all its entries, and the front plus the remainder is the list's multiset |
| RoutePlanning.RoutePlanner.NextNode | src/route_planner.cpp:44-58 | on a non-empty open list: returns a node that was on it with g + h no greater than any node that was on it; the returned node plus the new list is the old list as a multiset; the list shrinks by one and is left sorted by g + h |
| AStar.ExpandStep | src/route_planner.cpp:30-38 | one iteration of the expansion loop extends the effect of the expansion from the first k neighbours to the first k + 1 |
| RoutePlanning.RoutePlanner.AddNeighbors | src/route_planner.cpp:24-39 | the open list becomes the old list followed by the unvisited neighbours in adjacency order; each such neighbour v gets g = g(cur) + dist(cur, v), h = dist(v, goal), parent cur and visited; every other node keeps all four fields |
| AStar.SeedingStartsTree | src/route_planner.cpp:87-88 | marking the start visited when nothing is discovered gives a one-node tree, a frontier holding just the start, and one fewer unvisited node |
| AStar.ExpansionKeepsTree | src/route_planner.cpp:24-39 | expanding a discovered node keeps every discovered node a neighbour of its parent with g = parent's g + edge and h = distance to goal, and keeps the parent links leading to the start |
| AStar.ExpansionKeepsFrontier | src/route_planner.cpp:91-96 | removing a non-goal node from the open list and appending what its expansion discovered keeps every open node discovered and every closed discovered node expanded |
| AStar.ExpansionShrinksUnvisited | src/route_planner.cpp:30-38 | an expansion never undiscovers a node; it shrinks the unvisited set exactly when it discovers something |
| AStar.ExpansionKeepsSearch | src/route_planner.cpp:90-97 | a round that extracts and expands a non-goal node keeps both invariants, either shrinks the unvisited set or shortens the open list, and leaves the start node's fields unchanged |
| AStar.ExtractionKeepsOrder | src/route_planner.cpp:44-58 | extracting a node of least f from an open list whose entries all have f at least that of every earlier extraction keeps the extracted f values non-decreasing and puts the new node's f at or below every remaining entry |
| AStar.ExpansionKeepsOrder | src/route_planner.cpp:30-38 | with distances obeying the triangle inequality and a start whose h does not exceed its distance to the goal, expanding the last extracted node cur keeps the extracted f values non-decreasing, and every open entry afterwards, each neighbour cur discovered included, has f at least f(cur) |
| AStar.RoundKeepsOrder | src/route_planner.cpp:90-97 | under the same assumptions, one round keeps the f values of the extracted nodes in non-decreasing order of extraction, and every node on the open list afterwards has f at least that of the node just extracted |
| ParentChain.AncestryLinks | src/route_planner.cpp:69-73 | the chain of parents from a discovered node to the start visits only discovered nodes, each the parent of the one before |
| ParentChain.ReversedLinks | src/route_planner.cpp:76 | a chain that follows parent links upwards follows them downwards once reversed |
| ParentChain.RootPathLinks | src/route_planner.cpp:63-77 | the route from the start to a discovered node has each node after the first as a child of the node before |
| ParentChain.RootPathOfRoot | src/route_planner.cpp:69-75 | from the start itself the route is the start alone, of length zero |
| ParentChain.RootPathLength | src/route_planner.cpp:69-73 | the length of the route equals the sum of the distances from each node on the chain to its parent |
| ParentChain.ChainDistIsCostFromRoot | src/route_planner.cpp:31 | with symmetric distances, that sum equals the node's g minus the start's g |
| ParentChain.Reverse | src/route_planner.cpp:76 | the result is the input reversed |
| ParentChain.ClimbStep | src/route_planner.cpp:69-73 | stepping from a non-root node to its parent continues the walk and strictly lowers the depth |
| ParentChain.ClimbDone | src/route_planner.cpp:74-76 | a walk that reached the start has met exactly the chain of parents; reversed it is the route from the start, whose length is the accumulated sum |
| RoutePlanning.RoutePlanner.ConstructFinalPath | src/route_planner.cpp:63-79 | the result is the route from the start to c along parent links; distance is the route's length times the scale |
| AStar.RootPathIsWalk | src/route_planner.cpp:92-93 | the route from the start to any discovered node is a walk along graph edges |
| AStar.CostIsRootPathLength | src/route_planner.cpp:31 | with symmetric distances, a discovered node's g is the start's g plus the length of its route from the start |
| Graph.WalkStaysInClosedSet | src/route_planner.cpp:90-98 | a walk starting in a set of discovered nodes closed under adjacency stays inside it |
| Graph.ClosedSetSeparates | src/route_planner.cpp:90-98 | a node outside such a set is unreachable from a node inside it |
| AStar.ExhaustedMeansUnreachable | src/route_planner.cpp:90-98 | when the open list is empty and the start is discovered, the goal is unreachable from the start |
| RoutePlanning.RoutePlanner.AStarSearch | src/route_planner.cpp:84-99 | always terminates and keeps the discovered nodes a well-formed tree. When found, the goal is discovered, the path is the route from the start to the goal, a walk along graph edges from start to goal, and the distance is its length times the scale. When not found, path and distance are unchanged, the open list is empty and the goal is unreachable from the start |

## Left out

- Floating point: g, h and distances are integers and natural numbers. There is no rounding, and the exact `== 0` goal test is a comparison of natural numbers.
- The constructor's percentage scaling of coordinates and `RouteModel::FindClosestNode` are left out. Start and goal are given as node indices.
- `RouteModel::Node::FindNeighbors`, `Node::distance` and `MetricScale` are not part of this model; they are the parameters `adj`, `dist` and `scale`. Neighbours are the unvisited entries of a duplicate-free adjacency list, in list order, and the distance is zero exactly between a node and itself. `RouteModel` itself is not part of this model.
- The initial search fields of map nodes come from a header that is not part of this model. The model's constructor chooses g = 0, h = 0, no parent and not visited for every node. Under that choice the start node keeps g = 0 and h = 0, because no round assigns the start's fields (AStar.ExpansionKeepsSearch).
- The route is a sequence of node indices rather than copies of `RouteModel::Node`, and the model's `path` field stands for `m_Model.path`.
- RoutePlanning.RoutePlanner.AStarSearch: returns a `found` flag that the source, which returns nothing, does not have. The flag records whether `m_Model.path` was assigned. The method also requires a planner on which no search has run yet, which is the state the constructor leaves.
- RoutePlanning.RoutePlanner.AStarSearch: when the open list runs empty, `path` and `distance` are left as they were, as the code does. The code does not reset them to an empty path and zero distance.
- RoutePlanning.RoutePlanner.NextNode: the order `std::sort` leaves among nodes of equal f is unspecified, so the contract promises a sorted permutation and a minimal front, not a particular order. The model sorts by insertion.
- RoutePlanning.RoutePlanner.NextNode: requires every open-list entry to be a node index, which holds in the source because open-list entries are references to map nodes.
- RoutePlanning.RoutePlanner.ConstructFinalPath: requires only that the discovered nodes form a tree rooted at the start. This is what lets the parent walk end; the source leaves it implicit.
- Optimality: A* optimality is not claimed, because the code never relaxes a node once discovered. The model proves that the route found is a walk. With symmetric distances, its length is the goal's g minus the start's g (AStar.CostIsRootPathLength). It does not prove that the route is shortest.
- RoutePlanning.RoutePlanner.AStarSearch: its postcondition does not state that the start node's fields are unchanged. Each round's lemma AStar.ExpansionKeepsSearch states it instead.
- RoutePlanning.RoutePlanner.AStarSearch: its postcondition does not state that nodes come off the open list in non-decreasing f. AStar.RoundKeepsOrder proves this for each round. It needs distances that obey the triangle inequality and a start whose h is at most its distance to the goal; the constructor's h = 0 meets that. Carrying the extraction order as a loop invariant would push the method's proof past the verifier's resource limit.
- Sharing of nodes between concurrent searches is not modelled: one search runs on one planner.
