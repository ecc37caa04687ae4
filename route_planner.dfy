/**
  The A* route search of `RoutePlanner`: open-list extraction, neighbour
  expansion, path reconstruction and the search loop, over per-node search
  fields that the search updates in place.
 */
module RoutePlanning {
  import opened Graph
  import opened ParentChain
  import opened OpenList
  import opened AStar

  /**
    One A* search over a graph of n nodes from `start` to `goal`. `nodes`
    holds the search fields of every map node, which the search updates in
    place; `path` is the route the search hands back to the map model.
   */
  class RoutePlanner {
    const n: nat
    const adj: seq<seq<nat>>
    const dist: Distance
    const scale: nat
    const start: nat
    const goal: nat
    const nodes: array<SearchNode>

    var openList: seq<nat>
    var distance: int
    var path: seq<nat>

    /** Number of parent links from each discovered node up to the start. */
    ghost var depth: seq<nat>

    ghost predicate Valid()
      reads this`depth
    {
      && nodes.Length == n && |depth| == n && start < n && goal < n
      && WellFormed(n, adj) && ZeroIffSame(dist)
    }

    /** Nothing has been discovered yet and the open list is empty. */
    ghost predicate Fresh()
      reads this`openList, nodes
    {
      openList == [] && forall v :: 0 <= v < nodes.Length ==> !nodes[v].visited
    }

    ghost predicate Discovered()
      reads this`depth, nodes
    {
      WellDiscovered(adj, dist, goal, start, nodes[..], depth)
    }

    ghost predicate Frontier()
      reads this`openList, nodes
    {
      FrontierOk(adj, goal, openList, nodes[..])
    }

    /** The neighbours of cur that expanding it now would discover. */
    ghost function Unexplored(cur: nat): (r: seq<nat>)
      reads nodes
      requires WellFormed(n, adj) && nodes.Length == n && cur < n
    {
      FindNeighbors(adj[cur], nodes[..])
    }

    /** A planner for one search; start and goal are given as nodes. */
    constructor (n: nat, adj: seq<seq<nat>>, dist: Distance, scale: nat, start: nat, goal: nat)
      requires WellFormed(n, adj) && ZeroIffSame(dist) && start < n && goal < n
      ensures Valid() && Fresh()
      ensures this.n == n && this.adj == adj && this.dist == dist && this.scale == scale
      ensures this.start == start && this.goal == goal
      ensures fresh(nodes) && forall v :: 0 <= v < n ==> nodes[v] == SearchNode(0, 0, -1, false)
      ensures path == [] && distance == 0
    {
      this.n := n;
      this.adj := adj;
      this.dist := dist;
      this.scale := scale;
      this.start := start;
      this.goal := goal;
      nodes := new SearchNode[n](_ => SearchNode(0, 0, -1, false));
      openList := [];
      distance := 0;
      path := [];
      depth := seq(n, _ => 0);
    }

    /**
      Sorts the open list by f = g + h and removes and returns its front:
      a node of least f among those that were on the list.
     */
    method NextNode() returns (cur: nat)
      requires openList != [] && forall i :: 0 <= i < |openList| ==> openList[i] < nodes.Length
      modifies this`openList
      ensures cur < nodes.Length && cur in old(openList)
      ensures multiset([cur] + openList) == multiset(old(openList))
      ensures |openList| == |old(openList)| - 1
      ensures forall i :: 0 <= i < |old(openList)| ==>
                nodes[cur].g + nodes[cur].h <= nodes[old(openList)[i]].g + nodes[old(openList)[i]].h
      ensures Keyed(openList, FValues(nodes[..])) && SortedBy(openList, FValues(nodes[..]))
    {
      var f := FValues(nodes[..]);
      ghost var before := openList;
      openList := SortBy(openList, f);
      FrontIsMinimal(before, openList, f);
      cur := openList[0];
      openList := openList[1..];
    }

    /**
      Expands cur: every neighbour it discovers gets g from cur's g plus the
      edge, h from the heuristic and cur as parent, is appended to the open
      list and marked visited; no other node changes.
     */
    method AddNeighbors(cur: nat)
      requires Valid() && cur < n && nodes[cur].visited
      modifies nodes, this`openList, this`depth
      ensures Valid()
      ensures openList == old(openList) + old(Unexplored(cur))
      ensures ExpandedFrom(dist, goal, old(nodes[..]), nodes[..], cur, old(Unexplored(cur)))
      ensures DeepenedFrom(old(depth), depth, cur, old(Unexplored(cur)))
    {
      var neighbors := FindNeighbors(adj[cur], nodes[..]);
      ghost var s0, d0 := nodes[..], depth;
      assert forall i :: 0 <= i < |neighbors| ==> neighbors[i] in adj[cur];
      assert cur !in neighbors;
      var k := 0;
      while k < |neighbors|
        invariant 0 <= k <= |neighbors|
        invariant forall i :: 0 <= i < |neighbors| ==> neighbors[i] < n
        invariant |depth| == n
        invariant openList == old(openList) + neighbors[..k]
        invariant ExpandedFrom(dist, goal, s0, nodes[..], cur, neighbors[..k])
        invariant DeepenedFrom(d0, depth, cur, neighbors[..k])
      {
        var v := neighbors[k];
        ghost var s1 := nodes[..];
        ExpandStep(dist, goal, s0, s1, d0, depth, cur, neighbors, k);
        assert neighbors[..k + 1] == neighbors[..k] + [v];
        nodes[v] := nodes[v].(g := nodes[cur].g + dist(cur, v), h := CalculateHValue(dist, goal, v), parent := cur);
        openList := openList + [v];
        nodes[v] := nodes[v].(visited := true);
        depth := depth[v := depth[cur] + 1];
        assert nodes[..] == s1[v := SearchNode(s1[cur].g + dist(cur, v), dist(v, goal), cur, true)];
        k := k + 1;
      }
      assert neighbors[..k] == neighbors;
    }

    /**
      Walks the parent links from c back to the start, summing the distance
      from each node to its parent, then scales the sum and reverses the
      walk: the result runs from the start to c.
     */
    method ConstructFinalPath(c: nat) returns (found: seq<nat>)
      requires Rooted(nodes[..], depth, start) && c < nodes.Length && nodes[c].visited
      modifies this`distance
      ensures found == RootPath(nodes[..], depth, start, c)
      ensures distance == PathLength(dist, found) * scale
    {
      ghost var s, d := nodes[..], depth;
      distance := 0;
      var pathFound: seq<nat> := [];
      var current: nat := c;
      while current != start
        invariant Climbing(dist, s, d, start, c, pathFound, distance, current)
        decreases d[current]
      {
        ClimbStep(dist, s, d, start, c, pathFound, distance, current);
        assert s[current] == nodes[current];
        distance := distance + dist(current, nodes[current].parent);
        pathFound := pathFound + [current];
        current := nodes[current].parent;
      }
      ClimbDone(dist, s, d, start, c, pathFound, distance);
      pathFound := pathFound + [current];
      distance := distance * scale;
      found := Reverse(pathFound);
    }

    /**
      Marks the start visited and seeds the open list with it, then extracts
      and expands nodes until it extracts the goal, whose route it then
      stores in `path`, or the open list runs empty, in which case the goal
      is unreachable and `path` is left as it was.
     */
    method AStarSearch() returns (found: bool)
      requires Valid() && Fresh()
      modifies nodes, this`openList, this`depth, this`distance, this`path
      ensures Valid() && Discovered()
      ensures found ==> nodes[goal].visited && path == RootPath(nodes[..], depth, start, goal)
      ensures found ==> path[0] == start && path[|path| - 1] == goal && IsWalk(adj, path)
      ensures found ==> distance == PathLength(dist, path) * scale
      ensures !found ==> path == old(path) && distance == old(distance)
      ensures !found ==> openList == [] && !Reachable(adj, start, goal)
    {
      SeedingStartsTree(adj, dist, goal, start, nodes[..], depth);
      nodes[start] := nodes[start].(visited := true);
      depth := depth[start := 0];
      openList := openList + [start];
      while openList != []
        invariant Valid() && Discovered() && Frontier()
        invariant path == old(path) && distance == old(distance)
        decreases Unvisited(nodes[..]), |openList|
      {
        ghost var open0, s0, d0 := openList, nodes[..], depth;
        var cur := NextNode();
        if dist(cur, goal) == 0 {
          path := ConstructFinalPath(cur);
          RootPathIsWalk(adj, dist, goal, start, nodes[..], depth, cur);
          found := true;
          return;
        }
        ghost var rest := openList;
        AddNeighbors(cur);
        ExpansionKeepsSearch(adj, dist, goal, start, open0, cur, rest, s0, d0, nodes[..], depth);
      }
      ExhaustedMeansUnreachable(adj, goal, start, nodes[..]);
      found := false;
    }
  }
}
