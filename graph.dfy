/**
  The road graph as the route planner sees it: nodes are the indices 0..n-1,
  adjacency lists stand for `RouteModel::Node::FindNeighbors`, and a distance
  function stands for `RouteModel::Node::distance`.
 */
module Graph {

  /**
    The fields of a map node that the search reads and writes: cost so far g,
    heuristic h, the node it was discovered from (-1 for none) and whether it
    has been discovered.
   */
  datatype SearchNode = SearchNode(g: int, h: int, parent: int, visited: bool)

  /** Distance in map units between two nodes. */
  type Distance = (nat, nat) -> nat

  /** Two nodes are at distance zero exactly when they are the same node. */
  ghost predicate ZeroIffSame(dist: Distance) {
    forall a: nat, b: nat :: dist(a, b) == 0 <==> a == b
  }

  ghost predicate Symmetric(dist: Distance) {
    forall a: nat, b: nat :: dist(a, b) == dist(b, a)
  }

  ghost predicate Triangle(dist: Distance) {
    forall a: nat, b: nat, c: nat :: dist(a, c) <= dist(a, b) + dist(b, c)
  }

  predicate NoDuplicates(s: seq<nat>) {
    forall i, j :: 0 <= i < j < |s| ==> s[i] != s[j]
  }

  /** Adjacency lists of n nodes: every entry is a node, no list repeats one. */
  ghost predicate WellFormed(n: nat, adj: seq<seq<nat>>) {
    && |adj| == n
    && (forall v, i :: 0 <= v < n && 0 <= i < |adj[v]| ==> adj[v][i] < n)
    && (forall v :: 0 <= v < n ==> NoDuplicates(adj[v]))
  }

  /** A non-empty sequence of nodes in which each node is adjacent to the one before. */
  ghost predicate IsWalk(adj: seq<seq<nat>>, p: seq<nat>) {
    && |p| > 0
    && (forall i :: 0 <= i < |p| ==> p[i] < |adj|)
    && (forall i {:trigger adj[p[i]]} :: 0 <= i < |p| - 1 ==> p[i + 1] in adj[p[i]])
  }

  ghost predicate Reachable(adj: seq<seq<nat>>, a: nat, b: nat) {
    exists p :: IsWalk(adj, p) && p[0] == a && p[|p| - 1] == b
  }

  /**
    Length of a path, summing for each node after the first its distance
    back to the node before it (the direction the planner measures in when
    it walks a parent chain).
   */
  function PathLength(dist: Distance, p: seq<nat>): nat
    decreases |p|
  {
    if |p| <= 1 then 0 else PathLength(dist, p[..|p| - 1]) + dist(p[|p| - 1], p[|p| - 2])
  }

  /**
    The neighbours expansion discovers: the adjacent nodes not yet visited,
    in adjacency order.
   */
  function FindNeighbors(adjacent: seq<nat>, nodes: seq<SearchNode>): (r: seq<nat>)
    requires forall i :: 0 <= i < |adjacent| ==> adjacent[i] < |nodes|
    ensures forall w :: w in r <==> w in adjacent && !nodes[w].visited
    ensures NoDuplicates(adjacent) ==> NoDuplicates(r)
    ensures |r| <= |adjacent|
  {
    if adjacent == [] then []
    else
      var rest := FindNeighbors(adjacent[1..], nodes);
      if nodes[adjacent[0]].visited then rest else [adjacent[0]] + rest
  }

  /**
    Straight-line distance to the goal is an admissible heuristic: when the
    distance is symmetric and obeys the triangle inequality, it never exceeds
    the length of a path from the node to the goal.
   */
  lemma {:induction false} DistanceBoundsPathLength(dist: Distance, p: seq<nat>)
    requires ZeroIffSame(dist) && Symmetric(dist) && Triangle(dist)
    requires |p| > 0
    ensures dist(p[0], p[|p| - 1]) <= PathLength(dist, p)
  {
    if |p| > 1 {
      var q := p[..|p| - 1];
      DistanceBoundsPathLength(dist, q);
      assert q[0] == p[0] && q[|q| - 1] == p[|p| - 2];
      assert dist(p[0], p[|p| - 1]) <= dist(p[0], p[|p| - 2]) + dist(p[|p| - 2], p[|p| - 1]);
      assert dist(p[|p| - 2], p[|p| - 1]) == dist(p[|p| - 1], p[|p| - 2]);
      assert PathLength(dist, p) == PathLength(dist, q) + dist(p[|p| - 1], p[|p| - 2]);
    }
  }

  /** The visited nodes are closed under adjacency. */
  ghost predicate ClosedUnderAdjacency(adj: seq<seq<nat>>, nodes: seq<SearchNode>) {
    && |nodes| == |adj|
    && forall v, w :: 0 <= v < |adj| && nodes[v].visited && w in adj[v] ==> w < |adj| && nodes[w].visited
  }

  /** Every node of a walk that starts at a visited node stays among visited nodes closed under adjacency. */
  lemma {:induction false} WalkStaysInClosedSet(adj: seq<seq<nat>>, nodes: seq<SearchNode>, p: seq<nat>)
    requires ClosedUnderAdjacency(adj, nodes)
    requires IsWalk(adj, p) && nodes[p[0]].visited
    ensures forall i :: 0 <= i < |p| ==> nodes[p[i]].visited
  {
    if |p| > 1 {
      var q := p[..|p| - 1];
      assert IsWalk(adj, q);
      WalkStaysInClosedSet(adj, nodes, q);
      assert nodes[p[|p| - 2]].visited && p[|p| - 1] in adj[p[|p| - 2]];
    }
  }

  /**
    Visited nodes closed under adjacency that include a but not b separate
    them: b is not reachable from a.
   */
  lemma ClosedSetSeparates(adj: seq<seq<nat>>, nodes: seq<SearchNode>, a: nat, b: nat)
    requires ClosedUnderAdjacency(adj, nodes) && a < |adj|
    requires nodes[a].visited && (b < |adj| ==> !nodes[b].visited)
    ensures !Reachable(adj, a, b)
  {
    forall p | IsWalk(adj, p) && p[0] == a
      ensures p[|p| - 1] != b
    {
      WalkStaysInClosedSet(adj, nodes, p);
    }
  }
}
