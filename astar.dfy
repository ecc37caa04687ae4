/**
  The A* search state as values: the heuristic, the per-node search fields,
  the invariants the search keeps over them, and the effect of one expansion.
 */
module AStar {
  import opened Graph
  import opened ParentChain

  /** Heuristic value of node v: its straight-line distance to the goal node. */
  function CalculateHValue(dist: Distance, goal: nat, v: nat): (r: nat)
    requires ZeroIffSame(dist)
    ensures r == 0 <==> v == goal
  {
    dist(v, goal)
  }

  /**
    The heuristic never overestimates: for symmetric distances obeying the
    triangle inequality it is at most the length of any path to the goal.
   */
  lemma HeuristicAdmissible(dist: Distance, goal: nat, p: seq<nat>)
    requires ZeroIffSame(dist) && Symmetric(dist) && Triangle(dist)
    requires |p| > 0 && p[|p| - 1] == goal
    ensures CalculateHValue(dist, goal, p[0]) <= PathLength(dist, p)
  {
    DistanceBoundsPathLength(dist, p);
  }

  /**
    Every discovered node other than the start was discovered from its
    parent, of which it is a neighbour, and carries the g and h that
    discovery gave it; the parent links lead back to the start.
   */
  ghost predicate WellDiscovered(adj: seq<seq<nat>>, dist: Distance, goal: nat, start: nat,
                                 nodes: seq<SearchNode>, depth: seq<nat>)
  {
    && |nodes| == |adj|
    && Rooted(nodes, depth, start)
    && forall v {:trigger nodes[v].parent} :: 0 <= v < |adj| && nodes[v].visited && v != start ==>
         && v in adj[nodes[v].parent]
         && nodes[v].g == nodes[nodes[v].parent].g + dist(nodes[v].parent, v)
         && nodes[v].h == dist(v, goal)
  }

  /**
    Nodes on the open list are discovered; a discovered node that is off the
    list has been expanded: it is not the goal and its neighbours are all
    discovered.
   */
  ghost predicate FrontierOk(adj: seq<seq<nat>>, goal: nat, open: seq<nat>, nodes: seq<SearchNode>)
  {
    && |nodes| == |adj|
    && (forall i :: 0 <= i < |open| ==> open[i] < |adj| && nodes[open[i]].visited)
    && forall v :: 0 <= v < |adj| && nodes[v].visited && v !in open ==>
         v != goal && forall w :: w in adj[v] ==> w < |adj| && nodes[w].visited
  }

  ghost function Unvisited(nodes: seq<SearchNode>): set<nat>
  {
    set v: nat | v < |nodes| && !nodes[v].visited
  }

  /**
    Marking the start visited, before anything else is discovered, gives a
    one-node tree and a frontier holding just the start.
   */
  lemma SeedingStartsTree(adj: seq<seq<nat>>, dist: Distance, goal: nat, start: nat,
                          s0: seq<SearchNode>, depth: seq<nat>)
    requires |s0| == |adj| && |depth| == |adj| && start < |adj|
    requires forall v :: 0 <= v < |s0| ==> !s0[v].visited
    ensures var s1 := s0[start := s0[start].(visited := true)];
      && WellDiscovered(adj, dist, goal, start, s1, depth[start := 0])
      && FrontierOk(adj, goal, [start], s1)
      && Unvisited(s1) < Unvisited(s0)
  {
    var s1 := s0[start := s0[start].(visited := true)];
    assert start in Unvisited(s0) - Unvisited(s1);
  }

  /**
    s1 is s0 after expanding cur discovered the nodes of nbrs: each of them
    got g from cur's g plus the edge, h from the heuristic, cur as parent and
    was marked visited; every other node kept all its fields.
   */
  ghost predicate ExpandedFrom(dist: Distance, goal: nat, s0: seq<SearchNode>, s1: seq<SearchNode>, cur: nat, nbrs: seq<nat>)
    requires cur < |s0|
  {
    && |s1| == |s0|
    && forall v :: 0 <= v < |s0| ==>
         s1[v] == if v in nbrs then SearchNode(s0[cur].g + dist(cur, v), dist(v, goal), cur, true) else s0[v]
  }

  /** The depths after the same expansion: one more than cur's for the discovered nodes. */
  ghost predicate DeepenedFrom(d0: seq<nat>, d1: seq<nat>, cur: nat, nbrs: seq<nat>)
    requires cur < |d0|
  {
    && |d1| == |d0|
    && forall v :: 0 <= v < |d0| ==> d1[v] == if v in nbrs then d0[cur] + 1 else d0[v]
  }

  /**
    Discovering one more neighbour nbrs[k] of cur, as the expansion loop does,
    extends the effect of the expansion from nbrs[..k] to nbrs[..k + 1].
   */
  lemma ExpandStep(dist: Distance, goal: nat, s0: seq<SearchNode>, s1: seq<SearchNode>, d0: seq<nat>, d1: seq<nat>,
                   cur: nat, nbrs: seq<nat>, k: nat)
    requires cur < |s0| && cur < |d0| && k < |nbrs| && nbrs[k] < |s0| && nbrs[k] < |d0| && cur !in nbrs
    requires ExpandedFrom(dist, goal, s0, s1, cur, nbrs[..k]) && DeepenedFrom(d0, d1, cur, nbrs[..k])
    ensures ExpandedFrom(dist, goal, s0,
              s1[nbrs[k] := SearchNode(s1[cur].g + dist(cur, nbrs[k]), dist(nbrs[k], goal), cur, true)],
              cur, nbrs[..k + 1])
    ensures DeepenedFrom(d0, d1[nbrs[k] := d1[cur] + 1], cur, nbrs[..k + 1])
  {
    assert nbrs[..k + 1] == nbrs[..k] + [nbrs[k]];
    assert cur !in nbrs[..k];
  }

  /** Expanding a discovered node keeps the discovered nodes a well-formed tree. */
  lemma ExpansionKeepsTree(adj: seq<seq<nat>>, dist: Distance, goal: nat, start: nat,
                           s0: seq<SearchNode>, d0: seq<nat>, s1: seq<SearchNode>, d1: seq<nat>, cur: nat)
    requires WellFormed(|adj|, adj) && WellDiscovered(adj, dist, goal, start, s0, d0)
    requires cur < |adj| && s0[cur].visited
    requires ExpandedFrom(dist, goal, s0, s1, cur, FindNeighbors(adj[cur], s0))
    requires DeepenedFrom(d0, d1, cur, FindNeighbors(adj[cur], s0))
    ensures WellDiscovered(adj, dist, goal, start, s1, d1)
  {
    var nbrs := FindNeighbors(adj[cur], s0);
    assert cur !in nbrs && start !in nbrs;
    forall v | 0 <= v < |adj| && s1[v].visited && v != start
      ensures 0 <= s1[v].parent < |adj| && s1[s1[v].parent].visited && d1[v] == d1[s1[v].parent] + 1
      ensures v in adj[s1[v].parent]
      ensures s1[v].g == s1[s1[v].parent].g + dist(s1[v].parent, v)
      ensures s1[v].h == dist(v, goal)
    {
      if v !in nbrs {
        var p := s0[v].parent;
        assert 0 <= p < |adj| && s0[p].visited;
        assert p !in nbrs;
      }
    }
  }

  /**
    Taking cur off the open list and appending the neighbours its expansion
    discovered keeps the frontier invariant, provided cur is not the goal.
   */
  lemma ExpansionKeepsFrontier(adj: seq<seq<nat>>, dist: Distance, goal: nat, open0: seq<nat>, cur: nat, rest: seq<nat>,
                               s0: seq<SearchNode>, s1: seq<SearchNode>)
    requires WellFormed(|adj|, adj) && FrontierOk(adj, goal, open0, s0)
    requires multiset([cur] + rest) == multiset(open0) && cur < |adj| && cur != goal
    requires ExpandedFrom(dist, goal, s0, s1, cur, FindNeighbors(adj[cur], s0))
    ensures FrontierOk(adj, goal, rest + FindNeighbors(adj[cur], s0), s1)
  {
    var nbrs := FindNeighbors(adj[cur], s0);
    var open1 := rest + nbrs;
    assert cur in multiset(open0);
    forall i | 0 <= i < |open1|
      ensures open1[i] < |adj| && s1[open1[i]].visited
    {
      if i < |rest| {
        assert open1[i] in multiset(open0);
      } else {
        assert open1[i] in nbrs;
      }
    }
    forall v | 0 <= v < |adj| && s1[v].visited && v !in open1
      ensures v != goal && forall w :: w in adj[v] ==> w < |adj| && s1[w].visited
    {
      if v != cur {
        assert v !in rest && v !in nbrs;
        assert v !in multiset([cur] + rest);
      }
    }
  }

  /** An expansion never rediscovers a node, and one that discovers any shrinks the unvisited set. */
  lemma ExpansionShrinksUnvisited(adj: seq<seq<nat>>, dist: Distance, goal: nat, cur: nat, s0: seq<SearchNode>, s1: seq<SearchNode>)
    requires WellFormed(|adj|, adj) && cur < |adj| && |s0| == |adj|
    requires ExpandedFrom(dist, goal, s0, s1, cur, FindNeighbors(adj[cur], s0))
    ensures Unvisited(s1) <= Unvisited(s0)
    ensures FindNeighbors(adj[cur], s0) != [] ==> Unvisited(s1) < Unvisited(s0)
    ensures FindNeighbors(adj[cur], s0) == [] ==> Unvisited(s1) == Unvisited(s0)
  {
    var nbrs := FindNeighbors(adj[cur], s0);
    if nbrs != [] {
      var w := nbrs[0];
      assert w in nbrs && w in adj[cur];
      assert w < |adj| && !s0[w].visited && s1[w].visited;
      assert w in Unvisited(s0) - Unvisited(s1);
    }
  }

  /**
    One round of the search loop that extracts cur, finds it is not the goal
    and expands it keeps the tree and frontier invariants, leaves the start
    node as it was, and brings the loop nearer its end: fewer unvisited
    nodes, or as many and a shorter open list.
   */
  lemma ExpansionKeepsSearch(adj: seq<seq<nat>>, dist: Distance, goal: nat, start: nat, open0: seq<nat>, cur: nat, rest: seq<nat>,
                             s0: seq<SearchNode>, d0: seq<nat>, s1: seq<SearchNode>, d1: seq<nat>)
    requires WellFormed(|adj|, adj) && WellDiscovered(adj, dist, goal, start, s0, d0) && FrontierOk(adj, goal, open0, s0)
    requires multiset([cur] + rest) == multiset(open0) && cur < |adj| && cur != goal && s0[cur].visited
    requires ExpandedFrom(dist, goal, s0, s1, cur, FindNeighbors(adj[cur], s0))
    requires DeepenedFrom(d0, d1, cur, FindNeighbors(adj[cur], s0))
    ensures WellDiscovered(adj, dist, goal, start, s1, d1)
    ensures FrontierOk(adj, goal, rest + FindNeighbors(adj[cur], s0), s1)
    ensures Unvisited(s1) < Unvisited(s0) ||
            (Unvisited(s1) == Unvisited(s0) && |rest + FindNeighbors(adj[cur], s0)| < |open0|)
    ensures s1[start] == s0[start]
  {
    ExpansionKeepsTree(adj, dist, goal, start, s0, d0, s1, d1, cur);
    ExpansionKeepsFrontier(adj, dist, goal, open0, cur, rest, s0, s1);
    ExpansionShrinksUnvisited(adj, dist, goal, cur, s0, s1);
    assert |[cur] + rest| == |multiset([cur] + rest)| == |multiset(open0)| == |open0|;
  }

  /** The nodes of ex are discovered and their f = g + h never decreases along ex. */
  ghost predicate NonDecreasingF(nodes: seq<SearchNode>, ex: seq<nat>)
  {
    && (forall i :: 0 <= i < |ex| ==> ex[i] < |nodes| && nodes[ex[i]].visited)
    && (forall i, j :: 0 <= i < j < |ex| ==> nodes[ex[i]].g + nodes[ex[i]].h <= nodes[ex[j]].g + nodes[ex[j]].h)
  }

  /**
    `ex` lists nodes taken off the open list, in the order taken: their f
    never decreases along the list, and the last has no greater f than any
    node still on the open list.
   */
  ghost predicate ExtractedInOrder(open: seq<nat>, nodes: seq<SearchNode>, ex: seq<nat>)
  {
    && NonDecreasingF(nodes, ex)
    && (ex != [] ==> forall k :: 0 <= k < |open| && open[k] < |nodes| ==>
          nodes[ex[|ex| - 1]].g + nodes[ex[|ex| - 1]].h <= nodes[open[k]].g + nodes[open[k]].h)
  }

  /**
    Taking off the open list a discovered node of least f, as `NextNode`
    does, extends the extraction order by that node.
   */
  lemma ExtractionKeepsOrder(open0: seq<nat>, cur: nat, rest: seq<nat>, nodes: seq<SearchNode>, ex: seq<nat>)
    requires ExtractedInOrder(open0, nodes, ex)
    requires multiset([cur] + rest) == multiset(open0) && cur < |nodes| && nodes[cur].visited
    requires forall i :: 0 <= i < |open0| ==>
               open0[i] < |nodes| && nodes[cur].g + nodes[cur].h <= nodes[open0[i]].g + nodes[open0[i]].h
    ensures ExtractedInOrder(rest, nodes, ex + [cur])
  {
    var ex' := ex + [cur];
    assert cur in multiset(open0);
    forall k | 0 <= k < |rest| && rest[k] < |nodes|
      ensures nodes[cur].g + nodes[cur].h <= nodes[rest[k]].g + nodes[rest[k]].h
    {
      assert rest[k] in multiset(open0);
    }
    forall i, j | 0 <= i < j < |ex'|
      ensures nodes[ex'[i]].g + nodes[ex'[i]].h <= nodes[ex'[j]].g + nodes[ex'[j]].h
    {
      if j == |ex| && i < |ex| - 1 {
        assert nodes[ex[i]].g + nodes[ex[i]].h <= nodes[ex[|ex| - 1]].g + nodes[ex[|ex| - 1]].h;
      }
    }
  }

  /**
    With distances obeying the triangle inequality, and a start whose h does
    not exceed its distance to the goal, expanding the node extracted last
    discovers only nodes whose f is at least its own; so the extraction
    order is kept for the open list the expansion leaves.
   */
  lemma ExpansionKeepsOrder(adj: seq<seq<nat>>, dist: Distance, goal: nat, start: nat, open0: seq<nat>, cur: nat, rest: seq<nat>,
                            s0: seq<SearchNode>, d0: seq<nat>, s1: seq<SearchNode>, ex: seq<nat>)
    requires WellFormed(|adj|, adj) && WellDiscovered(adj, dist, goal, start, s0, d0) && FrontierOk(adj, goal, open0, s0)
    requires Triangle(dist) && s0[start].h <= dist(start, goal)
    requires multiset([cur] + rest) == multiset(open0) && cur < |adj|
    requires ExtractedInOrder(rest, s0, ex) && ex != [] && ex[|ex| - 1] == cur
    requires ExpandedFrom(dist, goal, s0, s1, cur, FindNeighbors(adj[cur], s0))
    ensures ExtractedInOrder(rest + FindNeighbors(adj[cur], s0), s1, ex)
  {
    var nbrs := FindNeighbors(adj[cur], s0);
    var open1 := rest + nbrs;
    assert s1[cur] == s0[cur];
    assert s0[cur].h <= dist(cur, goal) by {
      if cur != start {
        assert 0 <= s0[cur].parent;
      }
    }
    forall i | 0 <= i < |ex|
      ensures s1[ex[i]] == s0[ex[i]]
    {
      assert ex[i] !in nbrs;
    }
    forall k | 0 <= k < |open1| && open1[k] < |s1|
      ensures s1[cur].g + s1[cur].h <= s1[open1[k]].g + s1[open1[k]].h
    {
      var v := open1[k];
      if k < |rest| {
        assert v in multiset(open0);
        assert v !in nbrs;
      } else {
        assert v in nbrs;
        assert dist(cur, goal) <= dist(cur, v) + dist(v, goal);
      }
    }
  }

  /**
    The f values of extracted nodes never decrease. Suppose the nodes taken
    off the open list so far are in order, and a round takes off a node cur
    of least f and expands it. Suppose further that distances obey the
    triangle inequality and the start's h does not exceed its distance to
    the goal. Then the extraction order extends to cur and holds for the
    open list the expansion leaves. So the next node taken off, whatever it
    is, has f no smaller than cur's.
   */
  lemma RoundKeepsOrder(adj: seq<seq<nat>>, dist: Distance, goal: nat, start: nat, open0: seq<nat>, cur: nat, rest: seq<nat>,
                        s0: seq<SearchNode>, d0: seq<nat>, s1: seq<SearchNode>, ex: seq<nat>)
    requires WellFormed(|adj|, adj) && WellDiscovered(adj, dist, goal, start, s0, d0) && FrontierOk(adj, goal, open0, s0)
    requires Triangle(dist) && s0[start].h <= dist(start, goal)
    requires multiset([cur] + rest) == multiset(open0) && cur < |adj|
    requires forall i :: 0 <= i < |open0| ==> s0[cur].g + s0[cur].h <= s0[open0[i]].g + s0[open0[i]].h
    requires ExtractedInOrder(open0, s0, ex)
    requires ExpandedFrom(dist, goal, s0, s1, cur, FindNeighbors(adj[cur], s0))
    ensures ExtractedInOrder(rest + FindNeighbors(adj[cur], s0), s1, ex + [cur])
  {
    assert cur in multiset(open0);
    assert s0[cur].visited;
    ExtractionKeepsOrder(open0, cur, rest, s0, ex);
    ExpansionKeepsOrder(adj, dist, goal, start, open0, cur, rest, s0, d0, s1, ex + [cur]);
  }

  /**
    The route read off the parent links from the start to a discovered node
    is a walk in the graph.
   */
  lemma RootPathIsWalk(adj: seq<seq<nat>>, dist: Distance, goal: nat, start: nat,
                       nodes: seq<SearchNode>, depth: seq<nat>, v: nat)
    requires WellDiscovered(adj, dist, goal, start, nodes, depth)
    requires v < |adj| && nodes[v].visited
    ensures IsWalk(adj, RootPath(nodes, depth, start, v))
  {
    var p := RootPath(nodes, depth, start, v);
    RootPathLinks(nodes, depth, start, v);
    forall i | 0 <= i < |p| - 1
      ensures p[i + 1] in adj[p[i]]
    {
      assert nodes[p[i + 1]].visited && p[i + 1] != start && nodes[p[i + 1]].parent == p[i];
    }
  }

  /**
    With symmetric distances, the g a discovered node carries is the g of the
    start plus the length of the route from the start to it.
   */
  lemma CostIsRootPathLength(adj: seq<seq<nat>>, dist: Distance, goal: nat, start: nat,
                             nodes: seq<SearchNode>, depth: seq<nat>, v: nat)
    requires WellDiscovered(adj, dist, goal, start, nodes, depth) && Symmetric(dist)
    requires v < |adj| && nodes[v].visited
    ensures nodes[v].g == nodes[start].g + PathLength(dist, RootPath(nodes, depth, start, v))
  {
    RootPathLength(dist, nodes, depth, start, v);
    ChainDistIsCostFromRoot(dist, nodes, depth, start, v);
  }

  /**
    When the open list runs empty, the discovered nodes are closed under
    adjacency and exclude the goal, so the goal is unreachable from the start.
   */
  lemma ExhaustedMeansUnreachable(adj: seq<seq<nat>>, goal: nat, start: nat, nodes: seq<SearchNode>)
    requires FrontierOk(adj, goal, [], nodes) && start < |adj| && nodes[start].visited
    ensures !Reachable(adj, start, goal)
  {
    ClosedSetSeparates(adj, nodes, start, goal);
  }
}
