/**
  The parent back-references the search leaves on discovered nodes, read as a
  tree rooted at the start node, and the path `ConstructFinalPath` reads off it.
 */
module ParentChain {
  import opened Graph

  /**
    Over the visited nodes, the parent links form a tree rooted at `root`:
    every visited node other than the root has a visited parent one level
    closer to the root. `depth` is the level; it only serves to show that a
    chain of parents ends, so the model keeps it as ghost state.
   */
  ghost predicate Rooted(nodes: seq<SearchNode>, depth: seq<nat>, root: nat) {
    && |nodes| == |depth|
    && root < |nodes| && nodes[root].visited && depth[root] == 0
    && forall v {:trigger nodes[v].parent} :: 0 <= v < |nodes| && nodes[v].visited && v != root ==>
         && 0 <= nodes[v].parent < |nodes| && nodes[nodes[v].parent].visited
         && depth[v] == depth[nodes[v].parent] + 1
  }

  /**
    The nodes met when following parents from v up to the root: v first and
    the root last (`AncestryLinks` shows each later node is the parent of the
    one before).
   */
  ghost function Ancestry(nodes: seq<SearchNode>, depth: seq<nat>, root: nat, v: nat): (r: seq<nat>)
    requires Rooted(nodes, depth, root) && v < |nodes| && nodes[v].visited
    ensures |r| == depth[v] + 1 && r[0] == v && r[|r| - 1] == root
    decreases depth[v]
  {
    if v == root then [root]
    else
      [v] + Ancestry(nodes, depth, root, nodes[v].parent)
  }

  /** Every node of r is visited, and each but the last is a non-root node whose parent is the next. */
  ghost predicate LinkedUp(nodes: seq<SearchNode>, root: nat, r: seq<nat>) {
    && (forall i :: 0 <= i < |r| ==> r[i] < |nodes| && nodes[r[i]].visited)
    && (forall i {:trigger nodes[r[i]].parent} :: 0 <= i < |r| - 1 ==>
          r[i] < |nodes| && r[i] != root && nodes[r[i]].parent == r[i + 1])
  }

  /** Every node of p is visited, and each after the first is a non-root node whose parent is the one before. */
  ghost predicate LinkedDown(nodes: seq<SearchNode>, root: nat, p: seq<nat>) {
    && (forall i :: 0 <= i < |p| ==> p[i] < |nodes| && nodes[p[i]].visited)
    && (forall i {:trigger nodes[p[i]].parent} :: 0 < i < |p| ==>
          p[i] < |nodes| && p[i] != root && nodes[p[i]].parent == p[i - 1])
  }

  /** The ancestry follows the parent links. */
  lemma {:induction false} AncestryLinks(nodes: seq<SearchNode>, depth: seq<nat>, root: nat, v: nat)
    requires Rooted(nodes, depth, root) && v < |nodes| && nodes[v].visited
    ensures LinkedUp(nodes, root, Ancestry(nodes, depth, root, v))
    decreases depth[v]
  {
    if v != root {
      var u := nodes[v].parent;
      AncestryLinks(nodes, depth, root, u);
      var r := Ancestry(nodes, depth, root, v);
      var q := Ancestry(nodes, depth, root, u);
      assert r == [v] + q;
      forall i | 0 <= i < |r| - 1
        ensures r[i] < |nodes| && r[i] != root && nodes[r[i]].parent == r[i + 1]
      {
        if i > 0 {
          assert r[i] == q[i - 1] && r[i + 1] == q[i];
          assert nodes[q[i - 1]].parent == q[i];
        }
      }
    }
  }

  /** Sum of the distances from each node on the chain above v to its parent. */
  ghost function ChainDist(dist: Distance, nodes: seq<SearchNode>, depth: seq<nat>, root: nat, v: nat): nat
    requires Rooted(nodes, depth, root) && v < |nodes| && nodes[v].visited
    decreases depth[v]
  {
    if v == root then 0
    else dist(v, nodes[v].parent) + ChainDist(dist, nodes, depth, root, nodes[v].parent)
  }

  /** The elements of s in the opposite order. */
  function Reversed(s: seq<nat>): (r: seq<nat>)
    ensures |r| == |s|
    ensures forall k :: 0 <= k < |s| ==> r[k] == s[|s| - 1 - k]
  {
    if s == [] then [] else Reversed(s[1..]) + [s[0]]
  }

  /** Reverses s by exchanging its elements pairwise from both ends inwards. */
  method Reverse(s: seq<nat>) returns (r: seq<nat>)
    ensures r == Reversed(s)
  {
    r := s;
    var n := |s|;
    var i := 0;
    while i < n / 2
      invariant 0 <= i <= n / 2 && |r| == n
      invariant forall k :: 0 <= k < i ==> r[k] == s[n - 1 - k] && r[n - 1 - k] == s[k]
      invariant forall k :: i <= k < n - i ==> r[k] == s[k]
    {
      r := r[i := r[n - 1 - i]][n - 1 - i := r[i]];
      i := i + 1;
    }
  }

  /**
    The chain above v read from the root down: a path from the root to v
    (`RootPathLinks` shows each node after the first has the node before it
    as its parent).
   */
  ghost function RootPath(nodes: seq<SearchNode>, depth: seq<nat>, root: nat, v: nat): (p: seq<nat>)
    requires Rooted(nodes, depth, root) && v < |nodes| && nodes[v].visited
    ensures |p| == depth[v] + 1 && p[0] == root && p[|p| - 1] == v
  {
    Reversed(Ancestry(nodes, depth, root, v))
  }

  /** From the root itself the route is the root alone, of length zero. */
  lemma RootPathOfRoot(dist: Distance, nodes: seq<SearchNode>, depth: seq<nat>, root: nat)
    requires Rooted(nodes, depth, root)
    ensures RootPath(nodes, depth, root, root) == [root]
    ensures PathLength(dist, RootPath(nodes, depth, root, root)) == 0
  {
    var p := RootPath(nodes, depth, root, root);
    assert |p| == 1 && p[0] == root;
  }

  /** Read backwards, a chain that follows parent links upwards follows them downwards. */
  lemma ReversedLinks(nodes: seq<SearchNode>, root: nat, r: seq<nat>)
    requires LinkedUp(nodes, root, r)
    ensures LinkedDown(nodes, root, Reversed(r))
  {
    var p := Reversed(r);
    forall i | 0 < i < |p|
      ensures p[i] < |nodes| && p[i] != root && nodes[p[i]].parent == p[i - 1]
    {
      var k := |r| - 1 - i;
      assert p[i] == r[k] && p[i - 1] == r[k + 1];
    }
  }

  /** The root path follows the parent links downwards. */
  lemma RootPathLinks(nodes: seq<SearchNode>, depth: seq<nat>, root: nat, v: nat)
    requires Rooted(nodes, depth, root) && v < |nodes| && nodes[v].visited
    ensures LinkedDown(nodes, root, RootPath(nodes, depth, root, v))
  {
    AncestryLinks(nodes, depth, root, v);
    ReversedLinks(nodes, root, Ancestry(nodes, depth, root, v));
  }

  /** The length of the root-to-v path is the chain's summed distance. */
  lemma {:induction false} RootPathLength(dist: Distance, nodes: seq<SearchNode>, depth: seq<nat>, root: nat, v: nat)
    requires Rooted(nodes, depth, root) && v < |nodes| && nodes[v].visited
    ensures PathLength(dist, RootPath(nodes, depth, root, v)) == ChainDist(dist, nodes, depth, root, v)
    decreases depth[v]
  {
    if v != root {
      var u := nodes[v].parent;
      RootPathLength(dist, nodes, depth, root, u);
      var a := Ancestry(nodes, depth, root, v);
      var a' := Ancestry(nodes, depth, root, u);
      var p := RootPath(nodes, depth, root, v);
      var q := RootPath(nodes, depth, root, u);
      assert a[1..] == a';
      assert p == q + [v];
      assert p[..|p| - 1] == q;
    }
  }

  /**
    When each discovered node's g is its parent's g plus the edge between
    them, and distances are symmetric, the chain's summed distance is the
    g the node was given minus the g of the root.
   */
  lemma {:induction false} ChainDistIsCostFromRoot(dist: Distance, nodes: seq<SearchNode>, depth: seq<nat>, root: nat, v: nat)
    requires Rooted(nodes, depth, root) && Symmetric(dist)
    requires forall u {:trigger nodes[u].parent} :: 0 <= u < |nodes| && nodes[u].visited && u != root ==>
               nodes[u].g == nodes[nodes[u].parent].g + dist(nodes[u].parent, u)
    requires v < |nodes| && nodes[v].visited
    ensures ChainDist(dist, nodes, depth, root, v) == nodes[v].g - nodes[root].g
    decreases depth[v]
  {
    if v != root {
      var u := nodes[v].parent;
      ChainDistIsCostFromRoot(dist, nodes, depth, root, u);
      assert dist(u, v) == dist(v, u);
    }
  }

  /**
    Partway through walking the parent links up from c: `walked` holds the
    nodes left behind, in the order met, `sum` the distances from each of
    them to its parent, and `current` is where the walk stands.
   */
  ghost predicate Climbing(dist: Distance, nodes: seq<SearchNode>, depth: seq<nat>, root: nat,
                           c: nat, walked: seq<nat>, sum: int, current: nat)
    requires Rooted(nodes, depth, root) && c < |nodes| && nodes[c].visited
  {
    && current < |nodes| && nodes[current].visited
    && walked + Ancestry(nodes, depth, root, current) == Ancestry(nodes, depth, root, c)
    && sum + ChainDist(dist, nodes, depth, root, current) == ChainDist(dist, nodes, depth, root, c)
  }

  /** Stepping from a non-root node to its parent continues the walk and brings it nearer the root. */
  lemma ClimbStep(dist: Distance, nodes: seq<SearchNode>, depth: seq<nat>, root: nat,
                  c: nat, walked: seq<nat>, sum: int, current: nat)
    requires Rooted(nodes, depth, root) && c < |nodes| && nodes[c].visited
    requires Climbing(dist, nodes, depth, root, c, walked, sum, current) && current != root
    ensures 0 <= nodes[current].parent < |nodes| && depth[nodes[current].parent] < depth[current]
    ensures Climbing(dist, nodes, depth, root, c, walked + [current],
                     sum + dist(current, nodes[current].parent), nodes[current].parent)
  {
    var rest := Ancestry(nodes, depth, root, nodes[current].parent);
    assert Ancestry(nodes, depth, root, current) == [current] + rest;
    assert (walked + [current]) + rest == walked + ([current] + rest);
  }

  /**
    A walk that has reached the root has met exactly the ancestry of c; read
    backwards it is the root path to c, whose length is the sum.
   */
  lemma ClimbDone(dist: Distance, nodes: seq<SearchNode>, depth: seq<nat>, root: nat,
                  c: nat, walked: seq<nat>, sum: int)
    requires Rooted(nodes, depth, root) && c < |nodes| && nodes[c].visited
    requires Climbing(dist, nodes, depth, root, c, walked, sum, root)
    ensures walked + [root] == Ancestry(nodes, depth, root, c)
    ensures Reversed(walked + [root]) == RootPath(nodes, depth, root, c)
    ensures sum == PathLength(dist, RootPath(nodes, depth, root, c))
  {
    RootPathLength(dist, nodes, depth, root, c);
  }
}
