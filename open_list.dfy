/**
  Ordering of the open list by f = g + h, the key `NextNode` sorts on.
 */
module OpenList {
  import opened Graph

  /** The f value of every node: its cost so far plus its estimate of the cost to the goal. */
  function FValues(nodes: seq<SearchNode>): seq<int>
  {
    seq(|nodes|, v requires 0 <= v < |nodes| => nodes[v].g + nodes[v].h)
  }

  /** Every entry of s is a node that key has a value for. */
  ghost predicate Keyed(s: seq<nat>, key: seq<int>) {
    forall i :: 0 <= i < |s| ==> s[i] < |key|
  }

  /** s is in non-decreasing order of key. */
  ghost predicate SortedBy(s: seq<nat>, key: seq<int>)
    requires Keyed(s, key)
  {
    forall i, j :: 0 <= i < j < |s| ==> key[s[i]] <= key[s[j]]
  }

  /** The first n entries of s are in non-decreasing order of key. */
  ghost predicate SortedPrefix(s: seq<nat>, key: seq<int>, n: nat)
    requires Keyed(s, key) && n <= |s|
  {
    forall i, j :: 0 <= i < j < n ==> key[s[i]] <= key[s[j]]
  }

  /**
    Rearranges s into non-decreasing order of key. Which of several nodes with
    equal key comes first is not specified.
   */
  method SortBy(s: seq<nat>, key: seq<int>) returns (r: seq<nat>)
    requires Keyed(s, key)
    ensures multiset(r) == multiset(s)
    ensures Keyed(r, key) && SortedBy(r, key)
  {
    r := s;
    var i := 0;
    while i < |r|
      invariant 0 <= i <= |r| == |s|
      invariant multiset(r) == multiset(s)
      invariant Keyed(r, key)
      invariant SortedPrefix(r, key, i)
    {
      r := InsertIntoPrefix(r, i, key);
      i := i + 1;
    }
  }

  /** s with its entries at k and k + 1 exchanged. */
  function SwapAdjacent(s: seq<nat>, k: nat): (r: seq<nat>)
    requires k + 1 < |s|
    ensures |r| == |s| && r[k] == s[k + 1] && r[k + 1] == s[k]
    ensures forall m :: 0 <= m < |s| && m != k && m != k + 1 ==> r[m] == s[m]
    ensures multiset(r) == multiset(s)
  {
    s[k := s[k + 1]][k + 1 := s[k]]
  }

  /**
    Midway through inserting the node at position j: t[..i + 1] is sorted
    once position j is left out, and the node at j is no greater than any
    node after it up to i.
   */
  ghost predicate Sifting(t: seq<nat>, key: seq<int>, i: nat, j: nat)
    requires Keyed(t, key) && j <= i < |t|
  {
    && (forall a, b :: 0 <= a < b <= i && a != j && b != j ==> key[t[a]] <= key[t[b]])
    && (forall b :: j < b <= i ==> key[t[j]] <= key[t[b]])
  }

  /** Exchanging the node at j with a greater left neighbour moves the insertion one step on. */
  lemma SiftStep(t: seq<nat>, key: seq<int>, i: nat, j: nat)
    requires Keyed(t, key) && 0 < j <= i < |t| && Sifting(t, key, i, j)
    requires key[t[j]] < key[t[j - 1]]
    ensures Keyed(SwapAdjacent(t, j - 1), key) && Sifting(SwapAdjacent(t, j - 1), key, i, j - 1)
  {
  }

  /** An insertion that has stopped leaves t[..i + 1] sorted. */
  lemma SiftDone(t: seq<nat>, key: seq<int>, i: nat, j: nat)
    requires Keyed(t, key) && j <= i < |t| && Sifting(t, key, i, j)
    requires j == 0 || key[t[j - 1]] <= key[t[j]]
    ensures SortedPrefix(t, key, i + 1)
  {
    forall a, b | 0 <= a < b <= i
      ensures key[t[a]] <= key[t[b]]
    {
      if b == j && a < j - 1 {
        assert key[t[a]] <= key[t[j - 1]];
      }
    }
  }

  /** Moves r[i] left past every node of greater key in the sorted prefix r[..i]. */
  method InsertIntoPrefix(r: seq<nat>, i: nat, key: seq<int>) returns (t: seq<nat>)
    requires Keyed(r, key) && i < |r| && SortedPrefix(r, key, i)
    ensures multiset(t) == multiset(r) && |t| == |r|
    ensures Keyed(t, key) && SortedPrefix(t, key, i + 1)
  {
    t := r;
    var j := i;
    while 0 < j && key[t[j]] < key[t[j - 1]]
      invariant 0 <= j <= i < |t| == |r|
      invariant multiset(t) == multiset(r)
      invariant Keyed(t, key) && Sifting(t, key, i, j)
    {
      SiftStep(t, key, i, j);
      t := SwapAdjacent(t, j - 1);
      j := j - 1;
    }
    SiftDone(t, key, i, j);
  }

  /**
    Sorting `before` by key and taking the front yields a node of `before`
    with the least key of all its nodes, and leaves the rest of its nodes.
   */
  lemma FrontIsMinimal(before: seq<nat>, s: seq<nat>, key: seq<int>)
    requires Keyed(s, key) && SortedBy(s, key) && s != [] && multiset(s) == multiset(before)
    ensures Keyed(before, key) && s[0] in before && |s[1..]| == |before| - 1
    ensures multiset([s[0]] + s[1..]) == multiset(before)
    ensures forall i :: 0 <= i < |before| ==> key[s[0]] <= key[before[i]]
  {
    assert |s| == |multiset(s)| == |multiset(before)| == |before|;
    assert s[0] in multiset(before);
    assert s == [s[0]] + s[1..];
    forall i | 0 <= i < |before|
      ensures before[i] < |key|
    {
      assert before[i] in multiset(s);
    }
    forall i | 0 <= i < |before|
      ensures key[s[0]] <= key[before[i]]
    {
      assert before[i] in multiset(s);
      var k :| 0 <= k < |s| && s[k] == before[i];
    }
  }
}
