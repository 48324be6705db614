/** Reachability over an undirected edge list, and why the generator's first phase connects its nodes. */
module Connectivity {
  import opened Edges

  ghost predicate Adjacent(edges: seq<Edge>, a: int, b: int)
  {
    exists k :: 0 <= k < |edges| && Joins(edges[k], a, b)
  }

  /** Consecutive nodes of `p` are joined by some edge. */
  ghost predicate IsWalk(edges: seq<Edge>, p: seq<int>)
  {
    forall k :: 0 <= k < |p| - 1 ==> Adjacent(edges, p[k], p[k + 1])
  }

  ghost predicate Reachable(edges: seq<Edge>, a: int, b: int)
  {
    exists p :: |p| >= 1 && p[0] == a && p[|p| - 1] == b && IsWalk(edges, p)
  }

  /** The first `m` edges attach the nodes 2, 3, ..., m+1 in order, each to a node added before it. */
  predicate AttachesInOrder(edges: seq<Edge>, m: int)
  {
    && m <= |edges|
    && forall k :: 0 <= k < m ==> edges[k].source == k + 2 && 1 <= edges[k].destination <= k + 1
  }

  /** The walk from node 1 down the attachment chain to `v`, read backwards. */
  ghost function TreeWalk(edges: seq<Edge>, m: int, v: int): (p: seq<int>)
    requires AttachesInOrder(edges, m)
    requires 1 <= v <= m + 1
    ensures |p| >= 1 && p[0] == 1 && p[|p| - 1] == v
    ensures IsWalk(edges, p)
    decreases v
  {
    if v == 1 then [1]
    else
      var q := TreeWalk(edges, m, edges[v - 2].destination);
      assert Joins(edges[v - 2], q[|q| - 1], v);
      var p := q + [v];
      assert forall k :: 0 <= k < |q| ==> p[k] == q[k];
      p
  }

  /** Attaching nodes in order makes every one of 1..m+1 reachable from node 1. */
  lemma AttachedNodesReachable(edges: seq<Edge>, m: int)
    requires AttachesInOrder(edges, m)
    ensures forall v :: 1 <= v <= m + 1 ==> Reachable(edges, 1, v)
  {
    forall v | 1 <= v <= m + 1
      ensures Reachable(edges, 1, v)
    {
      var p := TreeWalk(edges, m, v);
      assert IsWalk(edges, p);
    }
  }
}
