/** The random connected simple-graph generator: a spanning tree grown node by node,
    extra edges drawn at random with self-loops and repeated pairs rejected, then weights.

    Every `Math.random()` call of the generator reads the next value of the oracle `draws`
    instead; a node draw `d` picks position `d % |addedNodes|`, which is what the source's
    `Math.ceil(...) % addedNodes.length` does with its non-negative ceiling. */
module RandomGraphGenerator {
  import opened Values
  import opened Edges
  import opened Pairs
  import opened Connectivity

  datatype Outcome = Generated(edges: seq<Edge>) | DrawsExhausted

  /** The product of two consecutive integers is even. */
  lemma {:induction false} ConsecutiveProductEven(n: nat)
    ensures (n * (n - 1)) % 2 == 0
  {
    if n > 0 {
      ConsecutiveProductEven(n - 1);
      assert n * (n - 1) == (n - 1) * (n - 2) + 2 * (n - 1);
    }
  }

  /** The most edges a simple undirected graph on `n` nodes has. n(n-1) is even, so the
      floating-point division of the source is exact. */
  function MaxEdges(n: nat): (r: nat)
    ensures 2 * r == n * (n - 1)
    ensures n <= 1 <==> r == 0
    ensures r >= n - 1
  {
    ConsecutiveProductEven(n);
    assert n >= 2 ==> n * (n - 1) >= 2 * (n - 1) >= 2;
    n * (n - 1) / 2
  }

  /** `isEdgeUsed`: whether the pair is recorded as used in either direction, which is
      whether its unordered pair is among those of the recorded ordered pairs. */
  function IsEdgeUsed(used: set<(int, int)>, a: int, b: int): (r: bool)
    ensures r <==> Canon((a, b)) in CanonSet(used)
  {
    CanonMember(used, a, b);
    (a, b) in used || (b, a) in used
  }

  lemma CanonMember(used: set<(int, int)>, a: int, b: int)
    ensures Canon((a, b)) in CanonSet(used) ==> (a, b) in used || (b, a) in used
  {
    if Canon((a, b)) in CanonSet(used) {
      var p :| p in used && Canon(p) == Canon((a, b));
      assert p == (a, b) || p == (b, a);
    }
  }

  /** The node at the position a draw selects. */
  function Pick(added: seq<int>, d: nat): (v: int)
    requires |added| > 0
    ensures v in added
  {
    added[d % |added|]
  }

  /** The ordered pairs the generator has marked: only (source, destination) of each edge. */
  function UsedPairs(edges: seq<Edge>): set<(int, int)>
  {
    set k | 0 <= k < |edges| :: (edges[k].source, edges[k].destination)
  }

  lemma UsedPairsAppend(edges: seq<Edge>, e: Edge)
    ensures UsedPairs(edges + [e]) == UsedPairs(edges) + {(e.source, e.destination)}
  {
    var edges' := edges + [e];
    forall p | p in UsedPairs(edges')
      ensures p in UsedPairs(edges) + {(e.source, e.destination)}
    {
      var k :| 0 <= k < |edges'| && p == (edges'[k].source, edges'[k].destination);
      if k < |edges| {
        assert edges'[k] == edges[k];
      }
    }
    forall p | p in UsedPairs(edges) + {(e.source, e.destination)}
      ensures p in UsedPairs(edges')
    {
      if p in UsedPairs(edges) {
        var k :| 0 <= k < |edges| && p == (edges[k].source, edges[k].destination);
        assert edges'[k] == edges[k];
      } else {
        assert edges'[|edges|] == e;
      }
    }
  }

  /** Without repeated pairs, no two marked pairs name the same unordered pair. */
  lemma UsedPairsCanonInjective(edges: seq<Edge>)
    requires NoRepeatedPair(edges)
    ensures forall p, q :: p in UsedPairs(edges) && q in UsedPairs(edges) && Canon(p) == Canon(q) ==> p == q
  {
    forall p, q | p in UsedPairs(edges) && q in UsedPairs(edges) && Canon(p) == Canon(q)
      ensures p == q
    {
      var j :| 0 <= j < |edges| && p == (edges[j].source, edges[j].destination);
      var k :| 0 <= k < |edges| && q == (edges[k].source, edges[k].destination);
      if j < k {
        assert !SamePair(edges[j], edges[k]);
      } else if k < j {
        assert !SamePair(edges[k], edges[j]);
      }
    }
  }

  lemma UsedPairsWithin(edges: seq<Edge>, n: nat)
    requires forall k :: 0 <= k < |edges| ==> SimpleEdge(edges[k], n)
    ensures CanonSet(UsedPairs(edges)) <= AllPairs(n)
  {
    forall c | c in CanonSet(UsedPairs(edges))
      ensures c in AllPairs(n)
    {
      var p :| p in UsedPairs(edges) && c == Canon(p);
      var k :| 0 <= k < |edges| && p == (edges[k].source, edges[k].destination);
      assert SimpleEdge(edges[k], n);
    }
  }

  /** The state of the edge loop before step `i`: `i - 2` edges built, `addedNodes` holds
      1, 2, ..., min(i-1, n) in order followed by the sources of the extra edges. */
  ghost predicate Built(n: nat, i: int, added: seq<int>, used: set<(int, int)>, edges: seq<Edge>)
  {
    && i >= 2
    && |edges| == i - 2
    && |added| == i - 1
    && (forall k :: 0 <= k < |added| ==> 1 <= added[k] <= Max(n, 1))
    && (forall k :: 0 <= k < |added| && k < n ==> added[k] == k + 1)
    && (forall k :: 0 <= k < |edges| ==> SimpleEdge(edges[k], n) && edges[k].weight == Undefined)
    && AttachesInOrder(edges, Min(|edges|, n - 1))
    && NoRepeatedPair(edges)
    && used == UsedPairs(edges)
    && |used| == |edges|
  }

  /** In the spanning phase the first candidate `(i, r)` is already fresh: node `i` is new. */
  lemma {:induction false} FirstCandidateFresh(n: nat, i: int, added: seq<int>, used: set<(int, int)>,
                                               edges: seq<Edge>, r: int)
    requires Built(n, i, added, used, edges)
    requires i <= n
    requires r in added
    ensures 1 <= r < i
    ensures !IsEdgeUsed(used, i, r) && i != r
  {
    var k :| 0 <= k < |added| && added[k] == r;
    assert added[k] == k + 1;
    assert forall j :: 0 <= j < |edges| ==> edges[j].source < i && edges[j].destination < i;
    assert forall p :: p in used ==> p.0 < i && p.1 < i;
  }

  /** Once every node is in the tree and fewer than n(n-1)/2 edges exist, two of the first n
      positions of `addedNodes` (those holding 1..n) hold an unused pair of distinct nodes, so
      the resampling loop can exit. */
  lemma {:induction false} FreshPairExists(n: nat, i: int, added: seq<int>, used: set<(int, int)>,
                                           edges: seq<Edge>)
    requires Built(n, i, added, used, edges)
    requires i > n
    requires |edges| < MaxEdges(n)
    ensures exists a, b :: 0 <= a < n <= |added| && 0 <= b < n
              && added[a] != added[b] && !IsEdgeUsed(used, added[a], added[b])
  {
    UsedPairsCanonInjective(edges);
    CanonSetCount(used);
    UsedPairsWithin(edges, n);
    AllPairsCount(n);
    var missing := AllPairs(n) - CanonSet(used);
    assert AllPairs(n) == missing + CanonSet(used);
    assert |missing| > 0;
    var unused :| unused in AllPairs(n) - CanonSet(used);
    var a, b := unused.0 - 1, unused.1 - 1;
    assert added[a] == unused.0 && added[b] == unused.1;
  }

  /** Appending the accepted edge keeps the edge list simple, repetition-free and attached in order. */
  lemma {:induction false} ExtendEdges(n: nat, used: set<(int, int)>, edges: seq<Edge>, node: int, randomNode: int)
    requires forall k :: 0 <= k < |edges| ==> SimpleEdge(edges[k], n) && edges[k].weight == Undefined
    requires AttachesInOrder(edges, Min(|edges|, n - 1))
    requires NoRepeatedPair(edges)
    requires used == UsedPairs(edges)
    requires SimpleEdge(Edge(node, randomNode, Undefined), n) && !IsEdgeUsed(used, node, randomNode)
    requires |edges| < n - 1 ==> node == |edges| + 2 && randomNode <= |edges| + 1
    ensures var edges' := edges + [Edge(node, randomNode, Undefined)];
      && (forall k :: 0 <= k < |edges'| ==> SimpleEdge(edges'[k], n) && edges'[k].weight == Undefined)
      && AttachesInOrder(edges', Min(|edges'|, n - 1))
      && NoRepeatedPair(edges')
  {
    var e := Edge(node, randomNode, Undefined);
    var edges' := edges + [e];
    assert forall k :: 0 <= k < |edges| ==> edges'[k] == edges[k];
    forall j | 0 <= j < |edges|
      ensures !SamePair(edges[j], e)
    {
      assert (edges[j].source, edges[j].destination) in used;
    }
  }

  /** Recording the accepted candidate keeps the loop state. */
  lemma {:induction false} Extend(n: nat, i: int, added: seq<int>, used: set<(int, int)>, edges: seq<Edge>,
                                  node: int, randomNode: int)
    requires Built(n, i, added, used, edges)
    requires i - 1 <= MaxEdges(n)
    requires randomNode in added && (i > n ==> node in added)
    requires node != randomNode && !IsEdgeUsed(used, node, randomNode)
    requires i <= n ==> node == i && randomNode < i
    ensures Built(n, i + 1, added + [node], used + {(node, randomNode)},
                  edges + [Edge(node, randomNode, Undefined)])
  {
    assert n >= 2;
    var added' := added + [node];
    assert 1 <= node <= n && 1 <= randomNode <= n;
    assert forall k :: 0 <= k < |added| ==> added'[k] == added[k];
    assert (node, randomNode) !in used;
    ExtendEdges(n, used, edges, node, randomNode);
    UsedPairsAppend(edges, Edge(node, randomNode, Undefined));
  }

  /** The weight one draw gives: `Math.ceil(Math.random() * range) % range + minWeight`
      with `range = maxWeight - minWeight + 1`. The ceiling has the sign of `range`, so the
      draw `d` stands for its absolute value: the ceiling itself when `range > 0`, minus the
      ceiling when `range < 0`. JavaScript's `%` truncates toward zero and yields NaN for a
      zero divisor. */
  function DrawnWeight(d: nat, minWeight: int, maxWeight: int): (w: Value)
    ensures minWeight <= maxWeight ==> w.Number? && minWeight <= w.n <= maxWeight
    ensures maxWeight == minWeight - 1 ==> w == NaN
    ensures maxWeight < minWeight - 1 ==> w.Number? && maxWeight + 2 <= w.n <= minWeight
  {
    var range := maxWeight - minWeight + 1;
    if range == 0 then NaN
    else if range > 0 then Number(d % range + minWeight)
    else Number(-(d % -range) + minWeight)
  }

  /** The edge loop of `generate`: steps i = 2 .. count+1, each drawing a candidate and
      resampling until it is neither a self-loop nor a used pair. Returns the edges and the
      number of draws read. */
  method BuildEdges(n: nat, count: int, draws: seq<nat>) returns (r: Outcome, pos: nat)
    requires count <= MaxEdges(n)
    ensures pos <= |draws|
    ensures r.Generated? ==> |r.edges| == Max(0, count)
    ensures r.Generated? ==> forall k :: 0 <= k < |r.edges| ==>
              SimpleEdge(r.edges[k], n) && r.edges[k].weight == Undefined
    ensures r.Generated? ==> NoRepeatedPair(r.edges)
    ensures r.Generated? ==> AttachesInOrder(r.edges, Min(|r.edges|, n - 1))
    ensures count <= n - 1 && |draws| >= count ==> r.Generated? && pos == Max(0, count)
  {
    var added := [1];
    var used: set<(int, int)> := {};
    var edges: seq<Edge> := [];
    pos := 0;
    var i := 2;
    while i <= count + 1
      invariant 2 <= i <= Max(count, 0) + 2
      invariant pos <= |draws|
      invariant Built(n, i, added, used, edges)
      invariant count <= n - 1 ==> pos == i - 2
      decreases count + 2 - i
    {
      if pos == |draws| {
        return DrawsExhausted, pos;
      }
      var node := i;
      var randomNode := Pick(added, draws[pos]);
      pos := pos + 1;
      if i > n {
        if pos == |draws| {
          return DrawsExhausted, pos;
        }
        node := Pick(added, draws[pos]);
        pos := pos + 1;
      } else {
        FirstCandidateFresh(n, i, added, used, edges, randomNode);
      }
      ghost var entry := pos;
      while IsEdgeUsed(used, node, randomNode) || node == randomNode
        invariant entry <= pos <= |draws|
        invariant randomNode in added && (i > n ==> node in added)
        invariant i <= n ==> node == i && 1 <= randomNode < i && pos == entry
                             && !IsEdgeUsed(used, node, randomNode) && node != randomNode
        decreases |draws| - pos
      {
        if i > n {
          if pos == |draws| {
            return DrawsExhausted, pos;
          }
          node := Pick(added, draws[pos]);
          pos := pos + 1;
        }
        if pos == |draws| {
          return DrawsExhausted, pos;
        }
        randomNode := Pick(added, draws[pos]);
        pos := pos + 1;
      }
      Extend(n, i, added, used, edges, node, randomNode);
      edges := edges + [Edge(node, randomNode, Undefined)];
      used := used + {(node, randomNode)};
      added := added + [node];
      i := i + 1;
    }
    r := Generated(edges);
  }

  /** The weight pass over the finished edge list, reading one draw per edge when weighted. */
  method AssignWeights(edges: seq<Edge>, isWeighted: bool, minWeight: int, maxWeight: int,
                       draws: seq<nat>, start: nat)
    returns (r: Outcome)
    requires start <= |draws|
    ensures r.DrawsExhausted? <==> isWeighted && |draws| - start < |edges|
    ensures r.Generated? ==> |r.edges| == |edges|
    ensures r.Generated? ==> forall k :: 0 <= k < |edges| ==>
              r.edges[k].source == edges[k].source && r.edges[k].destination == edges[k].destination
    ensures r.Generated? ==> forall k :: 0 <= k < |edges| ==>
              r.edges[k].weight == (if isWeighted then DrawnWeight(draws[start + k], minWeight, maxWeight)
                                    else Undefined)
  {
    var out := edges;
    var pos := start;
    var k := 0;
    while k < |edges|
      invariant 0 <= k <= |edges|
      invariant |out| == |edges|
      invariant pos == start + (if isWeighted then k else 0) && pos <= |draws|
      invariant isWeighted ==> start + k <= |draws|
      invariant forall j :: 0 <= j < |edges| ==>
                  out[j].source == edges[j].source && out[j].destination == edges[j].destination
      invariant forall j :: 0 <= j < k ==>
                  out[j].weight == (if isWeighted then DrawnWeight(draws[start + j], minWeight, maxWeight)
                                    else Undefined)
    {
      if isWeighted {
        if pos == |draws| {
          return DrawsExhausted;
        }
        out := out[k := out[k].(weight := DrawnWeight(draws[pos], minWeight, maxWeight))];
        pos := pos + 1;
      } else {
        out := out[k := out[k].(weight := Undefined)];
      }
      k := k + 1;
    }
    r := Generated(out);
  }

  /** `generate(numberOfNodes, numberOfEdges, isWeighted, minWeight, maxWeight)`: the edge
      count is clamped to n(n-1)/2, the edges are built, then weighted. */
  method Generate(n: nat, e: int, isWeighted: bool, minWeight: int, maxWeight: int, draws: seq<nat>)
    returns (r: Outcome)
    ensures r.Generated? ==> |r.edges| == Max(0, Min(e, MaxEdges(n)))
    ensures r.Generated? ==> forall k :: 0 <= k < |r.edges| ==> SimpleEdge(r.edges[k], n)
    ensures r.Generated? ==> NoRepeatedPair(r.edges)
    ensures r.Generated? ==> AttachesInOrder(r.edges, Min(|r.edges|, n - 1))
    ensures r.Generated? ==> forall v :: 1 <= v <= Min(|r.edges|, n - 1) + 1 ==> Reachable(r.edges, 1, v)
    ensures r.Generated? && e >= n - 1 ==> forall v :: 1 <= v <= n ==> Reachable(r.edges, 1, v)
    ensures r.Generated? && !isWeighted ==> forall k :: 0 <= k < |r.edges| ==> r.edges[k].weight == Undefined
    ensures r.Generated? && isWeighted && minWeight <= maxWeight ==>
              forall k :: 0 <= k < |r.edges| ==>
                r.edges[k].weight.Number? && minWeight <= r.edges[k].weight.n <= maxWeight
    ensures Min(e, MaxEdges(n)) <= n - 1
            && |draws| >= Max(0, Min(e, MaxEdges(n))) + (if isWeighted then Max(0, Min(e, MaxEdges(n))) else 0)
            ==> r.Generated?
  {
    var count := Min(e, MaxEdges(n));
    var built, pos := BuildEdges(n, count, draws);
    if built.DrawsExhausted? {
      return DrawsExhausted;
    }
    r := AssignWeights(built.edges, isWeighted, minWeight, maxWeight, draws, pos);
    if r.Generated? {
      assert AttachesInOrder(r.edges, Min(|r.edges|, n - 1));
      AttachedNodesReachable(r.edges, Min(|r.edges|, n - 1));
      assert e >= n - 1 ==> Min(|r.edges|, n - 1) == n - 1;
    }
  }
}
