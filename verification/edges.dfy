/** The edge records the random generator produces, and the simplicity properties of an edge list. */
module Edges {
  import opened Values

  /** `{source, destination, weight}`; `weight` is `undefined` for an unweighted graph. */
  datatype Edge = Edge(source: int, destination: int, weight: Value)

  /** Whether `e` joins `a` and `b`, in either direction. */
  predicate Joins(e: Edge, a: int, b: int)
  {
    (e.source == a && e.destination == b) || (e.source == b && e.destination == a)
  }

  /** Whether two edges join the same unordered pair of nodes. */
  predicate SamePair(e: Edge, f: Edge)
  {
    Joins(e, f.source, f.destination)
  }

  /** No unordered pair of nodes is joined by two edges of the list. */
  predicate NoRepeatedPair(edges: seq<Edge>)
  {
    forall j, k :: 0 <= j < k < |edges| ==> !SamePair(edges[j], edges[k])
  }

  /** Both endpoints are node ids 1..n, and they differ. */
  predicate SimpleEdge(e: Edge, n: int)
  {
    1 <= e.source <= n && 1 <= e.destination <= n && e.source != e.destination
  }
}
