/** The graph editor's data store: the node list, the `nodeList` id table that keeps node ids
    distinct, the link list, and the flags of the double-click-then-click link gesture.
    A node object is identified by its id; the store keeps ids distinct. */
module GraphStore {
  import opened Values

  /** `{source, target, weight}`: the endpoints are the node objects found for the given ids
      (`undefined` when none was found). */
  datatype Link = Link(source: Option<int>, target: Option<int>, weight: Value)

  datatype Store = Store(
    nodes: seq<int>,                   // `graphData.nodes`, by id, in insertion order
    keys: set<int>,                    // the keys of `nodeList`
    links: seq<Link>,                  // `graphData.links`
    isAddingNewLink: bool,
    addingLinkFromNode: Option<int>,
    addedNewLink: bool)

  predicate Distinct(xs: seq<int>)
  {
    forall i, j :: 0 <= i < j < |xs| ==> xs[i] != xs[j]
  }

  function IdSet(xs: seq<int>): set<int>
  {
    set x | x in xs
  }

  /** The store invariant: `nodeList` has a key exactly for each node id, the ids are
      distinct, and a link gesture in progress knows its start node. */
  predicate Valid(s: Store)
  {
    && s.keys == IdSet(s.nodes)
    && Distinct(s.nodes)
    && (s.isAddingNewLink ==> s.addingLinkFromNode.Some?)
  }

  /** The keys the initialisation loop enters into `nodeList`, one node at a time. */
  function NodeListKeys(ids: seq<int>): (r: set<int>)
    ensures r == IdSet(ids)
    decreases |ids|
  {
    if |ids| == 0 then {}
    else
      var prefix := ids[..|ids| - 1];
      assert ids == prefix + [ids[|ids| - 1]];
      NodeListKeys(prefix) + {ids[|ids| - 1]}
  }

  /** The store as constructed from initial node ids and links: `nodeList` filled from the
      nodes, no gesture in progress. */
  function Initial(ids: seq<int>, links: seq<Link>): (s: Store)
    ensures s.nodes == ids && s.links == links
    ensures Valid(s) <==> Distinct(ids)
  {
    Store(ids, NodeListKeys(ids), links, false, None, false)
  }

  function Clear(s: Store): (r: Store)
    ensures r.nodes == [] && r.keys == {} && r.links == []
    ensures Valid(s) ==> Valid(r)
    ensures r.isAddingNewLink == s.isAddingNewLink && r.addingLinkFromNode == s.addingLinkFromNode
            && r.addedNewLink == s.addedNewLink
  {
    s.(nodes := [], keys := {}, links := [])
  }

  /** The integers 1..m. */
  function UpTo(m: nat): (r: set<int>)
    ensures |r| == m
    ensures forall j :: j in r <==> 1 <= j <= m
  {
    if m == 0 then {} else UpTo(m - 1) + {m}
  }

  /** Every one of 1..m is a key, and there are only m keys: m + 1 is not one. */
  lemma {:induction false} Pigeonhole(keys: set<int>)
    requires forall j :: 1 <= j <= |keys| ==> j in keys
    ensures |keys| + 1 !in keys
  {
    var low := UpTo(|keys|);
    assert low <= keys;
    assert keys == low + (keys - low);
    assert |keys - low| == 0;
    assert keys == low;
  }

  /** The loop of `findUnusedNodeId` from `i` on: 1..i-1 are already known to be keys. */
  function ScanFrom(keys: set<int>, i: int): (r: int)
    requires 1 <= i <= |keys| + 1
    requires forall j :: 1 <= j < i ==> j in keys
    ensures i <= r <= |keys| + 1
    ensures r !in keys
    ensures forall j :: 1 <= j < r ==> j in keys
    decreases |keys| + 1 - i
  {
    if i == |keys| + 1 then
      Pigeonhole(keys);
      |keys| + 1
    else if i !in keys then i
    else ScanFrom(keys, i + 1)
  }

  /** The least positive integer that is not a key of `nodeList`. */
  function FindUnusedNodeId(keys: set<int>): (r: int)
    ensures 1 <= r <= |keys| + 1
    ensures r !in keys
    ensures forall j :: 1 <= j < r ==> j in keys
  {
    ScanFrom(keys, 1)
  }

  /** The search of `findNodeObject` from position `i` on. */
  function FindFrom(nodes: seq<int>, name: int, i: nat): (r: Option<nat>)
    requires i <= |nodes|
    requires name !in nodes[..i]
    ensures r.Some? ==> i <= r.value < |nodes| && nodes[r.value] == name && name !in nodes[..r.value]
    ensures r.None? <==> name !in nodes
    decreases |nodes| - i
  {
    if i == |nodes| then
      assert nodes[..i] == nodes;
      None
    else if nodes[i] == name then Some(i)
    else
      assert nodes[..i + 1] == nodes[..i] + [nodes[i]];
      FindFrom(nodes, name, i + 1)
  }

  /** The position of the first node whose id is `name`, or `undefined`. */
  function FindNodeObject(nodes: seq<int>, name: int): (r: Option<nat>)
    ensures r.Some? ==> r.value < |nodes| && nodes[r.value] == name
                        && forall j :: 0 <= j < r.value ==> nodes[j] != name
    ensures r.None? <==> name !in nodes
  {
    var r := FindFrom(nodes, name, 0);
    assert r.Some? ==> forall j :: 0 <= j < r.value ==> nodes[..r.value][j] == nodes[j];
    r
  }

  /** The node object found for an id, as the id of that node. */
  function NodeFor(nodes: seq<int>, name: int): (r: Option<int>)
    ensures r == if name in nodes then Some(name) else None
  {
    match FindNodeObject(nodes, name)
    case Some(k) => Some(nodes[k])
    case None => None
  }

  /** Appending an id not yet present keeps the ids distinct and adds it to their set. */
  lemma AppendFresh(xs: seq<int>, x: int)
    ensures x !in xs ==> (Distinct(xs) ==> Distinct(xs + [x])) && IdSet(xs + [x]) == IdSet(xs) + {x}
  {
  }

  /** `addNode(node)`: with no id, the least unused one is taken; a node is appended only
      when its id is not yet a key. */
  function AddNode(s: Store, node: Option<int>): (r: Store)
    ensures Valid(s) ==> Valid(r)
    ensures Valid(s) && node.Some? && node.value in s.nodes ==> r == s
    ensures Valid(s) && node.Some? && node.value !in s.nodes ==>
              r == s.(nodes := s.nodes + [node.value], keys := s.keys + {node.value})
    ensures Valid(s) && node.None? ==>
              && |r.nodes| == |s.nodes| + 1
              && r.nodes[..|s.nodes|] == s.nodes
              && r.nodes[|s.nodes|] >= 1
              && r.nodes[|s.nodes|] !in s.nodes
              && (forall j :: 1 <= j < r.nodes[|s.nodes|] ==> j in s.nodes)
    ensures r.links == s.links && r.isAddingNewLink == s.isAddingNewLink
            && r.addingLinkFromNode == s.addingLinkFromNode && r.addedNewLink == s.addedNewLink
  {
    var id := if node.None? then FindUnusedNodeId(s.keys) else node.value;
    if id in s.keys then
      s
    else
      assert (s.nodes + [id])[..|s.nodes|] == s.nodes;
      assert Valid(s) ==> forall j :: j in s.keys <==> j in s.nodes;
      AppendFresh(s.nodes, id);
      s.(nodes := s.nodes + [id], keys := s.keys + {id})
  }

  /** `addLink(source, destination, weight)`: a NaN weight (or `undefined`) is stored as `undefined`. */
  function AddLink(s: Store, source: int, destination: int, weight: Value): (r: Store)
    ensures |r.links| == |s.links| + 1 && r.links[..|s.links|] == s.links
    ensures r.links[|s.links|].source == (if source in s.nodes then Some(source) else None)
    ensures r.links[|s.links|].target == (if destination in s.nodes then Some(destination) else None)
    ensures r.links[|s.links|].weight == Undefined <==> IsNaN(weight)
    ensures !IsNaN(weight) ==> r.links[|s.links|].weight == weight
    ensures r == s.(links := r.links)
  {
    var link := Link(NodeFor(s.nodes, source), NodeFor(s.nodes, destination),
                     if IsNaN(weight) then Undefined else weight);
    var links := s.links + [link];
    assert links[..|s.links|] == s.links;
    s.(links := links)
  }

  /** Double-clicking node `d` starts a link gesture from it. */
  function DoubleClicked(s: Store, d: int): (r: Store)
    ensures r.isAddingNewLink && r.addingLinkFromNode == Some(d)
    ensures Valid(s) ==> Valid(r)
    ensures r.nodes == s.nodes && r.keys == s.keys && r.links == s.links && r.addedNewLink == s.addedNewLink
  {
    s.(isAddingNewLink := true, addingLinkFromNode := Some(d))
  }

  /** Clicking node `d` ends any gesture; it links the start node to `d` when a gesture was in
      progress and `d` is another node. */
  function Clicked(s: Store, d: int): (r: Store)
    ensures !r.isAddingNewLink
    ensures Valid(s) ==> Valid(r)
    ensures r.nodes == s.nodes && r.keys == s.keys && r.addingLinkFromNode == s.addingLinkFromNode
    ensures |r.links| == |s.links| + 1 <==> s.isAddingNewLink && s.addingLinkFromNode != Some(d)
    ensures |r.links| != |s.links| + 1 ==> r.links == s.links && r.addedNewLink == s.addedNewLink
    ensures |r.links| == |s.links| + 1 ==>
              r.links == s.links + [Link(s.addingLinkFromNode, Some(d), Undefined)] && r.addedNewLink
  {
    if s.isAddingNewLink then
      if s.addingLinkFromNode != Some(d) then
        s.(isAddingNewLink := false,
           links := s.links + [Link(s.addingLinkFromNode, Some(d), Undefined)],
           addedNewLink := true)
      else s.(isAddingNewLink := false)
    else s
  }

  /** A click anywhere on the canvas cancels a gesture in progress. */
  function CanvasClicked(s: Store): (r: Store)
    ensures !r.isAddingNewLink
    ensures Valid(s) ==> Valid(r)
    ensures r == s.(isAddingNewLink := false)
  {
    s.(isAddingNewLink := false)
  }

  /** A click on a node also reaches the canvas's click handler after `clicked`; by then the
      gesture is already over, so the canvas handler changes nothing. */
  lemma CanvasAfterNodeClick(s: Store, d: int)
    ensures CanvasClicked(Clicked(s, d)) == Clicked(s, d)
  {
  }

  /** What a browser double-click on node `a` delivers to the node's handlers: two `click`
      events, then `dblclick`. A gesture already open from another node is completed to `a`
      by the first click; the second click finds no gesture; the double-click starts a new one. */
  function BrowserDoubleClick(s: Store, a: int): (r: Store)
    ensures r.isAddingNewLink && r.addingLinkFromNode == Some(a)
    ensures Valid(s) ==> Valid(r)
    ensures r.nodes == s.nodes && r.keys == s.keys
    ensures s.isAddingNewLink && s.addingLinkFromNode != Some(a) ==>
              r.links == s.links + [Link(s.addingLinkFromNode, Some(a), Undefined)] && r.addedNewLink
    ensures !(s.isAddingNewLink && s.addingLinkFromNode != Some(a)) ==>
              r.links == s.links && r.addedNewLink == s.addedNewLink
  {
    DoubleClicked(Clicked(Clicked(s, a), a), a)
  }

  /** The user's gesture: a browser double-click on `a`, then a click on `b`. With no gesture
      open it adds exactly `a -> b` (when `a != b`); with a gesture open from another node `c`
      it first adds `c -> a`. */
  lemma UserGestureLinks(s: Store, a: int, b: int)
    ensures var r := Clicked(BrowserDoubleClick(s, a), b);
      && !r.isAddingNewLink
      && r.links == s.links
                    + (if s.isAddingNewLink && s.addingLinkFromNode != Some(a)
                       then [Link(s.addingLinkFromNode, Some(a), Undefined)] else [])
                    + (if a != b then [Link(Some(a), Some(b), Undefined)] else [])
  {
  }

  /** The double-click handler on `a` and then the click handler on `b` add exactly the link
      from `a` to `b` when they differ, and nothing when they are the same node; either way
      the gesture is over. */
  lemma GestureAddsOneLink(s: Store, a: int, b: int)
    ensures var r := Clicked(DoubleClicked(s, a), b);
      && !r.isAddingNewLink
      && r.nodes == s.nodes
      && (a != b ==> r.links == s.links + [Link(Some(a), Some(b), Undefined)] && r.addedNewLink)
      && (a == b ==> r.links == s.links && r.addedNewLink == s.addedNewLink)
  {
  }

  /** `addedNewLink` is raised only by a click that appended a link. */
  lemma AddedNewLinkOnlyWithLink(s: Store, d: int)
    requires !s.addedNewLink
    ensures Clicked(s, d).addedNewLink ==> |Clicked(s, d).links| == |s.links| + 1
  {
  }

  /** After a cancelled gesture, a click on a node adds nothing. */
  lemma CancelledGestureAddsNothing(s: Store, d: int)
    ensures Clicked(CanvasClicked(s), d) == CanvasClicked(s)
  {
  }
}
