# GraphVisualizer core, modelled in Dafny

GraphVisualizer is a browser graph editor. This project models and proves properties of its
three pieces of sequential logic.

- **The random connected graph generator** (`RandomGraphGenerator.generate`). The requested
  edge count is clamped to n(n-1)/2. Node `i` then attaches to a node already in
  `addedNodes`, which grows a spanning tree. After that, extra random edges are drawn, and
  self-loops and pairs already marked in `used` are resampled. Finally a pass assigns
  weights. Module `RandomGraphGenerator` holds this, with the helper modules `Edges`
  (edge records, simplicity), `Pairs` (counting unordered pairs) and `Connectivity`
  (walks and reachability).
- **The graph data store** of `Graph`. It holds `graphData.nodes`, the `nodeList` id table,
  `graphData.links`, `clear`, `addNode`, `addLink`, `findNodeObject` and
  `findUnusedNodeId`. It also holds the flags of the double-click-then-click link gesture.
  This is module `GraphStore`: a `Store` record and pure functions over it.
- **The edge-list text parser** in the `.draw` click handler. The store is cleared, the text
  is split into lines, and each line is split on spaces. A line whose first two tokens are
  numeric issues `addNode`, `addNode`, `addLink`. This is module `EdgeListParser`. It states
  the handler as the sequence of store operations it issues, then runs those operations on
  the store.

Randomness is an oracle. Every `Math.random()` call of the generator reads the next natural
number of a `draws` sequence. A node draw `d` picks `addedNodes[d % addedNodes.length]`. The
ceiling `Math.ceil(Math.random() * weightRange)` has the sign of `weightRange`, so a weight
draw `d` stands for its absolute value: the ceiling itself when `weightRange > 0`, and minus
the ceiling when `weightRange < 0`. When the oracle runs out, the result is `DrawsExhausted`.
The source's resampling loop has no bound at all. Running out of draws is how the model says
that a run did not end within the values given to it. The properties of a returned edge list
are proved for every oracle. Two lemmas show that the resampling loop can always exit:
`FirstCandidateFresh` for the spanning phase and `FreshPairExists` for the extra edges.

`$.isNumeric` and unary `+` are the function parameters `isNumeric` and `toNum` of the parser.
Nothing is assumed about them beyond `toNum` returning an integer (see "Left out"). A node
id is an `int`. A node object is identified by its id, and the store invariant `Valid` keeps
ids distinct.

Two behaviours of the code are kept as written:

- The code marks only `used[source][destination]` (random-graph-generator.js:72), yet it
  checks both directions (random-graph-generator.js:90-91). The model keeps this asymmetry:
  `used` is a set of ordered pairs. `NoRepeatedPair` is still proved, because the check
  looks both ways.
- The code neither bounds the resampling loop nor rejects inverted weight bounds. The model
  resamples for as long as draws remain. It computes `Math.ceil(...) % weightRange + minWeight`
  for every range:
  - `maxWeight == minWeight - 1` gives `NaN`, a `% 0`;
  - smaller `maxWeight` gives a weight in `[maxWeight + 2, minWeight]`, from JavaScript's
    truncating `%`.

## Model

| member | source | states |
|---|---|---|
| RandomGraphGenerator.MaxEdges | random-graph-generator.js:17-23 | the clamp bound n(n-1)/2 is a natural number, exactly half of n(n-1), zero iff n <= 1, and at least n-1 |
| RandomGraphGenerator.ConsecutiveProductEven | random-graph-generator.js:23 | n(n-1) is even, so the division in the clamp is exact |
| Pairs.AllPairsCount | random-graph-generator.js:17-23 | there are exactly n(n-1)/2 unordered pairs of distinct ids in 1..n |
| Pairs.CanonSetCount | random-graph-generator.js:89-95 | ordered pairs no two of which name the same unordered pair name as many unordered pairs as there are ordered ones |
| RandomGraphGenerator.IsEdgeUsed | random-graph-generator.js:89-95 | the two-direction lookup of `isEdgeUsed` holds exactly when the unordered pair is among the unordered pairs of the marked ordered pairs |
| RandomGraphGenerator.Pick | random-graph-generator.js:45-46 | a node draw always selects a member of `addedNodes` |
| RandomGraphGenerator.FirstCandidateFresh | random-graph-generator.js:44-59 | in the spanning phase the first candidate (i, r) has 1 <= r < i, is no self-loop and is unused in either direction, so the resampling loop is not entered |
| RandomGraphGenerator.FreshPairExists | random-graph-generator.js:59-68 | once all n nodes are added and fewer than n(n-1)/2 edges exist, two of the first n positions of `addedNodes` hold distinct nodes whose pair is unused, so the resampling loop can exit |
| RandomGraphGenerator.Extend | random-graph-generator.js:70-73 | recording an accepted candidate (push the edge, mark (source, destination), push the node) keeps the loop's state: ids in 1..n, `addedNodes` = 1..min(i, n) then extra sources, all edges simple, spanning edges in order, no repeated pair, `used` = the marked pairs with one pair per edge |
| RandomGraphGenerator.ExtendEdges | random-graph-generator.js:59-73 | an appended candidate that is no self-loop and unused in either direction keeps the edge list simple, repetition-free and attached in order |
| RandomGraphGenerator.BuildEdges | random-graph-generator.js:43-74 | the edge loop yields exactly max(0, count) edges, each with endpoints in 1..n and different, no unordered pair twice, edge k = (k+2, r) with r <= k+1 for the spanning steps; with no extra-edge step it reads exactly one draw per edge and always succeeds |
| RandomGraphGenerator.DrawnWeight | random-graph-generator.js:79 | with `weightRange` from line 28: a weight in [minWeight, maxWeight] when minWeight <= maxWeight, NaN when the range is zero, and a number in [maxWeight+2, minWeight] when the range is negative |
| RandomGraphGenerator.AssignWeights | random-graph-generator.js:76-84 | the weight pass keeps every endpoint; each edge k gets the weight of draw k when weighted and `undefined` otherwise; it runs out exactly when weighted with fewer draws than edges |
| RandomGraphGenerator.Generate | random-graph-generator.js:11-87 | the output has exactly max(0, min(E, n(n-1)/2)) edges, all simple, no unordered pair twice; nodes 1..min(edges, n-1)+1 are reachable from node 1, all of 1..n when E >= n-1; weights are `undefined` when unweighted and in [minWeight, maxWeight] when weighted with ordered bounds; enough draws with no extra-edge step always succeed |
| Connectivity.AttachedNodesReachable | random-graph-generator.js:38-47 | if edges 0..m-1 attach nodes 2..m+1 each to an earlier node, every node 1..m+1 is reachable from node 1 |
| Connectivity.TreeWalk | random-graph-generator.js:43-47 | following the attachment chain down from v gives a walk from node 1 to v |
| GraphStore.NodeListKeys | graph.js:39-42 | the initialisation loop enters exactly the set of the initial node ids as keys |
| GraphStore.Initial | graph.js:39-47 | the store as constructed holds the given nodes and links, and satisfies the store invariant exactly when the initial ids are distinct |
| GraphStore.Clear | graph.js:104-108 | `clear` leaves nodes, keys and links empty, keeps the gesture flags, and keeps the invariant |
| GraphStore.Pigeonhole | graph.js:169-173 | if every one of 1..|keys| is a key, then |keys|+1 is not one |
| GraphStore.ScanFrom | graph.js:170-173 | the scan from i returns an id in i..|keys|+1 that is not a key, with every smaller positive id a key |
| GraphStore.FindUnusedNodeId | graph.js:168-174 | the result is the least positive integer that is not a key of `nodeList`, and lies in 1..|keys|+1 |
| GraphStore.FindFrom | graph.js:162-164 | the loop of `findNodeObject` from position i, with the id absent before i: the first later position holding the id, or none exactly when no node has it |
| GraphStore.FindNodeObject | graph.js:161-165 | the position of the first node with the given id, or none exactly when no node has it |
| GraphStore.NodeFor | graph.js:124-125 | the node object found for an id is that id exactly when some node has it, and `undefined` otherwise |
| GraphStore.AddNode | graph.js:110-120 | keeps the invariant; a present id changes nothing; an absent id is appended once to the nodes and the keys; with no id, exactly one node is appended, with the least unused positive id; links and gesture flags never change |
| GraphStore.AddLink | graph.js:122-127 | appends exactly one link and changes nothing else; its ends are the nodes found for the ids (or `undefined`); its weight is `undefined` iff the given weight is NaN, and is the given weight otherwise |
| GraphStore.DoubleClicked | graph.js:336-338 | the `dblclick` handler starts the gesture from that node and changes nothing else (a browser double-click first delivers two clicks: see `BrowserDoubleClick`) |
| GraphStore.Clicked | graph.js:353-367 | the gesture always ends; one link (start node, clicked node, `undefined`) is appended exactly when a gesture was in progress and the clicked node is another node, and only then is `addedNewLink` raised; otherwise links and `addedNewLink` are unchanged |
| GraphStore.CanvasClicked | graph.js:84-88 | a click on the canvas ends the gesture and changes nothing else |
| GraphStore.GestureAddsOneLink | graph.js:336-367 | the `dblclick` handler on a and then the `click` handler on b add exactly the link a->b when a != b and nothing when a == b, and end the gesture |
| GraphStore.CanvasAfterNodeClick | graph.js:84-88 | a node click that bubbles to the canvas handler after `clicked` changes nothing more, since `clicked` has already ended the gesture |
| GraphStore.BrowserDoubleClick | graph.js:209-210 | a browser double-click on a (click, click, dblclick on the node overlay) opens a gesture from a; a gesture already open from another node c is first completed with the link c->a and `addedNewLink` raised; otherwise links and `addedNewLink` are unchanged |
| GraphStore.UserGestureLinks | graph.js:336-367 | a user's double-click on a then click on b appends c->a when a gesture from another node c was open, then a->b when a != b, and ends the gesture |
| GraphStore.AddedNewLinkOnlyWithLink | graph.js:353-366 | a click raises `addedNewLink` only when it appended a link |
| GraphStore.CancelledGestureAddsNothing | graph.js:84-88 | after a canvas click, clicking a node adds no link |
| EdgeListParser.Split | main.js:9 | `split` gives at least one piece, and no piece contains the separator |
| EdgeListParser.SplitJoin | main.js:9 | joining the pieces of a split with the separator gives back the text |
| EdgeListParser.JoinSplit | main.js:19 | splitting pieces that were joined with the separator gives back those pieces |
| EdgeListParser.ParseLine | main.js:11-29 | a zero-length line is skipped; an accepted line never carries a NaN weight |
| EdgeListParser.SingleTokenSkipped | main.js:19-22 | a line with no space has no second token and is skipped |
| EdgeListParser.TwoTokenLine | main.js:19-29 | a line `a b` is accepted iff both tokens are numeric, and is then unweighted |
| EdgeListParser.ThreeOrMoreTokenLine | main.js:17-29 | a line `a b c ...` is accepted iff a and b are numeric; its weight is c when c is numeric and `undefined` otherwise; later tokens are ignored |
| EdgeListParser.EmptyLeadingTokenSkipped | main.js:19-22 | a leading space, or two spaces after the first token, put an empty token in position 0 or 1, and the line is skipped unless the empty string counts as numeric |
| EdgeListParser.DrawOps | main.js:7-10 | the handler's first operation is `clear`, and no later one is |
| EdgeListParser.LinesOps | main.js:10-34 | the loop over the lines issues at most three store calls per line, and none of them clears the store |
| EdgeListParser.Accepted | main.js:10-34 | there are at most as many accepted lines as lines, and none has a NaN weight |
| EdgeListParser.Expand | main.js:31-33 | three store calls per accepted line |
| EdgeListParser.LinesOpsFollowAcceptedLines | main.js:10-34 | the loop issues, in input order, exactly `addNode(src)`, `addNode(dst)`, `addLink(src, dst, w)` for each accepted line and nothing for a skipped one |
| EdgeListParser.RunLineOps | main.js:31-33 | the three calls of a line are addNode, then addNode, then addLink, applied in that order |
| EdgeListParser.LineOpsEffect | main.js:31-33 | on a valid store one accepted line adds its two ids to the keys and the link between their nodes at the end, keeps the invariant and leaves the gesture flags alone |
| EdgeListParser.RunAcceptedValid | main.js:10-34 | the calls of the accepted lines keep the store invariant and leave the gesture flags alone |
| EdgeListParser.RunAcceptedKeys | main.js:10-34 | the calls of the accepted lines add exactly their endpoints to the keys |
| EdgeListParser.RunAcceptedLinks | main.js:10-34 | the calls of the accepted lines append one link per line, in input order |
| EdgeListParser.EndpointsAreNamedIds | main.js:24-32 | an id is an endpoint exactly when some accepted line names it as source or destination |
| EdgeListParser.Draw | main.js:7-34 | the handler's clear and line loop keep the store invariant and leave the gesture flags alone |
| EdgeListParser.DrawBuildsAcceptedGraph | main.js:7-34 | after the handler the store is valid, its node-id set and keys are exactly the endpoints of the accepted lines, and its links are one per accepted line in input order |
| EdgeListParser.DrawDependsOnlyOnText | main.js:7 | the nodes, keys and links after the handler depend only on the text, not on the store's earlier contents |

## Left out

- d3 rendering and the force simulation (`restart`, `ticked`, `mouseTicked`, the drag handlers, the arrow marker, `setAsDirectedGraph`/`setAsUndirectedGraph`, `resumeSimulation`/`pauseSimulation`): SVG effects and floating-point physics inside a library that is not part of this model.
- `restart` also resets the gesture flags (graph.js:179-181). It runs on every redraw, and the redraw belongs to the rendering left out above. In particular the `.draw` handler's own redraw (main.js:35, through `resetSimulation` and `graph.redraw`) goes through `restart` and ends any gesture in progress; `EdgeListParser.Draw` stops before it, so a gesture open before `Draw` is still open after it.
- `elementBoundary` (graph.js:369-371): floating-point clamping of screen coordinates.
- The jQuery wiring in main.js outside lines 7-34: button classes, Ctrl-key tracking, the Ctrl-click `addNode()` call, `resetSimulation`, and the textarea placeholder. This is UI plumbing. The store operation behind Ctrl-click is `GraphStore.AddNode` with no id.
- `getAddedNewLinkStatus`/`setAddedNewLinkStatus` (graph.js:152-158): plain accessors of the `addedNewLink` field of `Store`.
- The browser's event dispatch itself is not modelled: the sequences it produces are written out by hand. A click on a node runs `clicked` and then bubbles to the canvas handler (`CanvasAfterNodeClick` shows the second step changes nothing), and a double-click delivers `click`, `click`, `dblclick` to the node overlay (`BrowserDoubleClick`). Drags that suppress the click are not modelled.
- The sample graph data (graph.js:15-32): demo content.
- The floating-point formulas around `Math.random()` (`Math.ceil(Math.random() * (n + 7) * 1000)` and `Math.ceil(Math.random() * weightRange)`): each draw is an arbitrary natural number from the oracle. The uniformity of the draws is not a property a proof can state here.
- RandomGraphGenerator.Generate: a run whose resampling loop would never end is reported as `DrawsExhausted` once the oracle's finite sequence runs out. A finite sequence of draws cannot express a run that does not terminate.
- RandomGraphGenerator.Generate: `numberOfNodes` is a natural number. With a negative count the clamp bound is positive and `used[source]` is read out of range, which this model does not follow.
- RandomGraphGenerator.Generate: only integer edge counts are modelled. A fractional `numberOfEdges` is compared against `i` as a float in the source.
- The default arguments of `generate` (`isWeighted=false, minWeight=1, maxWeight=100`, random-graph-generator.js:13-15): `Generate` takes every argument explicitly, so `generate(n, E)` is `Generate(n, E, false, 1, 100, draws)`.
- `$.isNumeric` and unary `+` are the uninterpreted parameters `isNumeric` and `toNum`. A numeric token converts to an integer, so fractional ids and weights are not modelled.
- Object-key string coercion of `nodeList` (`nodeList["1"]` and `nodeList[1]` are the same key): ids are `int` throughout, so this never arises.
- `findNodeObject` compares ids with `===`. Node objects are modelled by their ids, so a link's end is the id of the node found.
