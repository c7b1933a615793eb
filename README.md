# Graph Sketchpad, modelled in Dafny

Graph Sketchpad is a browser page for drawing a graph and analysing it. Nodes are
dots with a label, edges join two nodes, and edges can be shown as arrows. The
page keeps the graph in two vis.js DataSets: one for nodes, which are keyed by an
integer id and carry a label, and one for edges, which carry an id and their
`from` and `to` ends. It also keeps counters for nodes, edges and ids. From these
stores it computes:

- the connected components;
- the degree of each node;
- the adjacency matrix and its transpose;
- the bridges;
- whether the graph can be 2-coloured;
- a shortest path between two nodes.

`analyze.js` and `network.js` make up the modular version of the page.
`scripts.js` is an earlier single-file version of the same page. Its analysis
routines are copies of those in `analyze.js`, so each is modelled once.

This project models, module by module:

- `Graphs` (graph.dfy): Nodes, edges and graph snapshots. The neighbour functions the traversals use. What removing a node or edge does to the stores.
- `DataSet` (dataset.dfy): The two stores as classes: insertion order kept, a taken id refused, removal by id. The cascade that removes the edges at a deleted node. What the editing handlers keep true of the stores.
- `Connectivity` (connectivity.dfy): Undirected connectivity, classes and the number of components.
- `Components` (components.dfy): `getComponents`.
- `Degrees` (degrees.dfy): `calculateDegrees`.
- `Matrix` (matrix.dfy): `createAdjacencyMatrix` and `transpose`.
- `Bridges` (bridges.dfy): `getBridges`, which works by brute force on the edge store.
- `Bipartite` (bipartite.dfy): `getDirectedNeighbors`, `isComponentBipartite` and `isGraphBipartite`.
- `ShortestPath` (shortest_path.dfy): `dijkstra`, down to the order `Object.keys` gives the queue.
- `Colors` (colors.dfy): `getSeededColor` and `darkenHexColor`.
- `Network` (network.dfy): `NetworkState` as a class, with `addNode`, `deleteNode`, `addEdge`, `deleteEdge`, `clearGraph` and `toggleDirection`.
- `Scripts` (scripts.dfy): The globals of `scripts.js` as a class, with its own versions of the same handlers.

Code that changes state step by step is modelled as methods with loops: the
store handlers, the traversals, the counting loops and the search. Each method
is proved against a specification function or predicate. Pure code is modelled as
functions: `transpose`, the colour parsing and formatting, and the trace of the
path.

The shortest-path search works on unit weights. The source sets no edge's
`value`, so the weight `edge.value || 1` is always 1. Distances are naturals or
`Infinity`. Two JavaScript details are modelled explicitly:

- `%` truncates toward zero; `JsRem` models it.
- `Math.round(x)` is `floor(x + 1/2)`, computed exactly on a rational factor.

`network.getConnectedNodes` is a vis.js call. It is modelled as the other end of
every edge at the node, in edge order. A self-loop gives the node itself.

## Model

| member | source | states |
|---|---|---|
| Graphs.ConnectedNodesMembers | analyze.js:178 | The connected nodes of v are exactly the ids some edge joins to v, in either direction. |
| Graphs.DirectedNeighborsMembers | analyze.js:423-437 | `getDirectedNeighbors(v, 'outgoing')` lists exactly the `to` ends of edges leaving v. With 'incoming' it lists exactly the `from` ends of edges entering v. |
| Graphs.NeighborsMembers | analyze.js:444-446 | The neighbours the bipartite check visits are exactly the heads of arcs out of v. Arcs are directed only when arrows are shown. |
| Graphs.FindNode | network.js:251 | `nodes.get(id)` finds a node exactly when one has that id, and the node found has that id. |
| Graphs.FindLabel | network.js:216-218 | The label search finds a node exactly when one carries the label, and the node found carries it. |
| Graphs.WithoutNodeMembers | network.js:233 | After `nodes.remove({id})`, the store holds exactly the nodes whose id differs. |
| Graphs.WithoutIncidentMembers | network.js:237-242 | After the cascade, the store holds exactly the edges with neither end at the deleted id. |
| Graphs.WithoutEdgeMembers | network.js:270 | After `edges.remove(id)`, the store holds exactly the edges whose id differs. |
| Graphs.WithoutNodeLength | network.js:233-234 | Removing a node id shrinks a store with unique ids by one when the id is present, and by nothing otherwise. |
| Graphs.WithoutEdgeLength | network.js:270-271 | Removing an edge id shrinks the store by one when the id is present, and by nothing otherwise. |
| Graphs.WithoutNodeUnique | network.js:233 | Removing a node keeps node ids unique. |
| Graphs.WithoutEdgeUnique | network.js:270 | Removing an edge keeps edge ids unique. |
| Graphs.WithoutEdgeAscending | network.js:270 | Removing an edge keeps the edge ids rising along the store. |
| Graphs.WithoutIncidentAscending | network.js:237-242 | Removing the edges at a node keeps the edge ids rising along the store. |
| Graphs.AscendingSnoc | network.js:255-256 | An edge appended with an id above every id in the store keeps the ids rising. |
| Graphs.SameIdSameNode | network.js:225 | Under unique ids, two nodes of the store with the same id are the same node. |
| DataSet.NodeDataSet.Add | network.js:226 | `add` appends the node exactly when no node has its id. Otherwise the store is unchanged (vis.js throws). |
| DataSet.NodeDataSet.Remove | network.js:233 | `remove` leaves the store without the node of that id and keeps ids unique. |
| DataSet.NodeDataSet.Clear | network.js:323 | `clear` empties the store. |
| DataSet.EdgeDataSet.Add | network.js:255 | `add` appends the edge exactly when no edge has its id. Otherwise the store is unchanged. |
| DataSet.EdgeDataSet.Remove | network.js:270 | `remove` leaves the store without the edge of that id. |
| DataSet.EdgeDataSet.Clear | network.js:324 | `clear` empties the store. |
| DataSet.EdgeDataSet.RemoveTouching | network.js:237-242 | The removal loop over a snapshot leaves exactly the edges with neither end at v, in order. The count it returns is the number of edges removed. |
| DataSet.AddNodeCoherent | network.js:216-226 | Adding a node whose id and label are both free keeps the stores coherent. Coherent means: a well-formed graph, distinct labels, and edge ids rising and below the counter. |
| DataSet.DeleteNodeCoherent | network.js:232-244 | Deleting a node with its edges keeps the stores coherent. The node store loses one node exactly when the id was present. |
| DataSet.AddEdgeCoherent | network.js:246-259 | An edge between two nodes, numbered by the counter, takes an id no edge holds. The stores stay coherent once the counter moves on. |
| DataSet.DeleteEdgeCoherent | network.js:261-273 | Deleting an edge keeps the stores coherent. The store loses one edge exactly when the id was present. |
| Network.DecimalString | network.js:206 | `String(node_id)` is a non-empty string of decimal digits with no leading zero. |
| Network.DecimalRoundTrip | network.js:206-207 | Reading back an automatic label gives the id it was made from. |
| Network.DecimalInjective | network.js:206 | Different counter values give different automatic labels. |
| Network.NetworkState.constructor | network.js:4-10 | The initial state has empty stores, zero counters and undirected edges. The invariant and the count agreement hold. |
| Network.NetworkState.Snapshot | network.js:4-5 | The stores as the analysis routines read them form a well-formed graph. |
| Network.NetworkState.AddNode | network.js:201-230 | A blank label becomes `String(node_id)`, with id `node_id`, and the counter advances before the duplicate check. Otherwise the label is kept, the id is `Number(label)`, and the counter does not move. The node is added exactly when its label and id are both free. The count rises exactly then, and the invariant is kept. |
| Network.NetworkState.DeleteNode | network.js:232-244 | The node is removed, along with exactly the edges at it. The edge count drops by the number removed. The node count always drops by one, so the counts stay in step exactly when the id was present. |
| Network.NetworkState.AddEdge | network.js:246-259 | The edge is added exactly when both ids are numbers naming nodes. It gets id `edge_id`, and the counter and the count both advance. Otherwise nothing changes. |
| Network.NetworkState.DeleteEdge | network.js:261-273 | The edge is removed exactly when the id is a number naming an edge. Then the store loses that edge alone and the count drops by one. Otherwise nothing changes. |
| Network.NetworkState.ClearGraph | network.js:322-330 | Both stores are emptied and all four counters reset to 0. |
| Network.NetworkState.ToggleDirection | network.js:332-337 | The arrows flag is negated and nothing else changes. |
| Scripts.DeleteLabelled | scripts.js:93-103 | When ids are the numbers of distinct labels, removing `Number(label)` drops exactly the node carrying the label. |
| Scripts.ScriptState.constructor | scripts.js:1-9 | The page starts with empty stores, zero counters and undirected edges. |
| Scripts.ScriptState.AddNode | scripts.js:56-84 | A blank label, a label in use or a taken id leaves everything unchanged. Otherwise the node `Number(label)` is added and the count rises by one. |
| Scripts.ScriptState.DeleteNode | scripts.js:86-115 | A blank label, or one no node carries, changes nothing. Otherwise exactly the labelled node and the edges at it are removed. The counts drop by one and by the number of edges removed. |
| Scripts.ScriptState.AddEdge | scripts.js:160-177 | The edge is added with id `edge_id` exactly when both ends parse and name nodes. The counter and the count advance only then. |
| Scripts.ScriptState.DeleteEdge | scripts.js:179-194 | Only a parsed id naming an edge removes that edge, and the count drops by one. Otherwise nothing changes. |
| Scripts.ScriptState.ClearGraph | scripts.js:29-36 | Both stores are emptied and the counts and edge counter reset. |
| Scripts.ScriptState.ToggleDirection | scripts.js:147-151 | The arrows flag is negated. |
| Connectivity.ConnectedSym | analyze.js:176-179 | Undirected connectivity is symmetric. |
| Connectivity.ConnectedTrans | analyze.js:176-179 | Undirected connectivity is transitive. |
| Connectivity.SameClass | analyze.js:176-179 | Two connected ids have the same class. |
| Connectivity.ClosedContainsClass | analyze.js:176-179 | A set closed under the neighbour relation that holds a node holds its whole class. |
| Connectivity.ComponentListClasses | analyze.js:170-186 | A list of components lists exactly the classes of the graph. |
| Connectivity.ComponentListCount | analyze.js:170-186 | The number of components reported is the number of classes, whatever the order of traversal. |
| Connectivity.ComponentsUnique | analyze.js:170-186 | Two runs on the same graph report the same components, up to order. |
| Connectivity.SameEdgesSameClasses | analyze.js:376-387 | Two stores holding the same edges, in any order, have the same number of components. |
| Connectivity.NoEdgesSingletons | analyze.js:170-186 | With no edges every component is a single node, and there are as many components as nodes. |
| Components.FilterOutMembers | analyze.js:182 | `allNodes.filter(n => !curComponent.includes(n))` keeps exactly the ids not collected, in order. |
| Components.CollectComponent | analyze.js:174-181 | The inner stack loop collects the seed's component exactly, seed first and without repeats. |
| Components.GetComponents | analyze.js:170-186 | The components are pairwise disjoint and closed under adjacency. They cover every node, and there is one per class. Each component starts from the seed `allNodes.pop()`, the last id in store order not yet collected when its round begins. Also scripts.js:313-329. |
| Components.SeededAt | analyze.js:172-174 | Round k's seed is the last id left in `allNodes` after the first k rounds. |
| Components.SeededComponentsAgree | analyze.js:172-183 | Two component lists seeded in this order agree, round by round, on the seed and on the set of ids collected. |
| Components.ComponentsDetermined | analyze.js:170-186 | The store order fixes the result up to the order inside each component: same count, same seeds, same members. |
| Degrees.CalculateDegrees | analyze.js:27-36 | Every node id gets an entry, starting at 0, equal to the number of edges with that id at an end. Also scripts.js:196-205. |
| Degrees.DegreeCountsIncident | analyze.js:31-35 | The degree counts each incident edge once, a self-loop included. |
| Degrees.Handshake | analyze.js:27-36 | In a well-formed graph the degrees sum to twice the number of edges, less one per self-loop. |
| Matrix.NodeIndex | analyze.js:75-80 | `node_ID_to_index` maps each node id to the node's position in the store. |
| Matrix.AdjacencySets | analyze.js:84-91 | `adj_obj[v]` is exactly the set of ids some edge joins to v. |
| Matrix.AdjacentAmongMembers | analyze.js:88-91 | The scanned sets hold exactly the ids linked by an edge, in either direction. |
| Matrix.MarkConnections | analyze.js:97-100 | The inner loop sets to 1 exactly the entries of the node's connections. |
| Matrix.CreateAdjacencyMatrix | analyze.js:66-101 | The matrix is entry for entry the n-by-n matrix whose (i, j) entry is 1 exactly when an edge joins nodes i and j, and 0 otherwise. Also scripts.js:235-270. |
| Matrix.AdjacencyShape | analyze.js:94-101 | That matrix is square, holds only 0 and 1, and is symmetric. Parallel edges still give 1. |
| Matrix.Transpose | analyze.js:165-167 | Entry (c, r) of the result is entry (r, c) of the input, for entries of any type. The page applies it to the eigenvector matrix. The dimensions are swapped, with the column count taken from the first row. |
| Matrix.TransposeTwice | analyze.js:165-167 | Transposing a non-empty rectangular matrix twice gives it back. |
| Bridges.BridgesOfMembers | analyze.js:376-387 | The reported edges are exactly the edges whose removal changes the component count. |
| Bridges.BridgeRound | analyze.js:379-385 | One round counts the components of the store with and without the edge. Re-adding the edge rotates the store by one place. |
| Bridges.Bridges | analyze.js:376-387 | `getBridges` reports, in store order, exactly the bridges. The edge store ends as it began, order included. Also scripts.js:518-529. |
| Bridges.SelfLoopNeverBridge | analyze.js:376-387 | A self-loop is never reported. |
| Bridges.ParallelNeverBridge | analyze.js:376-387 | An edge with a parallel twin is never reported. |
| Bipartite.WalkParity | analyze.js:452-453 | Any 2-colouring alternates along a walk, so the colour at its end is fixed by its length. |
| Bipartite.SameParityClash | analyze.js:455-457 | Two walks of equal parity whose ends an arc joins rule out every 2-colouring. |
| Bipartite.VisitNeighbors | analyze.js:450-458 | Each uncoloured neighbour gets `1 - colors[curNode]` and is queued. A clash is reported only when no 2-colouring exists. Without a clash every arc out of `curNode` ends at the other colour. |
| Bipartite.IsComponentBipartite | analyze.js:439-462 | The check succeeds exactly when what the first id reaches can be 2-coloured with 0 and 1. |
| Bipartite.BipartiteClassInvariant | analyze.js:464-466 | Ignoring direction, being 2-colourable does not depend on the starting node of the component. |
| Bipartite.EveryComponentEveryNode | analyze.js:464-466 | Ignoring direction, the components' first ids pass exactly when every node does. |
| Bipartite.IsGraphBipartite | analyze.js:464-466 | The result holds exactly when every component passes, each checked from its first id. That id is the seed `getComponents` pops, so the store order fixes which node each check starts from, and with arrows shown it fixes the answer. Without arrows, the result means the graph can be 2-coloured from every node. |
| ShortestPath.InsertAscendingProps | analyze.js:314 | Insertion keeps a list ascending and adds exactly the one key. |
| ShortestPath.SortedIndexKeysProps | analyze.js:314 | The array-index keys of `Object.keys` come ascending and are exactly the integer keys in that range. |
| ShortestPath.OtherKeysProps | analyze.js:314 | The other keys come without repeats and are exactly the remaining keys. |
| ShortestPath.ObjectKeysProps | analyze.js:314 | The queue holds every key of `graph` exactly once. |
| ShortestPath.HeadsOfMembers | analyze.js:301-309 | The adjacency built from the edges lists y under x exactly when an arc leads from x to y. |
| ShortestPath.ListArcs | analyze.js:305-308 | One edge adds its `to` under `from`, and its `from` under `to` only when undirected. The keys are kept. |
| ShortestPath.BuildAdjacency | analyze.js:301-309 | The adjacency object lists exactly the arcs of the edges, with the reverse direction only when undirected. The keys are recorded as `KeyOrder`, which lists each edge's `from` and then its `to`, in edge order, each the first time it appears. |
| ShortestPath.KeyOrderProps | analyze.js:302-304 | The keys created this way have no repeats and are exactly the edge ends. |
| ShortestPath.InitTables | analyze.js:316-322 | Every queued id starts at Infinity with a null link, and the source starts at 0. |
| ShortestPath.MinIndexIsFirstLeast | analyze.js:325-327 | The reduce picks the first queued id of least distance. |
| ShortestPath.Relax | analyze.js:337-345 | Relaxing the unvisited neighbours keeps the search invariant. Distances only decrease. |
| ShortestPath.RelaxNeighbor | analyze.js:338-344 | One neighbour: a visited one is skipped, and a shorter distance replaces the old one and links back to `current`. |
| ShortestPath.Explore | analyze.js:323-346 | The main loop takes each queued id off once, nearest first, and stops after the target. It leaves sound links and, for the target, a distance no longer than any walk. |
| ShortestPath.TracePath | analyze.js:348-358 | The trace loop, with reversal, produces the intended trace from the target. |
| ShortestPath.TraceChain | analyze.js:348-358 | Following the links from an id at distance d gives a chain of exactly d consecutive hops from the source. |
| ShortestPath.TraceUnreached | analyze.js:348-358 | An id left at Infinity traces to the empty path. |
| ShortestPath.TraceIsShortest | analyze.js:348-358 | On a finished search the trace is a shortest chain when the target is reached. It is empty when the target is unreached, and a lone `{from: undefined}` hop when the target is at no edge end. |
| ShortestPath.TraceStopsAtZero | analyze.js:351 | On edges 1–0 and 0–2 from 1 to 2, the intended trace is 1→0→2. The loop as written returns only 0→2. |
| ShortestPath.BothInOneComponent | analyze.js:276-285 | `possible` holds exactly when some component contains both ids. |
| ShortestPath.ComponentHoldsBoth | analyze.js:276-285 | Some component holds both ids exactly when the source is a node and the target is in its class. |
| ShortestPath.Dijkstra | analyze.js:257-358 | `dijkstra` gives up exactly when no component holds both ends. Otherwise it traces with the corrected loop, which does not stop at a predecessor with id 0 (see the analyze.js:351 finding). The path is a shortest chain of hops from the source when the target is a reached edge end, which is always so without arrows. It is empty when the target is unreached, and `[{from: undefined, to: target}]` when the target is at no edge end. Also scripts.js:400-501. |
| Network.NetworkState.Dijkstra | analyze.js:275-299 | Run on the stores, `dijkstra` gives up exactly when no component holds both ends, and then leaves the arrows flag alone. Otherwise it sets the flag to the "directed path" checkbox, which later bipartite checks read. When the target is a reached edge end, it returns a shortest path under that flag. An unreached target that is an edge end gives `[]`. A target at no edge end gives `[{from: undefined, to: target}]`. Without arrows the target is always reached. The stores and counters are unchanged. |
| Scripts.ScriptState.Dijkstra | scripts.js:418-442 | The same for the globals of `scripts.js`: the arrows flag is written only when the search goes ahead, and then takes the checkbox value. The path has the same properties: shortest when reached, `[]` when unreached, a lone `{from: undefined}` hop at no edge end. Without arrows the target is always reached. |
| Colors.JsRem | scripts.js:337 | JavaScript's `%` by a positive modulus: non-negative dividends give a result in [0, m), and negative ones a result in (-m, 0]. |
| Colors.GetSeededColor | scripts.js:331-346 | The seed is stepped three times, and each step gives one channel `floor(seed * 256 / 2^31)`, red first. For a non-negative seed all three channels are in 0..255. Also analyze.js:188-203. |
| Colors.ChannelRange | scripts.js:341-343 | A seed in [0, 2^31) gives a channel in 0..255. |
| Colors.NextRange | scripts.js:337 | From a non-negative seed the generator stays in [0, 2^31). |
| Colors.SeededColorRange | scripts.js:331-346 | A non-negative seed gives three channels in 0..255. |
| Colors.NegativeSeedChannel | scripts.js:337 | Seed -1000 steps to -650620777, whose channel is -78. |
| Colors.FlooredNext | scripts.js:337 | The floored step stays in [0, 2^31) for every seed. |
| Colors.FlooredColorRange | scripts.js:331-346 | With the floored step every seed gives channels in 0..255. |
| Colors.FlooredAgrees | scripts.js:337 | Where `a * seed + c` is non-negative, the floored step is the step as written. |
| Colors.HexValue | network.js:283-285 | A hex digit of either case reads as a value in 0..15. |
| Colors.HexDigit | network.js:295-297 | `toString(16)` writes a lower-case digit that reads back as its value. |
| Colors.ToHex2 | network.js:295-297 | `toString(16).padStart(2, "0")` gives two lower-case digits that read back as the byte. |
| Colors.ParseHexColor | network.js:283-285 | The three channels read from `#rrggbb` are bytes. |
| Colors.FormatHexColor | network.js:293-297 | The output is `#` followed by six lower-case hex digits. |
| Colors.ParseFormat | network.js:283-297 | Reading back a formatted colour gives its channels. |
| Colors.Clamp | network.js:288-290 | `Math.max(0, Math.min(255, x))` is a byte, and equals x when x is already a byte. |
| Colors.DarkenHexColor | network.js:275-300 | The result is an error ("Invalid hex color format. Use '#rrggbb'.") exactly when the input is not `#` followed by six hex digits. Otherwise it is six lower-case hex digits after `#`. |
| Colors.DarkenChannels | network.js:283-297 | The output channels are the clamped, rounded products of the input channels and the factor. |
| Colors.DarkenNoBrighter | network.js:288-290 | A factor in [0, 1] never brightens a channel. |
| Colors.DarkenByOne | network.js:288-290 | With factor 1 a channel comes back unchanged. |
| Colors.ToHex2Digits | network.js:283-297 | A byte read from two digits is written back as those digits in lower case. |
| Colors.RewriteLowercases | network.js:283-297 | Reading a colour and writing it back puts its digits in lower case. |
| Colors.DarkenByOneKeeps | network.js:275-300 | With factor 1 the result is the input colour, formatted back. |
| Colors.DarkenByOneLowercases | network.js:275-300 | With factor 1 the output is the input in lower case. |
| Colors.DigitRoundTrip | network.js:283-297 | Writing back a digit's value gives the digit in lower case. |

## Left out

- HTML tables, alerts, `document` reads and writes, the eigen-decomposition
  (`math.eigs`), drawing of hulls and circles, highlighting and recolouring of
  edges, physics and the editing-mode machine are not modelled. They are display
  or foreign numeric code.
- `updateGraphInfo` is not modelled. It only re-runs the analyses and redraws.
- `network.setOptions` is not modelled. `toggleDirection` is modelled as flipping the flag.
- `Number(label)` is a parameter of the state classes, `toNumber`, fixed when the
  state is created. This covers JavaScript's string-to-number conversion, which
  is not part of this model.
  - A label whose `Number` is `NaN` is outside the model.
  - In `addEdge`, `deleteEdge` and `parseInt`, a `NaN` is modelled as `None`.
- Network.NetworkState.AddNode: node positions and the `physics` flag of a new
  node are not kept. The labels the user types come in as a parameter.
- Scripts.ScriptState.AddNode: the random placement of a new node is not modelled.
- The edge `label` (`String(edge_id)`) is not stored. No routine reads it.
- Ids are integers everywhere. The string keys of JavaScript objects are not
  modelled: `distances[fromNode]` with a string `fromNode` and the
  `current == toNode` comparison are taken as acting on the numbers. The
  node-existence check in `dijkstra` only raises an alert and does not return,
  so it is left out.
- ShortestPath.Dijkstra: weights are 1, because no edge gets a `value`. The
  module-level search takes the arrows setting as a parameter. The write of the
  "directed path" checkbox into the stores' arrows flag is modelled by
  Network.NetworkState.Dijkstra and Scripts.ScriptState.Dijkstra. Both trace
  with the corrected loop, not the loop as written at analyze.js:351.
- ShortestPath.Relax: `for (const neighbor in graph[current])` visits keys in
  `Object.keys` order. The model relaxes the neighbours in any order, and the
  contract holds for every order.
- Bipartite.IsComponentBipartite: with arrows shown, the neighbours come from
  `getConnectedEdges`. These are modelled as all edges at the node, in store
  order; vis.js may list them in another order.
- Components.GetComponents: the order vis.js lists connected nodes in is
  modelled as edge order. The contract does not depend on it.
- Colors.GetSeededColor: the opacity and the `rgb(...)` string are not modelled.
  The arithmetic is done on doubles. `seed / m * 256` is exact, since m and 256
  are powers of two. After the first step |seed| < 2^31, so `a * seed + c` is
  exact too. In the first step the product `a * seed` is rounded once |seed|
  exceeds about 2^53 / 1664525. The model computes it exactly, so for such seeds
  it can differ from the page.
- Colors.DarkenHexColor: the factor is taken as a fraction num/den. The default
  0.8 is 4/5. `r * factor` on doubles can round differently from the exact
  product for factors that are not exact binary fractions.
- colorpicker.js and init.js are not part of this model.

## Findings

| source | as written | input that shows it | evidently intended | confidence | as-written member | corrected member |
|---|---|---|---|---|---|---|
| analyze.js:351 | The trace loop runs `while (currentNode)`, and a predecessor with id 0 is falsy, so the trace stops at node 0. The same loop is at scripts.js:494. | Edges 1–0 and 0–2, undirected, from 1 to 2. The trace gives only the hop 0→2. | The trace runs back to the source: 1→0, 0→2. | not executed; high | ShortestPath.TraceAsWritten, ShortestPath.TraceStopsAtZero | ShortestPath.TraceFrom, ShortestPath.TracePath, ShortestPath.TraceIsShortest, ShortestPath.Dijkstra |
| scripts.js:337 | `seed = (a * seed + c) % m` uses JavaScript's truncating `%`, so a negative seed stays negative and the channel `Math.floor(seed / m * 256)` is negative. The same step is at analyze.js:194. | Seed -1000 steps to -650620777, which gives the red channel -78. | Channels in 0..255 for every integer seed, as with a floored modulus. | not executed; medium: drawComponents passes a component's first node id as the seed (analyze.js:239, scripts.js:382). A typed label such as "-1000" gives a node that id through `Number(label)` (network.js:212, scripts.js:80). Only the automatic ids are non-negative. | Colors.Next, Colors.NegativeSeedChannel | Colors.FlooredNext, Colors.FlooredColorRange |
