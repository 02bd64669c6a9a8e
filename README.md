# flat_graphs in Dafny

A model of a small arena graph, together with the properties proved about it.
All nodes live in one growable vector (`Vec<Node>`). Each node refers to
others through `NodeRef`, a typed plain index, not through pointers. Node
`i` carries `NodeRef(i)` as its identity, a label `.L<i>` and an ordered list
of out-edges, which may hold duplicates and self-edges. The graph supports
these operations:

- appending nodes, either unlinked or with an initial edge list;
- bounds-checked lookup;
- appending an edge;
- a breadth-first walk from the root (index 0) with a FIFO queue and a
  `visited` vector. The walk calls a visitor once per (expanded node,
  out-edge), or once with `None` for an expanded node that has no edges.

Files:

- `decimal.dfy` (module `Decimal`): the decimal rendering of a natural
  number, which the label format uses. It comes with its read-back function
  and a proof of the round trip.
- `nodes.dfy` (module `Nodes`): the values `NodeRef`, `Node`, `ROOT` and the
  label function. This file also holds the identity invariant (node `i` is
  `NodeRef(i)`) and the bounds-checked lookup on the node sequence.
- `traversal.dfy` (module `Traversal`): reachability from the root along
  stored edges. It also defines the breadth-first expansion order as a
  function (`Expand`, `Order`), the visitor calls of one expansion (`Emit`)
  and of a whole walk (`TraceOf`), and the proofs about them.
- `levels.dfy` (module `Levels`): the distance of a node from the root
  (the length of a shortest root path), and the proof that the walk is
  breadth-first: it expands nodes in order of distance.
- `graph.dfy` (module `Graphs`): the class `Graph` with its `nodes` field and
  the operations as methods that update it. `Walk` is a loop over a local
  `visited` array and a queue, proved to produce `TraceOf(nodes,
  Order(nodes))`. The second module in this file, `Sample`, builds the graph
  from the program's driver (root→A, A→B, B→C, B→D, D→A). It proves the
  exact sequence of visitor calls its walk makes, and the label pairs the
  driver's visitor prints for them.

The walk's visitor closure is replaced by a returned trace: a sequence of
`(NodeRef, Option<NodeRef>)`. Each entry holds the expanded node's reference
and the reference of the looked-up edge target. The target is `None` when the
lookup fails, and also for the single call of a node without edges.

`add_node_linked` first copies the supplied edges into the new node and then
calls `link` once for each of them. The node therefore ends up with the
supplied edge list twice over (`edges + edges`), and the model states exactly
that.

## Model

| member | source | states |
|---|---|---|
| Graphs.Graph.constructor | src/main.rs:40-42 | the new graph has no nodes and satisfies the identity invariant |
| Graphs.Graph.AddNode | src/main.rs:45-56 | returns `NodeRef(old count)` and appends exactly one node: its id equals its index, its label is `Label(index)` and its edges are empty. Earlier nodes are unchanged, so every earlier reference resolves as before, and the identity invariant is kept |
| Graphs.Graph.AddNodeLinked | src/main.rs:59-73 | returns `NodeRef(old count)` and appends one node whose edge list is `edges + edges` (the copy, then one `link` per element). No earlier node changes, earlier references resolve as before, and the invariant is kept |
| Graphs.Graph.NodeAsRef | src/main.rs:76-78 | `Some(nodes[id])` exactly when `id` is in bounds, otherwise `None`; under the invariant, the node found carries `id` as its identity |
| Graphs.Graph.NodeAsMutRef | src/main.rs:81-83 | `Some` exactly when `id` is in bounds, and it resolves every reference exactly as `NodeAsRef` does |
| Graphs.Graph.Link | src/main.rs:86-90 | requires `from` in bounds (otherwise the `unwrap` panics). Appends `to` at the end of `from`'s edges without checking `to`. Every other node, and `from`'s id and label, stay the same; the invariant is kept |
| Graphs.Graph.VisitEdges | src/main.rs:114-126 | expanding node `n` appends exactly `Emit(nodes, n)` to the visitor calls and `n`'s edges, in order, to the back of the queue |
| Graphs.Graph.Walk | src/main.rs:93-128 | requires a non-empty graph in which no reachable node has an out-of-bounds edge. The calls made equal `TraceOf(nodes, Order(nodes))`. Each reachable node's calls are exactly its block (one per edge in edge-list order with the looked-up target, or one `None`); an unreachable node gets no call. The loop terminates on cyclic graphs: each pass marks a node or shortens the queue |
| Nodes.Label | src/main.rs:49 | the label is ".L" followed by decimal digits whose value is the node's index, with no leading zero except in ".L0"; this fixes the label uniquely |
| Nodes.LabelInjective | src/main.rs:49 | nodes created at different indices get different labels |
| Nodes.Lookup | src/main.rs:77 | `Vec::get`: `Some(nodes[i])` exactly when `i` is in bounds, otherwise `None`; under the invariant, the node found has the requested identity |
| Decimal.NatToDecimal | src/main.rs:49 | the rendering is a non-empty string of digits with no leading zero except for 0 itself |
| Decimal.DecimalRoundTrip | src/main.rs:49 | reading the rendering of `n` back as a decimal number gives `n` |
| Decimal.NatToDecimalInjective | src/main.rs:63 | distinct numbers render differently |
| Traversal.RootReachable | src/main.rs:103 | the root, the first node queued, is reachable in a non-empty graph |
| Traversal.EdgesReachable | src/main.rs:118-121 | every edge target queued by a reachable node is reachable, and it is in bounds when the walk can run |
| Traversal.Expand | src/main.rs:105-127 | everything the walk expands is an in-bounds reachable node |
| Traversal.CountFalseMark | src/main.rs:112 | marking an unvisited node lowers the number of unvisited nodes by one (the walk's termination measure) |
| Traversal.ExpandSkip | src/main.rs:107-109 | a dequeued node that is already visited is dropped without effect |
| Traversal.ExpandVisit | src/main.rs:105-126 | a dequeued unvisited node is expanded, its edges join the back of the queue, and the unvisited count drops |
| Traversal.ExpandFresh | src/main.rs:105-112 | only nodes unvisited at the start are expanded, and none is expanded twice |
| Traversal.ExpandCovers | src/main.rs:105-126 | every queued node, and every edge target of an expanded node, is either visited already or expanded |
| Traversal.PathEndsInClosed | src/main.rs:118-121 | a node set that contains the root and is closed under edges contains the end of every path from the root |
| Traversal.OrderCorrect | src/main.rs:98-127 | the walk expands the root first, expands no node twice, and expands exactly the nodes reachable from the root (both directions) |
| Traversal.NoneVisited | src/main.rs:98 | the initial marking has one entry per node, all false |
| Traversal.Emit | src/main.rs:116-126 | an expanded node makes one call per edge, in edge-list order, each with the target looked up, or exactly one call with `None` when it has no edges; every call names the expanded node |
| Traversal.TraceOfSnoc | src/main.rs:105-127 | expanding one more node appends exactly that node's block to the calls |
| Traversal.EntriesFromAppend | src/main.rs:120 | the calls for one node, selected from two runs of calls, are the selections from each run, kept in order |
| Traversal.EntriesFromTrace | src/main.rs:105-127 | in the calls of a duplicate-free expansion order, a node's calls are its block if it is expanded and none otherwise |
| Traversal.WalkEntries | src/main.rs:105-127 | over a whole walk, a reachable node's calls are exactly its block and an unreachable node's are none |
| Traversal.WalkVisitStep | src/main.rs:105-126 | one expanding pass of the loop keeps the walk's invariants: the expansion so far followed by the rest of the expansion is the whole order, and the calls so far are those of the expansion so far |
| Traversal.WalkTraceEntries | src/main.rs:105-127 | a trace equal to the trace of the whole order gives a reachable node exactly its block and an unreachable node none |
| Sample.SampleCanWalk | src/main.rs:138-149 | the driver's graph has no dangling edge, so walking it cannot panic |
| Sample.SampleReachable | src/main.rs:138-149 | every node of the driver's graph is reachable from the root |
| Sample.SampleOrder | src/main.rs:151 | the driver's walk expands root, A, B, C, D in that order. D's edge back to A finds A visited, so A is not expanded again |
| Sample.SampleBlocks | src/main.rs:145-149 | the calls each node of the driver's graph makes when expanded |
| Sample.SampleOrderTrace | src/main.rs:151 | expanding root, A, B, C, D produces the six calls (root, A), (A, B), (B, C), (B, D), (C, None), (D, A) |
| Sample.SampleTrace | src/main.rs:151 | the driver's walk makes exactly those six calls, as node references |
| Sample.AddSampleNodes | src/main.rs:138-143 | five `add_node` calls on a new graph give nodes 0 to 4, unlinked, labelled `Label(0)` to `Label(4)` |
| Sample.BuildSample | src/main.rs:138-149 | five `add_node` calls and five `link` calls build a fresh graph with the invariant, the driver's shape, and node `i` labelled `Label(i)` |
| Sample.Describe | src/main.rs:151-156 | what the driver's visitor prints for one call: the expanded node's label, and the target's label, or "None" when there is no target |
| Sample.SampleLabels | src/main.rs:49 | the sample nodes are labelled ".L0" to ".L4" |
| Sample.SampleLines | src/main.rs:151-156 | on the driver's graph, the six calls print as (.L0, .L1), (.L1, .L2), (.L2, .L3), (.L2, .L4), (.L3, None), (.L4, .L1) |
| Sample.DemoWalk | src/main.rs:138-157 | building the driver's graph and walking it returns exactly the six calls, and the label pairs its visitor prints are (.L0, .L1), (.L1, .L2), (.L2, .L3), (.L2, .L4), (.L3, None), (.L4, .L1) |
| Levels.ShortestExists | src/main.rs:92 | any node with a root path has a shortest one |
| Levels.Dist | src/main.rs:92 | for a reachable node, the distance is the length of a shortest root path: some path has that length and none is shorter |
| Levels.DistZero | src/main.rs:9 | the root is the one reachable node at distance 0 |
| Levels.DistEdge | src/main.rs:118-121 | following an edge of a reachable node raises the distance by at most one |
| Levels.DistPred | src/main.rs:118-121 | every reachable node away from the root has a reachable predecessor exactly one step closer |
| Levels.FrontierStart | src/main.rs:98-103 | the initial state (root queued, nothing visited) satisfies the level invariant at level 0 |
| Levels.FrontierPromote | src/main.rs:105 | when the current level's entries are used up, the queued entries of the next level become the current level, and the invariant holds one level up |
| Levels.FrontierSkip | src/main.rs:107-109 | dropping a visited entry keeps the level invariant |
| Levels.FrontierVisit | src/main.rs:111-126 | the node expanded next is exactly at the current level, and after expanding it (marking it, queueing its edges behind the next level) the invariant still holds |
| Levels.ExpandVisitSplit | src/main.rs:111-126 | the expansion step with the queue split at the level boundary: expanding the front node puts its edges behind the whole queue |
| Levels.ByDistanceCons | src/main.rs:105-127 | a node at level `l` in front of nodes in distance order, none closer than `l`, keeps the order |
| Levels.ExpandByDistance | src/main.rs:105-127 | from any state satisfying the level invariant, the walk expands nodes in non-decreasing distance from the root, none closer than the current level |
| Levels.OrderByDistance | src/main.rs:92-128 | "walk the graph in BFS order": the whole walk expands nodes in non-decreasing distance from the root |

## Left out

- The driver's printing of each visitor call (src/main.rs:151-157) is I/O and is not modelled. `Sample.DemoWalk` returns the calls and the label pairs the visitor would print (`Sample.Describe`), not the formatted text.
- The generic `FnMut` visitor is replaced by the returned trace. A visitor with side effects of its own is not modelled.
- Graphs.Graph.Walk: its panics become a precondition rather than modelled failure. One panic is on an empty graph, where `visited[0]` is out of bounds. The other is when a reachable node has an edge past the storage, which is queued and then indexed into `visited`.
- Graphs.Graph.Link: the `unwrap` panic on an out-of-bounds `from` is a precondition.
- `NodeRef` holds an unbounded `nat`, not a `usize`. The storage can never hold `usize::MAX` nodes, so the width cannot matter.
- The `VecDeque` queue is a `seq`, and `visited` is a Dafny `array<bool>` local to `Walk`. Their allocation and growth behaviour is not modelled.
- Graphs.Graph.NodeAsMutRef: returns the node value. In-place edits through the returned `&mut Node` (changing the label or the edge list) are the caller's business and are not modelled; the graph's own methods are the only updates.
- The derived `Debug`, `Clone` and `Copy` traits are not modelled. The derived `PartialOrd`/`Ord` on `NodeRef` is the order of the indices.
- The node's `label` field is named `name`, because `label` is a reserved word in Dafny.
- The loop over an expanded node's edges (src/main.rs:116-126) is its own method, `Graphs.Graph.VisitEdges`, which `Walk` calls in its place.
