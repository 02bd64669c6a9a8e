/** The arena graph: all nodes live in one append-only sequence and refer to
    each other only by index. */
module Graphs {
  import opened Nodes
  import opened Traversal

  class Graph {
    /** The node storage; a node's position is its identity. */
    var nodes: seq<Node>

    ghost predicate Valid()
      reads this
    {
      IdsMatch(nodes)
    }

    /** An empty graph. */
    constructor ()
      ensures Valid() && nodes == []
    {
      nodes := [];
    }

    /** Appends an unlinked node. Its reference is the old node count; it
        gets an empty edge list and the label ".L<index>"; no earlier node
        changes, so every earlier reference resolves as before. */
    method AddNode() returns (r: NodeRef)
      requires Valid()
      modifies this
      ensures Valid()
      ensures r == NodeRef(|old(nodes)|)
      ensures nodes == old(nodes) + [Node(r, Label(r.index), [])]
      ensures forall id: NodeRef :: id.index < |old(nodes)| ==> NodeAsRef(id) == old(NodeAsRef(id))
    {
      var nodeId := |nodes|;
      var node := Node(NodeRef(nodeId), Label(nodeId), []);
      nodes := nodes + [node];
      r := NodeRef(nodeId);
    }

    /** Appends a node whose edge list starts as a copy of `edges`, and then
        links it once more to each element of `edges`: the node ends up
        with `edges` twice over. */
    method AddNodeLinked(edges: seq<NodeRef>) returns (r: NodeRef)
      requires Valid()
      modifies this
      ensures Valid()
      ensures r == NodeRef(|old(nodes)|)
      ensures nodes == old(nodes) + [Node(r, Label(r.index), edges + edges)]
      ensures forall id: NodeRef :: id.index < |old(nodes)| ==> NodeAsRef(id) == old(NodeAsRef(id))
    {
      var nodeId := |nodes|;
      var node := Node(NodeRef(nodeId), Label(nodeId), edges);
      nodes := nodes + [node];
      assert edges + edges[..0] == edges;
      for k := 0 to |edges|
        invariant Valid()
        invariant nodes == old(nodes) + [Node(NodeRef(nodeId), Label(nodeId), edges + edges[..k])]
      {
        Link(NodeRef(nodeId), edges[k]);
        assert edges + edges[..k + 1] == edges + edges[..k] + [edges[k]];
      }
      assert edges[..|edges|] == edges;
      r := NodeRef(nodeId);
    }

    /** The node at `id`, or None when `id` is past the storage. */
    function NodeAsRef(id: NodeRef): (r: Option<Node>)
      reads this
      ensures r.Some? <==> id.index < |nodes|
      ensures r.Some? ==> r.value == nodes[id.index]
      ensures Valid() && r.Some? ==> r.value.id == id
    {
      Lookup(nodes, id)
    }

    /** The lookup for a caller that means to edit the node: it resolves
        every reference exactly as `NodeAsRef` does. */
    function NodeAsMutRef(id: NodeRef): (r: Option<Node>)
      reads this
      ensures r.Some? <==> id.index < |nodes|
      ensures r == NodeAsRef(id)
    {
      Lookup(nodes, id)
    }

    /** Appends `to` to the edges of `from`; `to` is not checked. Nothing
        else changes. */
    method Link(from: NodeRef, to: NodeRef)
      requires Valid()
      requires from.index < |nodes|
      modifies this
      ensures Valid()
      ensures |nodes| == |old(nodes)|
      ensures nodes == old(nodes)[from.index := old(nodes[from.index]).(edges := old(nodes[from.index].edges) + [to])]
    {
      var src := nodes[from.index];
      nodes := nodes[from.index := src.(edges := src.edges + [to])];
    }

    /** The expansion of node `n` within the walk: one visitor call per
        edge, in edge-list order, with the target looked up, each target
        pushed on the back of the queue; or a single call with None for a
        node without edges, which pushes nothing. */
    method VisitEdges(n: NodeRef, trace0: seq<Entry>, queue0: seq<NodeRef>) returns (trace: seq<Entry>, queue: seq<NodeRef>)
      requires n.index < |nodes|
      ensures trace == trace0 + Emit(nodes, n)
      ensures queue == queue0 + nodes[n.index].edges
    {
      var node := NodeAsRef(n).value;
      trace, queue := trace0, queue0;
      if |node.edges| > 0 {
        for j := 0 to |node.edges|
          invariant queue == queue0 + node.edges[..j]
          invariant trace == trace0 + Emit(nodes, n)[..j]
        {
          trace := trace + [(node.id, IdOf(NodeAsRef(node.edges[j])))];
          queue := queue + [node.edges[j]];
          assert node.edges[..j + 1] == node.edges[..j] + [node.edges[j]];
          assert Emit(nodes, n)[..j + 1] == Emit(nodes, n)[..j] + [Emit(nodes, n)[j]];
        }
        assert node.edges[..|node.edges|] == node.edges;
      } else {
        trace := trace + [(node.id, None)];
      }
    }

    /** Breadth-first walk from the root. Returns the visitor calls in
        order: each reachable node is expanded once, contributing one call
        per edge (with the looked-up target) in edge-list order, or one call
        with None when it has no edges; unreachable nodes contribute
        nothing. */
    method Walk() returns (trace: seq<Entry>)
      requires Valid()
      requires CanWalk(nodes)
      ensures trace == TraceOf(nodes, Order(nodes))
      ensures forall n: NodeRef :: n.index < |nodes| && Reachable(nodes, n.index) ==>
        EntriesFrom(trace, n) == Emit(nodes, n)
      ensures forall n: NodeRef :: !Reachable(nodes, n.index) ==> EntriesFrom(trace, n) == []
    {
      var visited := new bool[|nodes|](_ => false);
      assert visited[..] == NoneVisited(|nodes|);
      var queue := [ROOT];
      RootReachable(nodes);
      trace := [];
      ghost var order: seq<NodeRef> := [];
      while queue != []
        invariant visited.Length == |nodes|
        invariant QueueOk(nodes, queue) && QueueOk(nodes, order)
        invariant order + Expand(nodes, queue, visited[..]) == Order(nodes)
        invariant trace == TraceOf(nodes, order)
        decreases CountFalse(visited[..]), |queue|
      {
        var current := queue[0];
        ghost var before := queue;
        queue := queue[1..];
        if visited[current.index] {
          ExpandSkip(nodes, before, visited[..]);
          continue;
        }
        ghost var marks := visited[..];
        visited[current.index] := true;
        assert visited[..] == marks[current.index := true];
        ghost var trace0 := trace;
        trace, queue := VisitEdges(current, trace, queue);
        WalkVisitStep(nodes, order, before, marks, trace0, queue, trace);
        order := order + [current];
      }
      assert Expand(nodes, queue, visited[..]) == [];
      assert order + [] == order;
      WalkTraceEntries(nodes, trace);
    }
  }
}

/** The sample graph the program's driver builds and walks. */
module Sample {
  import opened Nodes
  import opened Traversal
  import opened Graphs

  /** root -> A, A -> B, B -> C, B -> D, D -> A, node i at index i: the
      shape of the storage after the driver's five `add_node` and five
      `link` calls, whatever the labels. */
  ghost predicate SampleShape(g: seq<Node>) {
    && |g| == 5 && IdsMatch(g)
    && g[0].edges == [NodeRef(1)]
    && g[1].edges == [NodeRef(2)]
    && g[2].edges == [NodeRef(3), NodeRef(4)]
    && g[3].edges == []
    && g[4].edges == [NodeRef(1)]
  }

  /** Every edge of the sample graph is in bounds, so it can be walked. */
  lemma SampleCanWalk(g: seq<Node>)
    requires SampleShape(g)
    ensures CanWalk(g)
  {
    forall i, e | 0 <= i < |g| && e in g[i].edges
      ensures e.index < |g|
    {
    }
  }

  /** Every node of the sample graph is reachable from the root. */
  lemma SampleReachable(g: seq<Node>)
    requires SampleShape(g)
    ensures forall i: nat :: i < 5 ==> Reachable(g, i)
  {
    assert IsPath(g, [0]);
    assert IsPath(g, [0, 1]);
    assert IsPath(g, [0, 1, 2]);
    assert IsPath(g, [0, 1, 2, 3]);
    assert IsPath(g, [0, 1, 2, 4]);
  }

  /** One step of the sample walk that expands the front node: the general
      step restated for the five-node sample, so that each concrete step
      below is proved in a small context. */
  lemma SampleVisit(g: seq<Node>, queue: seq<NodeRef>, visited: seq<bool>, next: seq<NodeRef>, marked: seq<bool>)
    requires SampleShape(g) && CanWalk(g) && |visited| == 5
    requires forall i: nat :: i < 5 ==> Reachable(g, i)
    requires queue != [] && forall q :: q in queue ==> q.index < 5
    requires !visited[queue[0].index]
    requires next == queue[1..] + g[queue[0].index].edges && marked == visited[queue[0].index := true]
    ensures Expand(g, queue, visited) == [queue[0]] + Expand(g, next, marked)
  {
    ExpandVisit(g, queue, visited);
  }

  /** One step of the sample walk that skips the visited front node; the
      general step restated for the sample, to keep each proof small. */
  lemma SampleSkip(g: seq<Node>, queue: seq<NodeRef>, visited: seq<bool>)
    requires SampleShape(g) && CanWalk(g) && |visited| == 5
    requires forall i: nat :: i < 5 ==> Reachable(g, i)
    requires queue != [] && forall q :: q in queue ==> q.index < 5
    requires visited[queue[0].index]
    ensures Expand(g, queue, visited) == Expand(g, queue[1..], visited)
  {
    ExpandSkip(g, queue, visited);
  }

  /** From C on, the walk expands C and D and then finds A visited. */
  lemma SampleOrderFromC(g: seq<Node>)
    requires SampleShape(g) && CanWalk(g)
    requires forall i: nat :: i < 5 ==> Reachable(g, i)
    ensures Expand(g, [NodeRef(3), NodeRef(4)], [true, true, true, false, false])
      == [NodeRef(3), NodeRef(4)]
  {
    var n1, n3, n4 := NodeRef(1), NodeRef(3), NodeRef(4);
    var v3 := [true, true, true, false, false];
    var v4 := [true, true, true, true, false];
    var v5 := [true, true, true, true, true];
    SampleVisit(g, [n3, n4], v3, [n4], v4);
    SampleVisit(g, [n4], v4, [n1], v5);
    SampleSkip(g, [n1], v5);
    assert [n1][1..] == [];
  }

  /** From B on, the walk expands B, C, D. */
  lemma SampleOrderFromB(g: seq<Node>)
    requires SampleShape(g) && CanWalk(g)
    requires forall i: nat :: i < 5 ==> Reachable(g, i)
    ensures Expand(g, [NodeRef(2)], [true, true, false, false, false])
      == [NodeRef(2), NodeRef(3), NodeRef(4)]
  {
    SampleVisit(g, [NodeRef(2)], [true, true, false, false, false],
      [NodeRef(3), NodeRef(4)], [true, true, true, false, false]);
    SampleOrderFromC(g);
  }

  /** From A on, the walk expands A, B, C, D. */
  lemma SampleOrderFromA(g: seq<Node>)
    requires SampleShape(g) && CanWalk(g)
    requires forall i: nat :: i < 5 ==> Reachable(g, i)
    ensures Expand(g, [NodeRef(1)], [true, false, false, false, false])
      == [NodeRef(1), NodeRef(2), NodeRef(3), NodeRef(4)]
  {
    SampleVisit(g, [NodeRef(1)], [true, false, false, false, false], [NodeRef(2)], [true, true, false, false, false]);
    SampleOrderFromB(g);
  }

  /** From the root on, the walk expands root, A, B, C, D. */
  lemma SampleOrderFromRoot(g: seq<Node>, v0: seq<bool>)
    requires SampleShape(g) && CanWalk(g)
    requires forall i: nat :: i < 5 ==> Reachable(g, i)
    requires v0 == [false, false, false, false, false]
    ensures Expand(g, [NodeRef(0)], v0) == [NodeRef(0), NodeRef(1), NodeRef(2), NodeRef(3), NodeRef(4)]
  {
    SampleVisit(g, [NodeRef(0)], v0, [NodeRef(1)], [true, false, false, false, false]);
    SampleOrderFromA(g);
  }

  /** The walk expands root, A, B, C, D in that order: D's edge back to A
      finds A visited, so A is not expanded again. */
  lemma SampleOrder(g: seq<Node>)
    requires SampleShape(g) && CanWalk(g)
    ensures Order(g) == [NodeRef(0), NodeRef(1), NodeRef(2), NodeRef(3), NodeRef(4)]
  {
    SampleReachable(g);
    SampleOrderFromRoot(g, NoneVisited(5));
  }

  /** The visitor calls made for each node of the sample graph. */
  lemma SampleBlocks(g: seq<Node>)
    requires SampleShape(g)
    ensures Emit(g, NodeRef(0)) == [(NodeRef(0), Some(NodeRef(1)))]
    ensures Emit(g, NodeRef(1)) == [(NodeRef(1), Some(NodeRef(2)))]
    ensures Emit(g, NodeRef(2)) == [(NodeRef(2), Some(NodeRef(3))), (NodeRef(2), Some(NodeRef(4)))]
    ensures Emit(g, NodeRef(3)) == [(NodeRef(3), None)]
    ensures Emit(g, NodeRef(4)) == [(NodeRef(4), Some(NodeRef(1)))]
  {
    assert g[0].edges[0] == NodeRef(1) && g[1].edges[0] == NodeRef(2);
    assert g[2].edges[0] == NodeRef(3) && g[2].edges[1] == NodeRef(4);
    assert g[4].edges[0] == NodeRef(1);
  }

  /** One node's block appended to the sample trace: the general step
      restated with the trace prefixes as parameters, to keep each proof
      small. */
  lemma SampleTraceStep(g: seq<Node>, order: seq<NodeRef>, n: NodeRef, t: seq<Entry>, b: seq<Entry>, order': seq<NodeRef>, t': seq<Entry>)
    requires SampleShape(g) && n.index < 5 && forall x :: x in order ==> x.index < 5
    requires t == TraceOf(g, order) && b == Emit(g, n)
    requires order' == order + [n] && t' == t + b
    ensures TraceOf(g, order') == t'
  {
    TraceOfSnoc(g, order, n);
  }

  /** The visitor calls made when root, A, B, C, D are expanded in turn. */
  lemma SampleOrderTrace(g: seq<Node>)
    requires SampleShape(g)
    ensures TraceOf(g, [NodeRef(0), NodeRef(1), NodeRef(2), NodeRef(3), NodeRef(4)]) == [
      (NodeRef(0), Some(NodeRef(1))), (NodeRef(1), Some(NodeRef(2))),
      (NodeRef(2), Some(NodeRef(3))), (NodeRef(2), Some(NodeRef(4))),
      (NodeRef(3), None), (NodeRef(4), Some(NodeRef(1)))]
  {
    var n0, n1, n2, n3, n4 := NodeRef(0), NodeRef(1), NodeRef(2), NodeRef(3), NodeRef(4);
    var b0, b1 := [(n0, Some(n1))], [(n1, Some(n2))];
    var b2, b3, b4 := [(n2, Some(n3)), (n2, Some(n4))], [(n3, None)], [(n4, Some(n1))];
    SampleBlocks(g);
    assert TraceOf(g, []) == [];
    SampleTraceStep(g, [], n0, [], b0, [n0], b0);
    SampleTraceStep(g, [n0], n1, b0, b1, [n0, n1], b0 + b1);
    SampleTraceStep(g, [n0, n1], n2, b0 + b1, b2, [n0, n1, n2], b0 + b1 + b2);
    SampleTraceStep(g, [n0, n1, n2], n3, b0 + b1 + b2, b3, [n0, n1, n2, n3], b0 + b1 + b2 + b3);
    SampleTraceStep(g, [n0, n1, n2, n3], n4, b0 + b1 + b2 + b3, b4, [n0, n1, n2, n3, n4], b0 + b1 + b2 + b3 + b4);
  }

  /** The visitor calls of the driver's walk: (.L0, .L1), (.L1, .L2),
      (.L2, .L3), (.L2, .L4), (.L3, None), (.L4, .L1), as references. */
  lemma SampleTrace(g: seq<Node>)
    requires SampleShape(g) && CanWalk(g)
    ensures TraceOf(g, Order(g)) == [
      (NodeRef(0), Some(NodeRef(1))), (NodeRef(1), Some(NodeRef(2))),
      (NodeRef(2), Some(NodeRef(3))), (NodeRef(2), Some(NodeRef(4))),
      (NodeRef(3), None), (NodeRef(4), Some(NodeRef(1)))]
  {
    SampleOrder(g);
    SampleOrderTrace(g);
  }

  /** The driver's five `add_node` calls: nodes 0 to 4, unlinked. */
  method AddSampleNodes() returns (graph: Graph)
    ensures fresh(graph) && graph.Valid() && |graph.nodes| == 5
    ensures forall i :: 0 <= i < 5 ==> graph.nodes[i].name == Label(i) && graph.nodes[i].edges == []
  {
    graph := new Graph();
    var root := graph.AddNode();
    var a := graph.AddNode();
    var b := graph.AddNode();
    var c := graph.AddNode();
    var d := graph.AddNode();
  }

  /** The driver's graph construction: five nodes, then five links. */
  method BuildSample() returns (graph: Graph)
    ensures fresh(graph) && graph.Valid() && SampleShape(graph.nodes)
    ensures forall i :: 0 <= i < |graph.nodes| ==> graph.nodes[i].name == Label(i)
  {
    graph := AddSampleNodes();
    var root, a, b, c, d := NodeRef(0), NodeRef(1), NodeRef(2), NodeRef(3), NodeRef(4);
    graph.Link(root, a);
    graph.Link(a, b);
    graph.Link(b, c);
    graph.Link(b, d);
    graph.Link(d, a);
  }

  /** The pair of labels the driver's visitor prints for one call: the
      expanded node's label, and the target's label or "None". */
  function Describe(nodes: seq<Node>, e: Entry): (line: (string, string))
    requires e.0.index < |nodes|
    ensures line.0 == nodes[e.0.index].name
    ensures e.1 == None ==> line.1 == "None"
    ensures e.1.Some? && e.1.value.index < |nodes| ==> line.1 == nodes[e.1.value.index].name
  {
    var to := match e.1
      case None => None
      case Some(t) => Lookup(nodes, t);
    (nodes[e.0.index].name, match to case None => "None" case Some(n) => n.name)
  }

  /** The label pairs printed for a whole trace, one per call. */
  function Lines(nodes: seq<Node>, trace: seq<Entry>): (lines: seq<(string, string)>)
    requires forall k :: 0 <= k < |trace| ==> trace[k].0.index < |nodes|
  {
    seq(|trace|, k requires 0 <= k < |trace| => Describe(nodes, trace[k]))
  }

  /** The labels of the sample nodes. */
  lemma SampleLabels()
    ensures Label(0) == ".L0" && Label(1) == ".L1" && Label(2) == ".L2"
    ensures Label(3) == ".L3" && Label(4) == ".L4"
  {
  }

  /** The labelled form of the sample trace, as the driver prints it. */
  lemma SampleLines(g: seq<Node>, trace: seq<Entry>)
    requires SampleShape(g) && forall i :: 0 <= i < |g| ==> g[i].name == Label(i)
    requires trace == [
      (NodeRef(0), Some(NodeRef(1))), (NodeRef(1), Some(NodeRef(2))),
      (NodeRef(2), Some(NodeRef(3))), (NodeRef(2), Some(NodeRef(4))),
      (NodeRef(3), None), (NodeRef(4), Some(NodeRef(1)))]
    ensures forall k :: 0 <= k < |trace| ==> trace[k].0.index < |g|
    ensures Lines(g, trace) == [
      (".L0", ".L1"), (".L1", ".L2"), (".L2", ".L3"), (".L2", ".L4"), (".L3", "None"), (".L4", ".L1")]
  {
    SampleLabels();
  }

  /** The driver's walk over the sample graph, with the label pairs its
      visitor prints: "Node .L0 is connected to .L1", and so on. */
  method DemoWalk() returns (trace: seq<Entry>, lines: seq<(string, string)>)
    ensures trace == [
      (NodeRef(0), Some(NodeRef(1))), (NodeRef(1), Some(NodeRef(2))),
      (NodeRef(2), Some(NodeRef(3))), (NodeRef(2), Some(NodeRef(4))),
      (NodeRef(3), None), (NodeRef(4), Some(NodeRef(1)))]
    ensures lines == [
      (".L0", ".L1"), (".L1", ".L2"), (".L2", ".L3"), (".L2", ".L4"), (".L3", "None"), (".L4", ".L1")]
  {
    var graph := BuildSample();
    var g := graph.nodes;
    SampleCanWalk(g);
    trace := graph.Walk();
    SampleTrace(g);
    SampleLines(g, trace);
    lines := Lines(g, trace);
  }
}
