/** The breadth-first walk as a function of the node storage, and what it
    guarantees: every node reachable from the root is expanded exactly
    once, nothing else is, and each expansion reports the node's edges in
    edge-list order. */
module Traversal {
  import opened Nodes

  /** One visitor call: the expanded node and the looked-up target of one
      of its edges, or None for a node without edges. */
  type Entry = (NodeRef, Option<NodeRef>)

  /** `p` is a path of node indices from the root along stored edges. */
  ghost predicate IsPath(nodes: seq<Node>, p: seq<nat>) {
    && |p| > 0
    && p[0] == ROOT.index
    && (forall k :: 0 <= k < |p| ==> p[k] < |nodes|)
    && (forall k :: 0 < k < |p| ==> NodeRef(p[k]) in nodes[p[k - 1]].edges)
  }

  ghost predicate Reachable(nodes: seq<Node>, i: nat) {
    exists p :: IsPath(nodes, p) && p[|p| - 1] == i
  }

  /** What the walk needs in order not to panic: a root to start from, and
      no edge out of a reachable node that points past the storage. */
  ghost predicate CanWalk(nodes: seq<Node>) {
    && |nodes| > 0
    && forall i :: 0 <= i < |nodes| && Reachable(nodes, i) ==>
         forall e :: e in nodes[i].edges ==> e.index < |nodes|
  }

  lemma RootReachable(nodes: seq<Node>)
    requires |nodes| > 0
    ensures Reachable(nodes, ROOT.index)
  {
    assert IsPath(nodes, [ROOT.index]);
  }

  /** The targets of a reachable node's edges are reachable and, when the
      walk can run, in bounds. */
  lemma EdgesReachable(nodes: seq<Node>, i: nat)
    requires CanWalk(nodes) && i < |nodes| && Reachable(nodes, i)
    ensures forall e :: e in nodes[i].edges ==> e.index < |nodes| && Reachable(nodes, e.index)
  {
    var p :| IsPath(nodes, p) && p[|p| - 1] == i;
    forall e | e in nodes[i].edges
      ensures e.index < |nodes| && Reachable(nodes, e.index)
    {
      var q := p + [e.index];
      assert IsPath(nodes, q);
    }
  }

  /** The number of nodes not yet visited. */
  function CountFalse(v: seq<bool>): (n: nat) {
    if v == [] then 0 else (if v[0] then 0 else 1) + CountFalse(v[1..])
  }

  lemma {:induction false} CountFalseMark(v: seq<bool>, i: nat)
    requires i < |v| && !v[i]
    ensures CountFalse(v[i := true]) == CountFalse(v) - 1
  {
    if i == 0 {
      assert v[i := true][1..] == v[1..];
    } else {
      CountFalseMark(v[1..], i - 1);
      assert v[i := true][1..] == v[1..][i - 1 := true];
    }
  }

  /** Every queued reference is in bounds and reachable from the root. */
  ghost predicate QueueOk(nodes: seq<Node>, queue: seq<NodeRef>) {
    forall q :: q in queue ==> q.index < |nodes| && Reachable(nodes, q.index)
  }

  /** The nodes the walk expands, in order, from a queue and a visited
      marking: the front is popped; a visited node is skipped; otherwise it
      is marked, expanded, and its edge targets join the back of the queue.
      It terminates on cyclic graphs: each step either marks a node or
      shortens the queue. */
  ghost function Expand(nodes: seq<Node>, queue: seq<NodeRef>, visited: seq<bool>): (order: seq<NodeRef>)
    requires CanWalk(nodes) && |visited| == |nodes| && QueueOk(nodes, queue)
    ensures QueueOk(nodes, order)
    decreases CountFalse(visited), |queue|
  {
    if queue == [] then []
    else
      var n := queue[0];
      if visited[n.index] then Expand(nodes, queue[1..], visited)
      else
        EdgesReachable(nodes, n.index);
        CountFalseMark(visited, n.index);
        [n] + Expand(nodes, queue[1..] + nodes[n.index].edges, visited[n.index := true])
  }

  /** One step of the walk when the front of the queue is already visited. */
  lemma ExpandSkip(nodes: seq<Node>, queue: seq<NodeRef>, visited: seq<bool>)
    requires CanWalk(nodes) && |visited| == |nodes| && QueueOk(nodes, queue)
    requires queue != [] && visited[queue[0].index]
    ensures QueueOk(nodes, queue[1..])
    ensures Expand(nodes, queue, visited) == Expand(nodes, queue[1..], visited)
  {
  }

  /** One step of the walk when the front of the queue is not yet visited. */
  lemma ExpandVisit(nodes: seq<Node>, queue: seq<NodeRef>, visited: seq<bool>)
    requires CanWalk(nodes) && |visited| == |nodes| && QueueOk(nodes, queue)
    requires queue != [] && !visited[queue[0].index]
    ensures QueueOk(nodes, queue[1..] + nodes[queue[0].index].edges)
    ensures CountFalse(visited[queue[0].index := true]) < CountFalse(visited)
    ensures Expand(nodes, queue, visited)
      == [queue[0]] + Expand(nodes, queue[1..] + nodes[queue[0].index].edges, visited[queue[0].index := true])
  {
    EdgesReachable(nodes, queue[0].index);
    CountFalseMark(visited, queue[0].index);
  }

  /** Nothing visited yet. */
  function NoneVisited(count: nat): (v: seq<bool>)
    ensures |v| == count && forall i :: 0 <= i < count ==> !v[i]
  {
    if count == 0 then [] else NoneVisited(count - 1) + [false]
  }

  /** The expansion order of a whole walk: the root queued, nothing visited. */
  ghost function Order(nodes: seq<Node>): (order: seq<NodeRef>)
    requires CanWalk(nodes)
    ensures QueueOk(nodes, order)
  {
    RootReachable(nodes);
    Expand(nodes, [ROOT], NoneVisited(|nodes|))
  }

  ghost predicate Distinct(s: seq<NodeRef>) {
    forall k, l :: 0 <= k < l < |s| ==> s[k] != s[l]
  }

  ghost predicate Unvisited(s: seq<NodeRef>, visited: seq<bool>) {
    forall k :: 0 <= k < |s| ==> s[k].index < |visited| && !visited[s[k].index]
  }

  /** Only unvisited nodes are expanded, each at most once. */
  lemma {:induction false} ExpandFresh(nodes: seq<Node>, queue: seq<NodeRef>, visited: seq<bool>)
    requires CanWalk(nodes) && |visited| == |nodes| && QueueOk(nodes, queue)
    ensures Unvisited(Expand(nodes, queue, visited), visited)
    ensures Distinct(Expand(nodes, queue, visited))
    decreases CountFalse(visited), |queue|
  {
    if queue != [] {
      var n := queue[0];
      if visited[n.index] {
        ExpandFresh(nodes, queue[1..], visited);
      } else {
        EdgesReachable(nodes, n.index);
        CountFalseMark(visited, n.index);
        var visited' := visited[n.index := true];
        var rest := Expand(nodes, queue[1..] + nodes[n.index].edges, visited');
        ExpandFresh(nodes, queue[1..] + nodes[n.index].edges, visited');
        assert Expand(nodes, queue, visited) == [n] + rest;
        assert n !in rest by {
          forall k | 0 <= k < |rest| ensures rest[k] != n {
            assert !visited'[rest[k].index];
          }
        }
      }
    }
  }

  /** Nothing is lost: every queued node and every edge target of an
      expanded node ends up visited before or expanded by the walk. */
  lemma {:induction false} ExpandCovers(nodes: seq<Node>, queue: seq<NodeRef>, visited: seq<bool>)
    requires CanWalk(nodes) && |visited| == |nodes| && QueueOk(nodes, queue)
    ensures forall q :: q in queue ==> visited[q.index] || q in Expand(nodes, queue, visited)
    ensures forall x, e :: x in Expand(nodes, queue, visited) && e in nodes[x.index].edges ==>
      visited[e.index] || e in Expand(nodes, queue, visited)
    decreases CountFalse(visited), |queue|
  {
    if queue != [] {
      var n := queue[0];
      if visited[n.index] {
        ExpandCovers(nodes, queue[1..], visited);
      } else {
        EdgesReachable(nodes, n.index);
        CountFalseMark(visited, n.index);
        ExpandCovers(nodes, queue[1..] + nodes[n.index].edges, visited[n.index := true]);
      }
    }
  }

  /** A set of nodes that holds the root and is closed under edges holds the
      end of every path. */
  lemma {:induction false} PathEndsInClosed(nodes: seq<Node>, order: seq<NodeRef>, p: seq<nat>)
    requires IsPath(nodes, p)
    requires ROOT in order
    requires forall x, e :: x in order && x.index < |nodes| && e in nodes[x.index].edges ==> e in order
    ensures NodeRef(p[|p| - 1]) in order
    decreases |p|
  {
    if |p| > 1 {
      var q := p[..|p| - 1];
      assert IsPath(nodes, q);
      PathEndsInClosed(nodes, order, q);
    }
  }

  /** The walk starts at the root, expands no node twice, and expands
      exactly the nodes reachable from the root. */
  lemma OrderCorrect(nodes: seq<Node>)
    requires CanWalk(nodes)
    ensures |Order(nodes)| > 0 && Order(nodes)[0] == ROOT
    ensures Distinct(Order(nodes))
    ensures forall i: nat :: Reachable(nodes, i) <==> NodeRef(i) in Order(nodes)
  {
    RootReachable(nodes);
    var none := NoneVisited(|nodes|);
    var order := Order(nodes);
    ExpandFresh(nodes, [ROOT], none);
    ExpandCovers(nodes, [ROOT], none);
    assert order == [ROOT] + Expand(nodes, [ROOT][1..] + nodes[0].edges, none[0 := true]);
    forall x, e | x in order && x.index < |nodes| && e in nodes[x.index].edges
      ensures e in order
    {
      EdgesReachable(nodes, x.index);
    }
    forall i: nat | Reachable(nodes, i)
      ensures NodeRef(i) in order
    {
      var p :| IsPath(nodes, p) && p[|p| - 1] == i;
      PathEndsInClosed(nodes, order, p);
    }
  }

  /** The visitor calls made while expanding node `n`: one per edge, in
      edge-list order, each with the looked-up target; or one with None
      when the node has no edges. */
  function Emit(nodes: seq<Node>, n: NodeRef): (r: seq<Entry>)
    requires n.index < |nodes|
    ensures |r| == if nodes[n.index].edges == [] then 1 else |nodes[n.index].edges|
    ensures nodes[n.index].edges == [] ==> r[0].1 == None
    ensures IdsMatch(nodes) ==> forall k :: 0 <= k < |r| ==> r[k].0 == n
    ensures IdsMatch(nodes) ==> forall k :: 0 <= k < |nodes[n.index].edges| ==>
      var e := nodes[n.index].edges[k];
      r[k].1 == if e.index < |nodes| then Some(e) else None
  {
    var node := nodes[n.index];
    if |node.edges| > 0 then
      seq(|node.edges|, j requires 0 <= j < |node.edges| => (node.id, IdOf(Lookup(nodes, node.edges[j]))))
    else
      [(node.id, None)]
  }

  /** The visitor calls of a walk that expands `order`, block after block. */
  function TraceOf(nodes: seq<Node>, order: seq<NodeRef>): (trace: seq<Entry>)
    requires forall x :: x in order ==> x.index < |nodes|
  {
    if order == [] then []
    else TraceOf(nodes, order[..|order| - 1]) + Emit(nodes, order[|order| - 1])
  }

  lemma TraceOfSnoc(nodes: seq<Node>, order: seq<NodeRef>, n: NodeRef)
    requires forall x :: x in order ==> x.index < |nodes|
    requires n.index < |nodes|
    ensures TraceOf(nodes, order + [n]) == TraceOf(nodes, order) + Emit(nodes, n)
  {
    assert (order + [n])[..|order|] == order;
  }

  /** The visitor calls made for node `n`, in order. */
  function EntriesFrom(trace: seq<Entry>, n: NodeRef): (entries: seq<Entry>) {
    if trace == [] then []
    else EntriesFrom(trace[..|trace| - 1], n) + (if trace[|trace| - 1].0 == n then [trace[|trace| - 1]] else [])
  }

  lemma {:induction false} EntriesFromAppend(a: seq<Entry>, b: seq<Entry>, n: NodeRef)
    ensures EntriesFrom(a + b, n) == EntriesFrom(a, n) + EntriesFrom(b, n)
    decreases |b|
  {
    if b == [] {
      assert a + b == a;
    } else {
      var b' := b[..|b| - 1];
      assert (a + b)[..|a + b| - 1] == a + b';
      EntriesFromAppend(a, b', n);
    }
  }

  lemma {:induction false} EntriesFromUniform(s: seq<Entry>, m: NodeRef, n: NodeRef)
    requires forall k :: 0 <= k < |s| ==> s[k].0 == m
    ensures EntriesFrom(s, n) == if m == n then s else []
    decreases |s|
  {
    if s != [] {
      var init := s[..|s| - 1];
      EntriesFromUniform(init, m, n);
      assert s == init + [s[|s| - 1]];
    }
  }

  /** In the calls for a duplicate-free expansion order, the calls for `n`
      are exactly `n`'s block when `n` is expanded, and none otherwise. */
  lemma {:induction false} EntriesFromTrace(nodes: seq<Node>, order: seq<NodeRef>, n: NodeRef)
    requires IdsMatch(nodes)
    requires forall x :: x in order ==> x.index < |nodes|
    requires Distinct(order)
    ensures EntriesFrom(TraceOf(nodes, order), n) == if n in order then Emit(nodes, n) else []
    decreases |order|
  {
    if order != [] {
      var init, m := order[..|order| - 1], order[|order| - 1];
      assert order == init + [m];
      assert Distinct(init) by {
        forall k, l | 0 <= k < l < |init| ensures init[k] != init[l] {
          assert init[k] == order[k] && init[l] == order[l];
        }
      }
      var block := Emit(nodes, m);
      EntriesFromTrace(nodes, init, n);
      EntriesFromAppend(TraceOf(nodes, init), block, n);
      EntriesFromUniform(block, m, n);
      assert EntriesFrom(TraceOf(nodes, order), n)
        == EntriesFrom(TraceOf(nodes, init), n) + EntriesFrom(block, n);
      if n == m {
        assert n !in init by {
          forall k | 0 <= k < |init| ensures init[k] != n {
            assert order[k] != order[|order| - 1];
          }
        }
      } else {
        assert n in order <==> n in init;
      }
    }
  }

  /** The visitor calls of a whole walk, node by node: a reachable node's
      calls are its block, an unreachable node gets none. */
  lemma WalkEntries(nodes: seq<Node>, n: NodeRef)
    requires CanWalk(nodes) && IdsMatch(nodes)
    ensures Reachable(nodes, n.index) ==> n.index < |nodes| && EntriesFrom(TraceOf(nodes, Order(nodes)), n) == Emit(nodes, n)
    ensures !Reachable(nodes, n.index) ==> EntriesFrom(TraceOf(nodes, Order(nodes)), n) == []
  {
    OrderCorrect(nodes);
    EntriesFromTrace(nodes, Order(nodes), n);
  }

  /** One step of the walk that expands the front node of `queue`: the
      expansion order so far grows by that node and the trace by its block. */
  lemma WalkVisitStep(nodes: seq<Node>, order: seq<NodeRef>, queue: seq<NodeRef>, visited: seq<bool>,
                      trace: seq<Entry>, queue': seq<NodeRef>, trace': seq<Entry>)
    requires CanWalk(nodes) && |visited| == |nodes| && QueueOk(nodes, queue) && QueueOk(nodes, order)
    requires queue != [] && !visited[queue[0].index]
    requires order + Expand(nodes, queue, visited) == Order(nodes)
    requires trace == TraceOf(nodes, order)
    requires queue' == queue[1..] + nodes[queue[0].index].edges
    requires trace' == trace + Emit(nodes, queue[0])
    ensures QueueOk(nodes, queue') && QueueOk(nodes, order + [queue[0]])
    ensures CountFalse(visited[queue[0].index := true]) < CountFalse(visited)
    ensures (order + [queue[0]]) + Expand(nodes, queue', visited[queue[0].index := true]) == Order(nodes)
    ensures trace' == TraceOf(nodes, order + [queue[0]])
  {
    var n := queue[0];
    ExpandVisit(nodes, queue, visited);
    TraceOfSnoc(nodes, order, n);
    AppendAssoc(order, [n], Expand(nodes, queue', visited[n.index := true]));
  }

  /** What the walk's trace says, node by node, once it is the trace of the
      whole expansion order. */
  lemma WalkTraceEntries(nodes: seq<Node>, trace: seq<Entry>)
    requires CanWalk(nodes) && IdsMatch(nodes)
    requires trace == TraceOf(nodes, Order(nodes))
    ensures forall n: NodeRef :: n.index < |nodes| && Reachable(nodes, n.index) ==>
      EntriesFrom(trace, n) == Emit(nodes, n)
    ensures forall n: NodeRef :: !Reachable(nodes, n.index) ==> EntriesFrom(trace, n) == []
  {
    forall n: NodeRef
      ensures n.index < |nodes| && Reachable(nodes, n.index) ==> EntriesFrom(trace, n) == Emit(nodes, n)
      ensures !Reachable(nodes, n.index) ==> EntriesFrom(trace, n) == []
    {
      WalkEntries(nodes, n);
    }
  }

  /** Regrouping a concatenation of three sequences; a lemma of its own so
      that the fact is proved apart from the heavy context of the walk. */
  lemma AppendAssoc<T>(a: seq<T>, b: seq<T>, c: seq<T>)
    ensures (a + b) + c == a + (b + c)
  {
  }
}
