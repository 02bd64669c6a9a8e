/** Breadth-first order: the walk expands nodes level by level, in order of
    their distance from the root. */
module Levels {
  import opened Nodes
  import opened Traversal

  /** `d` is the length (in edges) of a shortest path from the root to `i`. */
  ghost predicate IsDist(nodes: seq<Node>, i: nat, d: nat) {
    && (exists p :: IsPath(nodes, p) && p[|p| - 1] == i && |p| == d + 1)
    && (forall p :: IsPath(nodes, p) && p[|p| - 1] == i ==> d + 1 <= |p|)
  }

  /** Among the root paths to `i`, one is shortest. */
  lemma {:induction false} ShortestExists(nodes: seq<Node>, i: nat, p: seq<nat>)
    requires IsPath(nodes, p) && p[|p| - 1] == i
    ensures exists d :: IsDist(nodes, i, d)
    decreases |p|
  {
    if exists q :: IsPath(nodes, q) && q[|q| - 1] == i && |q| < |p| {
      var q :| IsPath(nodes, q) && q[|q| - 1] == i && |q| < |p|;
      ShortestExists(nodes, i, q);
    } else {
      assert IsDist(nodes, i, |p| - 1);
    }
  }

  /** The distance of a reachable node from the root; 0 for a node that
      cannot be reached. */
  ghost function Dist(nodes: seq<Node>, i: nat): (d: nat)
    ensures Reachable(nodes, i) ==> IsDist(nodes, i, d)
  {
    if Reachable(nodes, i) then
      var p :| IsPath(nodes, p) && p[|p| - 1] == i;
      ShortestExists(nodes, i, p);
      var d: nat :| IsDist(nodes, i, d);
      d
    else 0
  }

  /** The root is at distance 0, and it is the only node there. */
  lemma DistZero(nodes: seq<Node>, i: nat)
    requires |nodes| > 0 && Reachable(nodes, i)
    ensures Dist(nodes, i) == 0 <==> i == ROOT.index
  {
    if i == ROOT.index {
      assert IsPath(nodes, [ROOT.index]);
    }
  }

  /** Following one edge adds at most one to the distance. */
  lemma DistEdge(nodes: seq<Node>, i: nat, e: NodeRef)
    requires Reachable(nodes, i) && e in nodes[i].edges && e.index < |nodes|
    ensures Reachable(nodes, e.index) && Dist(nodes, e.index) <= Dist(nodes, i) + 1
  {
    var p :| IsPath(nodes, p) && p[|p| - 1] == i && |p| == Dist(nodes, i) + 1;
    var q := p + [e.index];
    assert IsPath(nodes, q);
  }

  /** A node away from the root has a predecessor one step closer. */
  lemma DistPred(nodes: seq<Node>, v: nat)
    requires Reachable(nodes, v) && Dist(nodes, v) > 0
    ensures exists u :: (0 <= u < |nodes| && Reachable(nodes, u) && NodeRef(v) in nodes[u].edges
      && Dist(nodes, u) + 1 == Dist(nodes, v))
  {
    var p :| IsPath(nodes, p) && p[|p| - 1] == v && |p| == Dist(nodes, v) + 1;
    var q := p[..|p| - 1];
    var u := q[|q| - 1];
    assert IsPath(nodes, q);
    assert NodeRef(v) in nodes[u].edges;
    DistEdge(nodes, u, NodeRef(v));
  }

  /** The walk's state, split at the level boundary: `cur` holds the queued
      entries of the level `l` being expanded, `next` those of level
      `l + 1` behind them. Every visited node is at most `l` away; every
      unvisited reachable node is at least `l` away, and is queued in `cur`
      when exactly `l` away; and a visited node of level `l` has queued in
      `next` each of its unvisited successors of level `l + 1`. */
  ghost predicate Frontier(nodes: seq<Node>, cur: seq<NodeRef>, next: seq<NodeRef>, visited: seq<bool>, l: nat) {
    && |visited| == |nodes|
    && (forall q :: q in cur ==> Dist(nodes, q.index) <= l)
    && (forall q :: q in next ==> Dist(nodes, q.index) <= l + 1)
    && (forall u :: 0 <= u < |visited| && visited[u] ==> Dist(nodes, u) <= l)
    && (forall v :: 0 <= v < |visited| && !visited[v] && Reachable(nodes, v) ==>
          l <= Dist(nodes, v) && (Dist(nodes, v) == l ==> NodeRef(v) in cur))
    && (forall u, e ::
          (&& 0 <= u < |visited| && visited[u] && Dist(nodes, u) == l && e in nodes[u].edges
           && e.index < |visited| && !visited[e.index] && Reachable(nodes, e.index)
           && Dist(nodes, e.index) == l + 1)
          ==> e in next)
  }

  /** The walk starts at level 0 with only the root queued and nothing
      visited. */
  lemma FrontierStart(nodes: seq<Node>, none: seq<bool>)
    requires CanWalk(nodes) && |none| == |nodes| && forall u :: 0 <= u < |none| ==> !none[u]
    ensures Frontier(nodes, [ROOT], [], none, 0)
  {
    RootReachable(nodes);
    DistZero(nodes, ROOT.index);
    forall v | 0 <= v < |none| && Reachable(nodes, v) && Dist(nodes, v) == 0
      ensures NodeRef(v) in [ROOT]
    {
      DistZero(nodes, v);
    }
  }

  /** When level `l` is used up, the entries of level `l + 1` become the
      current level. */
  lemma FrontierPromote(nodes: seq<Node>, next: seq<NodeRef>, visited: seq<bool>, l: nat)
    requires CanWalk(nodes) && |visited| == |nodes|
    requires Frontier(nodes, [], next, visited, l)
    ensures Frontier(nodes, next, [], visited, l + 1)
  {
    forall v | 0 <= v < |visited| && !visited[v] && Reachable(nodes, v)
      ensures l + 1 <= Dist(nodes, v) && (Dist(nodes, v) == l + 1 ==> NodeRef(v) in next)
    {
      if Dist(nodes, v) == l + 1 {
        DistPred(nodes, v);
        var u :| 0 <= u < |nodes| && Reachable(nodes, u) && NodeRef(v) in nodes[u].edges
          && Dist(nodes, u) + 1 == Dist(nodes, v);
        assert visited[u];
      }
    }
  }

  /** Dropping a visited entry of the current level keeps the frontier. */
  lemma FrontierSkip(nodes: seq<Node>, x: NodeRef, rest: seq<NodeRef>, next: seq<NodeRef>, visited: seq<bool>, l: nat)
    requires |visited| == |nodes| && x.index < |visited| && visited[x.index]
    requires Frontier(nodes, [x] + rest, next, visited, l)
    ensures Frontier(nodes, rest, next, visited, l)
  {
    forall v | 0 <= v < |visited| && !visited[v] && Reachable(nodes, v) && Dist(nodes, v) == l
      ensures NodeRef(v) in rest
    {
      assert NodeRef(v) in [x] + rest;
    }
  }

  /** Expanding an unvisited entry of the current level: the node is exactly
      `l` away, and its edges join level `l + 1`. */
  lemma FrontierVisit(nodes: seq<Node>, x: NodeRef, rest: seq<NodeRef>, next: seq<NodeRef>, visited: seq<bool>, l: nat)
    requires CanWalk(nodes) && |visited| == |nodes|
    requires x.index < |visited| && !visited[x.index] && Reachable(nodes, x.index)
    requires Frontier(nodes, [x] + rest, next, visited, l)
    ensures Dist(nodes, x.index) == l
    ensures Frontier(nodes, rest, next + nodes[x.index].edges, visited[x.index := true], l)
  {
    assert x in [x] + rest;
    var edges := nodes[x.index].edges;
    var visited' := visited[x.index := true];
    EdgesReachable(nodes, x.index);
    forall q | q in next + edges
      ensures Dist(nodes, q.index) <= l + 1
    {
      if q in edges {
        DistEdge(nodes, x.index, q);
      }
    }
    forall v | 0 <= v < |visited'| && !visited'[v] && Reachable(nodes, v) && Dist(nodes, v) == l
      ensures NodeRef(v) in rest
    {
      assert NodeRef(v) in [x] + rest;
    }
    forall u, e | 0 <= u < |visited'| && visited'[u] && Dist(nodes, u) == l && e in nodes[u].edges
        && e.index < |visited'| && !visited'[e.index] && Reachable(nodes, e.index)
        && Dist(nodes, e.index) == l + 1
      ensures e in next + edges
    {
      if u != x.index {
        assert e in next;
      }
    }
  }

  /** The nodes of `s` come in order of distance from the root. */
  ghost predicate ByDistance(nodes: seq<Node>, s: seq<NodeRef>) {
    forall k, j :: 0 <= k < j < |s| ==> Dist(nodes, s[k].index) <= Dist(nodes, s[j].index)
  }

  ghost predicate AtLeast(nodes: seq<Node>, s: seq<NodeRef>, l: nat) {
    forall k :: 0 <= k < |s| ==> l <= Dist(nodes, s[k].index)
  }

  /** A node of level `l` in front of nodes in distance order, none closer
      than `l`, keeps the order. */
  lemma ByDistanceCons(nodes: seq<Node>, x: NodeRef, tail: seq<NodeRef>, l: nat)
    requires Dist(nodes, x.index) == l && ByDistance(nodes, tail) && AtLeast(nodes, tail, l)
    ensures ByDistance(nodes, [x] + tail) && AtLeast(nodes, [x] + tail, l)
  {
    var s := [x] + tail;
    forall k, j | 0 <= k < j < |s|
      ensures Dist(nodes, s[k].index) <= Dist(nodes, s[j].index)
    {
      assert s[j] == tail[j - 1];
      if k > 0 {
        assert s[k] == tail[k - 1];
      }
    }
  }

  /** The expansion step with the queue split at the level boundary: the
      front of `cur` is expanded and its edges go behind `next`. */
  lemma ExpandVisitSplit(nodes: seq<Node>, cur: seq<NodeRef>, next: seq<NodeRef>, visited: seq<bool>)
    requires CanWalk(nodes) && |visited| == |nodes| && QueueOk(nodes, cur + next)
    requires cur != [] && !visited[cur[0].index]
    ensures QueueOk(nodes, cur[1..] + (next + nodes[cur[0].index].edges))
    ensures CountFalse(visited[cur[0].index := true]) < CountFalse(visited)
    ensures Expand(nodes, cur + next, visited) == [cur[0]]
      + Expand(nodes, cur[1..] + (next + nodes[cur[0].index].edges), visited[cur[0].index := true])
  {
    var queue := cur + next;
    assert queue[0] == cur[0] && queue[1..] == cur[1..] + next;
    ExpandVisit(nodes, queue, visited);
    assert queue[1..] + nodes[cur[0].index].edges == cur[1..] + (next + nodes[cur[0].index].edges);
  }

  /** From a state with the frontier invariant, the walk expands nodes in
      order of distance, none closer than the current level. */
  lemma {:induction false} ExpandByDistance(nodes: seq<Node>, cur: seq<NodeRef>, next: seq<NodeRef>, visited: seq<bool>, l: nat)
    requires CanWalk(nodes) && |visited| == |nodes| && QueueOk(nodes, cur + next)
    requires Frontier(nodes, cur, next, visited, l)
    ensures ByDistance(nodes, Expand(nodes, cur + next, visited))
    ensures AtLeast(nodes, Expand(nodes, cur + next, visited), l)
    decreases CountFalse(visited), |cur + next|, if cur == [] then 1 else 0
  {
    if cur == [] {
      if next != [] {
        assert [] + next == next + [];
        FrontierPromote(nodes, next, visited, l);
        ExpandByDistance(nodes, next, [], visited, l + 1);
      }
    } else {
      var x, rest := cur[0], cur[1..];
      var queue := cur + next;
      assert cur == [x] + rest;
      assert queue[0] == x && queue[1..] == rest + next;
      if visited[x.index] {
        FrontierSkip(nodes, x, rest, next, visited, l);
        ExpandSkip(nodes, queue, visited);
        ExpandByDistance(nodes, rest, next, visited, l);
      } else {
        var next', visited' := next + nodes[x.index].edges, visited[x.index := true];
        FrontierVisit(nodes, x, rest, next, visited, l);
        ExpandVisitSplit(nodes, cur, next, visited);
        ExpandByDistance(nodes, rest, next', visited', l);
        ByDistanceCons(nodes, x, Expand(nodes, rest + next', visited'), l);
      }
    }
  }

  /** The walk is breadth-first: it expands the nodes in order of their
      distance from the root. */
  lemma OrderByDistance(nodes: seq<Node>)
    requires CanWalk(nodes)
    ensures forall k, j :: 0 <= k < j < |Order(nodes)| ==>
      Dist(nodes, Order(nodes)[k].index) <= Dist(nodes, Order(nodes)[j].index)
  {
    RootReachable(nodes);
    FrontierStart(nodes, NoneVisited(|nodes|));
    assert [ROOT] + [] == [ROOT];
    ExpandByDistance(nodes, [ROOT], [], NoneVisited(|nodes|), 0);
  }
}
