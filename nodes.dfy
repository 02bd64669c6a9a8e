/** Node references and nodes of the arena graph. */
module Nodes {
  import Decimal

  datatype Option<+T> = None | Some(value: T)

  /** A typed index into the graph's node storage. It is ordered by its
      index; no validity is implied by constructing one. */
  datatype NodeRef = NodeRef(index: nat)

  /** The traversal root is always the node at index 0. */
  const ROOT: NodeRef := NodeRef(0)

  /** A vertex: its own reference, a display label (`name`, since `label`
      is a Dafny keyword) and its ordered out-edges (duplicates and
      self-edges allowed). */
  datatype Node = Node(id: NodeRef, name: string, edges: seq<NodeRef>)

  /** The label a node receives on creation: ".L" followed by the decimal
      index without leading zeros; the index can be read back from it. */
  function Label(index: nat): (s: string)
    ensures |s| >= 3 && s[..2] == ".L"
    ensures Decimal.AllDigits(s[2..]) && Decimal.DecimalValue(s[2..]) == index
    ensures s[2] == '0' ==> s == ".L0"
  {
    Decimal.DecimalRoundTrip(index);
    var s := ".L" + Decimal.NatToDecimal(index);
    assert s[2..] == Decimal.NatToDecimal(index);
    s
  }

  /** Distinct nodes get distinct labels on creation. */
  lemma LabelInjective(i: nat, j: nat)
    ensures Label(i) == Label(j) ==> i == j
  {
    if Label(i) == Label(j) {
      assert Label(i)[2..] == Label(j)[2..];
    }
  }

  /** The graph invariant: every stored node's identity is its position. */
  ghost predicate IdsMatch(nodes: seq<Node>) {
    forall i :: 0 <= i < |nodes| ==> nodes[i].id == NodeRef(i)
  }

  /** Bounds-checked lookup of a reference in the node storage. */
  function Lookup(nodes: seq<Node>, id: NodeRef): (r: Option<Node>)
    ensures r.Some? <==> id.index < |nodes|
    ensures r.Some? ==> r.value == nodes[id.index]
    ensures IdsMatch(nodes) && r.Some? ==> r.value.id == id
  {
    if id.index < |nodes| then Some(nodes[id.index]) else None
  }

  /** The identity of a looked-up node, or None for an absent one. */
  function IdOf(n: Option<Node>): (r: Option<NodeRef>) {
    match n
    case None => None
    case Some(node) => Some(node.id)
  }
}
