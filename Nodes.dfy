/**
 * Node genes (src/classes/Node.ts). In this model a genome is an arena: a node's
 * inbound and outbound connection lists hold indices into its net's link list.
 */
module Nodes {
  import opened Wrappers

  datatype NodeType = Input | Output | Hidden

  /**
   * A node's layer: a number that may be `-Infinity` (what `Math.max()` of no
   * arguments yields), an integer, or `Infinity`, the output layer's sentinel.
   */
  datatype Layer = NegInf | At(depth: int) | PosInf {

    /** `layer < 0`: the layer still has to be computed. */
    predicate Unresolved() {
      NegInf? || (At? && depth < 0)
    }
  }

  /** `a <= b` on layers. */
  predicate AtMost(a: Layer, b: Layer) {
    match (a, b)
    case (NegInf, _) => true
    case (_, PosInf) => true
    case (At(x), At(y)) => x <= y
    case _ => false
  }

  /** `a < b` on layers. */
  predicate Below(a: Layer, b: Layer) {
    AtMost(a, b) && a != b
  }

  /** `Math.max(a, b)` on layers. */
  function Max(a: Layer, b: Layer): (m: Layer)
    ensures AtMost(a, m) && AtMost(b, m)
    ensures m == a || m == b
  {
    if AtMost(a, b) then b else a
  }

  /** `layer + 1`; both infinities absorb the increment. */
  function Succ(a: Layer): (s: Layer)
    ensures s.At? <==> a.At?
  {
    match a
    case At(d) => At(d + 1)
    case _ => a
  }

  /** A finite successor of an upper bound lies strictly above everything under that bound. */
  lemma SuccAbove(x: Layer, m: Layer)
    requires AtMost(x, m) && Succ(m).At?
    ensures Below(x, Succ(m))
  {
  }

  datatype Node = Node(
    id: nat,
    sum: real,
    kind: NodeType,
    layer: Layer,
    value: real,
    bias: real,
    inbound: seq<nat>,
    outbound: seq<nat>)

  /** The optional fields of `NodeOptions`; `layer` is taken as always given. */
  datatype NodeOptions = NodeOptions(
    id: nat,
    kind: NodeType,
    layer: Layer,
    inbound: Option<seq<nat>>,
    outbound: Option<seq<nat>>,
    sum: Option<real>,
    value: Option<real>,
    bias: Option<real>)

  /** The `Node` constructor: absent numbers default to 0, absent connection lists to empty. */
  function NewNode(o: NodeOptions): (n: Node)
    ensures n.id == o.id && n.kind == o.kind && n.layer == o.layer
    ensures o.sum.None? ==> n.sum == 0.0
    ensures o.value.None? ==> n.value == 0.0
    ensures o.bias.None? ==> n.bias == 0.0
    ensures o.inbound.None? ==> n.inbound == []
    ensures o.outbound.None? ==> n.outbound == []
    ensures o.sum.Some? ==> n.sum == o.sum.value
    ensures o.value.Some? ==> n.value == o.value.value
    ensures o.bias.Some? ==> n.bias == o.bias.value
    ensures o.inbound.Some? ==> n.inbound == o.inbound.value
    ensures o.outbound.Some? ==> n.outbound == o.outbound.value
  {
    Node(o.id, o.sum.GetOr(0.0), o.kind, o.layer, o.value.GetOr(0.0), o.bias.GetOr(0.0),
         o.inbound.GetOr([]), o.outbound.GetOr([]))
  }

  /** `shallowClone`: the same node with no connections. */
  function ShallowClone(n: Node): (c: Node)
    ensures c == n.(inbound := [], outbound := [])
  {
    NewNode(NodeOptions(n.id, n.kind, n.layer, None, None, Some(n.sum), Some(n.value), Some(n.bias)))
  }

  /** A new node as `Net.initialize` creates it: only id, type and layer given. */
  function FreshNode(id: nat, kind: NodeType, layer: Layer): Node {
    Node(id, 0.0, kind, layer, 0.0, 0.0, [], [])
  }

  /** `FreshNode` is the `Node` constructor called with only id, type and layer. */
  lemma FreshNodeIsNewNode(id: nat, kind: NodeType, layer: Layer)
    ensures FreshNode(id, kind, layer) == NewNode(NodeOptions(id, kind, layer, None, None, None, None, None))
  {
  }
}
