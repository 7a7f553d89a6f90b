/**
 * What `Net.evaluate` (src/classes/Net.ts) does to a net's node records, as
 * values: the input values are written into the first nodes, then every
 * output node, in node-list order, is asked for its value.
 */
module Evaluation {
  import opened Nodes
  import opened Links
  import Innovation

  /** `inputs.forEach((n, i) => nodes[i].value = n)` for as many inputs as there are nodes. */
  function WriteInputs(nodes: seq<Node>, inputs: seq<real>): (r: seq<Node>)
    requires |inputs| <= |nodes|
    ensures |r| == |nodes|
    ensures forall j :: 0 <= j < |inputs| ==> r[j] == nodes[j].(value := inputs[j])
    ensures forall j :: |inputs| <= j < |nodes| ==> r[j] == nodes[j]
    decreases |inputs|
  {
    if inputs == [] then nodes
    else
      var k := |inputs| - 1;
      var w := WriteInputs(nodes, inputs[..k]);
      w[k := w[k].(value := inputs[k])]
  }

  /** The positions of the output nodes, in node-list order (`nodes.filter(n => n.type == "output")`). */
  function OutputIndices(nodes: seq<Node>): (r: seq<nat>)
    ensures forall t :: 0 <= t < |r| ==> r[t] < |nodes| && nodes[r[t]].kind == Output
    ensures forall t, u :: 0 <= t < u < |r| ==> r[t] < r[u]
    ensures forall j :: 0 <= j < |nodes| && nodes[j].kind == Output ==> j in r
    decreases |nodes|
  {
    if nodes == [] then []
    else
      var k := |nodes| - 1;
      var front := OutputIndices(nodes[..k]);
      assert forall t :: 0 <= t < |front| ==> nodes[front[t]] == nodes[..k][front[t]];
      if nodes[k].kind == Output then front + [k] else front
  }

  /** Which nodes are outputs depends on the node kinds alone. */
  lemma {:induction false} OutputIndicesByKind(nodes: seq<Node>, other: seq<Node>)
    requires |other| == |nodes| && forall j :: 0 <= j < |nodes| ==> other[j].kind == nodes[j].kind
    ensures OutputIndices(other) == OutputIndices(nodes)
    decreases |nodes|
  {
    if nodes != [] {
      var k := |nodes| - 1;
      OutputIndicesByKind(nodes[..k], other[..k]);
    }
  }

  /** The positions `base .. base+count-1`, in order. */
  function Range(base: nat, count: nat): (r: seq<nat>)
    ensures |r| == count && forall t :: 0 <= t < count ==> r[t] == base + t
  {
    if count == 0 then [] else Range(base, count - 1) + [base + count - 1]
  }

  /** When nodes `0 .. a-1` are not outputs and the rest are, the outputs are `a ..` on. */
  lemma {:induction false} OutputIndicesSplit(nodes: seq<Node>, a: nat)
    requires a <= |nodes|
    requires forall j :: 0 <= j < a ==> nodes[j].kind != Output
    requires forall j :: a <= j < |nodes| ==> nodes[j].kind == Output
    ensures OutputIndices(nodes) == Range(a, |nodes| - a)
    decreases |nodes|
  {
    if |nodes| > 0 {
      var k := |nodes| - 1;
      if k >= a {
        assert OutputIndices(nodes[..k]) == Range(a, k - a) by {
          OutputIndicesSplit(nodes[..k], a);
        }
        OutputIndicesLast(nodes);
      } else {
        OutputIndicesNone(nodes);
      }
    }
  }

  /** One step of `OutputIndices`: the last node's position follows the front's when it is an output. */
  lemma OutputIndicesLast(nodes: seq<Node>)
    requires nodes != []
    ensures var k := |nodes| - 1;
      OutputIndices(nodes) == OutputIndices(nodes[..k]) + (if nodes[k].kind == Output then [k] else [])
  {
  }

  /** Nodes none of which is an output have no output positions. */
  lemma {:induction false} OutputIndicesNone(nodes: seq<Node>)
    requires forall j :: 0 <= j < |nodes| ==> nodes[j].kind != Output
    ensures OutputIndices(nodes) == []
    decreases |nodes|
  {
    if nodes != [] {
      OutputIndicesNone(nodes[..|nodes| - 1]);
    }
  }

  /** What `node.getValue()` leaves in the node and returns: the stored sum and the value. */
  datatype Activation = Activation(sum: real, value: real)

  /**
   * `.map(n => n.getValue())` over the nodes at `idx`, in order: each call stores
   * its sum and value in its node before the next one runs. `getValue` gives
   * the outcome for node `j` of the arena as it is at that moment.
   */
  function Activate(nodes: seq<Node>, links: seq<Link>, idx: seq<nat>,
                    getValue: (seq<Node>, seq<Link>, nat) -> Activation): (r: (seq<Node>, seq<real>))
    requires Within(idx, |nodes|)
    ensures |r.0| == |nodes| && |r.1| == |idx|
    decreases |idx|
  {
    if idx == [] then (nodes, [])
    else
      var j := idx[0];
      var act := getValue(nodes, links, j);
      var rest := Activate(nodes[j := nodes[j].(sum := act.sum, value := act.value)], links, idx[1..], getValue);
      (rest.0, [act.value] + rest.1)
  }

  /**
   * Asking nodes for their values changes only their sum and value, and only
   * at the positions asked.
   */
  lemma {:induction false} ActivateChanges(nodes: seq<Node>, links: seq<Link>, idx: seq<nat>,
                                           getValue: (seq<Node>, seq<Link>, nat) -> Activation)
    requires Within(idx, |nodes|)
    ensures var r := Activate(nodes, links, idx, getValue);
      (forall j :: 0 <= j < |nodes| ==> r.0[j] == nodes[j].(sum := r.0[j].sum, value := r.0[j].value)) &&
      (forall j :: 0 <= j < |nodes| && j !in idx ==> r.0[j] == nodes[j])
    decreases |idx|
  {
    if idx != [] {
      var j := idx[0];
      var act := getValue(nodes, links, j);
      var next := nodes[j := nodes[j].(sum := act.sum, value := act.value)];
      ActivateChanges(next, links, idx[1..], getValue);
      assert forall i :: i in idx[1..] ==> i in idx;
    }
  }

  /**
   * When no node is asked twice, every value the map returns is the value
   * left stored in the node it came from.
   */
  lemma {:induction false} ActivateStores(nodes: seq<Node>, links: seq<Link>, idx: seq<nat>,
                                          getValue: (seq<Node>, seq<Link>, nat) -> Activation)
    requires Within(idx, |nodes|) && Innovation.Distinct(idx)
    ensures var r := Activate(nodes, links, idx, getValue);
      forall t :: 0 <= t < |idx| ==> r.1[t] == r.0[idx[t]].value
    decreases |idx|
  {
    if idx != [] {
      var j := idx[0];
      var act := getValue(nodes, links, j);
      var next := nodes[j := nodes[j].(sum := act.sum, value := act.value)];
      var rest := idx[1..];
      assert Innovation.Distinct(rest) by {
        assert forall a :: 0 <= a < |rest| ==> rest[a] == idx[a + 1];
      }
      assert j !in rest by {
        assert forall a :: 0 <= a < |rest| ==> rest[a] == idx[a + 1];
      }
      ActivateStores(next, links, rest, getValue);
      ActivateChanges(next, links, rest, getValue);
    }
  }

  /** Every position in `idx` names one of `count` nodes. */
  predicate Within(idx: seq<nat>, count: nat)
  {
    forall t :: 0 <= t < |idx| ==> idx[t] < count
  }

  /** One step of `Activate`: the first node is asked, its outcome stored, then the rest follow. */
  lemma ActivateFront(nodes: seq<Node>, links: seq<Link>, idx: seq<nat>,
                      getValue: (seq<Node>, seq<Link>, nat) -> Activation)
    requires Within(idx, |nodes|) && idx != []
    ensures Within(idx[1..], |nodes|)
    ensures var j := idx[0];
      var act := getValue(nodes, links, j);
      var rest := Activate(nodes[j := nodes[j].(sum := act.sum, value := act.value)], links, idx[1..], getValue);
      Activate(nodes, links, idx, getValue) == (rest.0, [act.value] + rest.1)
  {
  }

  /** `nodes[i].value = n` with no node at `i`: a TypeError, raised after the earlier writes. */
  datatype EvalError = NoNodeAt(index: nat)
}
