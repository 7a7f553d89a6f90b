/**
 * A genome (src/classes/Net.ts) as an arena: the net owns its node and link
 * records, nodes name links and links name nodes by index. The node and link
 * methods that update a field in place (`Node.getLayer`, `Node.mutate`,
 * `Link.mutate`) are methods of the net that take the record's index.
 */
module Nets {
  import opened Wrappers
  import opened Nodes
  import opened Links
  import opened Layering
  import opened Innovation
  import opened Construction
  import opened Evaluation

  class Net {
    var nodes: seq<Node>
    var links: seq<Link>

    /** `new Net(options)`: absent node and link lists start empty. */
    constructor (nodes: Option<seq<Node>>, links: Option<seq<Link>>)
      ensures this.nodes == nodes.GetOr([]) && this.links == links.GetOr([])
    {
      this.nodes := nodes.GetOr([]);
      this.links := links.GetOr([]);
    }

    /**
     * `nodes[k].getLayer()`: returns the node's layer, first computing and storing
     * it when it is negative. Every other write stores some node's computed layer
     * in place of its unresolved one (`Memo`).
     */
    method GetLayer(k: nat, ghost rank: seq<nat>) returns (l: Layer)
      requires k < |nodes| && Ranked(nodes, links, rank)
      modifies this`nodes
      ensures Ranked(nodes, links, rank) && Memo(old(nodes), nodes, links, rank)
      ensures l == Resolved(old(nodes), links, rank, k)
      ensures old(nodes[k].layer.Unresolved()) ==> nodes[k].layer == l
      ensures !old(nodes[k].layer.Unresolved()) ==> nodes == old(nodes) && l == nodes[k].layer
      ensures forall j :: 0 <= j < |nodes| && rank[j] > rank[k] ==> nodes[j] == old(nodes[j])
      decreases rank[k]
    {
      if nodes[k].layer.Unresolved() {
        var m := NegInf;
        var i := 0;
        while i < |nodes[k].inbound|
          invariant |nodes| == |old(nodes)| && i <= |old(nodes[k]).inbound|
          invariant Ranked(nodes, links, rank) && Memo(old(nodes), nodes, links, rank)
          invariant nodes[k] == old(nodes[k])
          invariant forall j :: 0 <= j < |nodes| && rank[j] > rank[k] ==> nodes[j] == old(nodes[j])
          invariant m == SourceMax(old(nodes), links, rank, k, i)
        {
          ghost var before := nodes;
          var src := links[nodes[k].inbound[i]].src;
          assert src == SourceOf(old(nodes), links, rank, k, i);
          var s := GetLayer(src, rank);
          MemoResolved(old(nodes), before, links, rank, src);
          MemoTrans(old(nodes), before, nodes, links, rank);
          m := Max(m, s);
          i := i + 1;
        }
        l := Succ(m);
        ghost var before := nodes;
        nodes := nodes[k := nodes[k].(layer := l)];
        assert Memo(old(nodes), nodes, links, rank) by {
          forall j | 0 <= j < |nodes|
            ensures nodes[j] == old(nodes[j]) ||
              (old(nodes[j]).layer.Unresolved() && nodes[j] == old(nodes[j]).(layer := Resolved(old(nodes), links, rank, j)))
          {
            if j != k {
              assert nodes[j] == before[j];
            }
          }
        }
        MemoRanked(old(nodes), nodes, links, rank);
      } else {
        l := nodes[k].layer;
      }
    }

    /**
     * `initialize(inputs, outputs)`: appends the input and output nodes and the
     * full input-to-output link set, asking the registry for each link's
     * innovation id; returns the registry afterwards.
     */
    method Initialize(inputs: nat, outputs: nat, registry: seq<Key>) returns (reg: seq<Key>)
      modifies this
      ensures Built(nodes, links, old(nodes), old(links), inputs, outputs, reg)
      ensures reg == RegisterAll(registry, InitKeys(inputs, outputs))
    {
      ghost var a0 := Arena(nodes, links, registry);
      reg := registry;
      PushInputs(inputs, reg);
      var nodeId := inputs;
      ghost var start := Arena(nodes, links, reg);
      ghost var rows: seq<seq<real>> := [];
      var o := 0;
      while o < outputs
        invariant nodeId == inputs + o && o == |rows| <= outputs
        invariant RowsOfWidth(rows, inputs)
        invariant WeightsInRange(rows)
        invariant Arena(nodes, links, reg) == AddOutputs(start, inputs, rows)
      {
        ghost var prev := Arena(nodes, links, reg);
        ghost var row;
        reg, row := AddOutput(nodeId, inputs, reg);
        AddOutputsStep(start, inputs, rows, row, prev, nodeId);
        WeightsAppend(rows, row);
        rows := rows + [row];
        nodeId := nodeId + 1;
        o := o + 1;
      }
      assert |rows| == outputs;
      InitializeBuilds(old(nodes), old(links), registry, inputs, rows, nodes, links, reg);
    }

    /** The first loop of `initialize`: input nodes `0 .. inputs-1` at layer 0. */
    method PushInputs(inputs: nat, ghost reg: seq<Key>)
      modifies this`nodes
      ensures Arena(nodes, links, reg) == AddInputs(Arena(old(nodes), links, reg), inputs)
    {
      ghost var a0 := Arena(nodes, links, reg);
      var nodeId := 0;
      var i := 0;
      while i < inputs
        invariant nodeId == i <= inputs
        invariant Arena(nodes, links, reg) == AddInputs(a0, i)
      {
        nodes := nodes + [FreshNode(nodeId, Input, At(0))];
        nodeId := nodeId + 1;
        i := i + 1;
      }
    }

    /**
     * One turn of the outer loop of `initialize`: appends output node `nodeId`
     * and a link to it from each of the first `inputs` nodes, registering each
     * link's key; `row` holds the weights drawn.
     */
    method AddOutput(nodeId: nat, inputs: nat, reg0: seq<Key>) returns (reg: seq<Key>, ghost row: seq<real>)
      requires inputs <= |nodes|
      modifies this`nodes, this`links
      ensures |row| == inputs && RowInRange(row)
      ensures Arena(nodes, links, reg) == NewOutput(Arena(old(nodes), old(links), reg0), nodeId, row)
    {
      ghost var prev := Arena(nodes, links, reg0);
      reg := reg0;
      var m := |nodes|;
      nodes := nodes + [FreshNode(nodeId, Output, PosInf)];
      ghost var pushed := Arena(nodes, links, reg);
      row := [];
      var selectedInput := 0;
      while selectedInput < inputs
        invariant selectedInput == |row| <= inputs && |nodes| == m + 1
        invariant RowInRange(row)
        invariant Arena(nodes, links, reg) == ConnectRow(pushed, m, RowKeys(nodeId, |row|), row)
      {
        ghost var cur, before := Arena(nodes, links, reg), row;
        var draw: real :| 0.0 <= draw < 1.0;
        var weight := draw * 4.0 - 2.0;
        var entry := Register(reg, Key(selectedInput, nodeId));
        var li: nat := |links|;
        nodes := nodes[selectedInput := nodes[selectedInput].(outbound := nodes[selectedInput].outbound + [li])];
        nodes := nodes[m := nodes[m].(inbound := nodes[m].inbound + [li])];
        links := links + [Link(entry.id, selectedInput, m, true, weight)];
        reg := entry.links;
        row := row + [weight];
        assert Arena(nodes, links, reg) == Connect(cur, selectedInput, m, Key(selectedInput, nodeId), weight);
        assert row[..selectedInput] == before && row[selectedInput] == weight;
        ConnectRowStep(pushed, m, nodeId, row, selectedInput);
        selectedInput := selectedInput + 1;
      }
      assert pushed == prev.(nodes := prev.nodes + [FreshNode(nodeId, Output, PosInf)]);
      assert m == |prev.nodes| && |row| == inputs;
    }

    /**
     * `evaluate(inputs)`: writes input `i` into the value of node `i`, then asks
     * every output node, in node-list order, for its value. An input with no
     * node to take it stops the write-in with an error, after the earlier writes.
     */
    method Evaluate(inputs: seq<real>, getValue: (seq<Node>, seq<Link>, nat) -> Activation)
      returns (r: Result<seq<real>, EvalError>)
      modifies this`nodes
      ensures |inputs| <= |old(nodes)| ==>
        var written := WriteInputs(old(nodes), inputs);
        var act := Activate(written, links, OutputIndices(written), getValue);
        nodes == act.0 && r == Success(act.1)
      ensures |old(nodes)| < |inputs| ==>
        nodes == WriteInputs(old(nodes), inputs[..|old(nodes)|]) && r == Failure(NoNodeAt(|old(nodes)|))
    {
      var ok := WriteValues(inputs);
      if !ok {
        return Failure(NoNodeAt(|nodes|));
      }
      var out := ActivateOutputs(getValue);
      r := Success(out);
    }

    /** `inputs.forEach((n, i) => this.nodes[i].value = n)`; false when an input has no node. */
    method WriteValues(inputs: seq<real>) returns (ok: bool)
      modifies this`nodes
      ensures ok <==> |inputs| <= |old(nodes)|
      ensures ok ==> nodes == WriteInputs(old(nodes), inputs)
      ensures !ok ==> nodes == WriteInputs(old(nodes), inputs[..|old(nodes)|])
    {
      var i := 0;
      while i < |inputs|
        invariant i <= |inputs| && i <= |old(nodes)| && |nodes| == |old(nodes)|
        invariant nodes == WriteInputs(old(nodes), inputs[..i])
      {
        if i == |nodes| {
          return false;
        }
        assert inputs[..i + 1][..i] == inputs[..i];
        nodes := nodes[i := nodes[i].(value := inputs[i])];
        i := i + 1;
      }
      assert inputs[..i] == inputs;
      return true;
    }

    /** `this.nodes.filter(n => n.type == "output").map(n => n.getValue())`. */
    method ActivateOutputs(getValue: (seq<Node>, seq<Link>, nat) -> Activation) returns (out: seq<real>)
      modifies this`nodes
      ensures var act := Activate(old(nodes), links, OutputIndices(old(nodes)), getValue);
        nodes == act.0 && out == act.1
    {
      var arena := nodes;
      var todo := OutputIndices(arena);
      ghost var full := Activate(arena, links, todo, getValue);
      out := [];
      while todo != []
        invariant |arena| == |old(nodes)| && Within(todo, |arena|)
        invariant Activate(arena, links, todo, getValue).0 == full.0
        invariant out + Activate(arena, links, todo, getValue).1 == full.1
        decreases |todo|
      {
        var j := todo[0];
        var act := getValue(arena, links, j);
        ActivateFront(arena, links, todo, getValue);
        arena := arena[j := arena[j].(sum := act.sum, value := act.value)];
        out := out + [act.value];
        todo := todo[1..];
      }
      nodes := arena;
    }

    /** `nodes[k].mutate()`: only the bias moves, by a random amount in [-0.01, 0.01). */
    method MutateNode(k: nat)
      requires k < |nodes|
      modifies this`nodes
      ensures |nodes| == |old(nodes)|
      ensures nodes == old(nodes)[k := nodes[k]]
      ensures nodes[k] == old(nodes[k]).(bias := nodes[k].bias)
      ensures old(nodes[k].bias) - 0.01 <= nodes[k].bias < old(nodes[k].bias) + 0.01
    {
      var draw: real :| 0.0 <= draw < 1.0;
      nodes := nodes[k := nodes[k].(bias := nodes[k].bias + draw * 0.02 - 0.01)];
    }

    /** `links[l].mutate()`: only the weight moves, by a random amount in [-0.01, 0.01). */
    method MutateLink(l: nat)
      requires l < |links|
      modifies this`links
      ensures |links| == |old(links)|
      ensures links == old(links)[l := links[l]]
      ensures links[l] == old(links[l]).(weight := links[l].weight)
      ensures old(links[l].weight) - 0.01 <= links[l].weight < old(links[l].weight) + 0.01
    {
      var draw: real :| 0.0 <= draw < 1.0;
      links := links[l := links[l].(weight := links[l].weight + draw * 0.02 - 0.01)];
    }
  }

  /**
   * In a net `initialize` built from nothing, `evaluate` asks exactly the nodes
   * `inputs .. inputs+outputs-1`, in that order, so it answers with one value
   * per output.
   */
  lemma BuiltOutputIndices(nodes: seq<Node>, links: seq<Link>, inputs: nat, outputs: nat, reg: seq<Key>)
    requires Built(nodes, links, [], [], inputs, outputs, reg)
    ensures OutputIndices(nodes) == Range(inputs, outputs)
  {
    assert InputsPlaced(nodes, 0, inputs) && OutputsPlaced(nodes, 0, 0, inputs, outputs);
    assert |nodes| == inputs + outputs;
    forall j | 0 <= j < inputs
      ensures nodes[j].kind != Output
    {
      assert nodes[0 + j] == FreshNode(j, Input, At(0)).(outbound := nodes[0 + j].outbound);
    }
    forall j | inputs <= j < |nodes|
      ensures nodes[j].kind == Output
    {
      var p := j - inputs;
      assert nodes[0 + inputs + p] == FreshNode(inputs + p, Output, PosInf).(inbound := Run(Slot(0, inputs, p, 0), inputs));
    }
    OutputIndicesSplit(nodes, inputs);
  }
}
