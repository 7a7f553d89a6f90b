/**
 * What `Net.initialize` (src/classes/Net.ts) builds, as values: the node list,
 * the link list and the innovation registry together form an `Arena`, and the
 * build is a fold of one `Connect` step per link. `Built` states the shape the
 * fold leaves behind, and `BuildIsBuilt` proves that it does.
 */
module Construction {
  import opened Nodes
  import opened Links
  import opened Innovation

  /** The keys one output node `nodeId` registers, for its first `count` inputs. */
  function RowKeys(nodeId: nat, count: nat): (r: seq<Key>)
    ensures |r| == count
  {
    if count == 0 then [] else RowKeys(nodeId, count - 1) + [Key(count - 1, nodeId)]
  }

  /** Key `i` of a row is the key of the link from input position `i`. */
  lemma {:induction false} RowKeysAt(nodeId: nat, count: nat, i: nat)
    requires i < count
    ensures RowKeys(nodeId, count)[i] == Key(i, nodeId)
  {
    if i < count - 1 {
      RowKeysAt(nodeId, count - 1, i);
    }
  }

  /** Every key `initialize(inputs, outputs)` registers, in the order it registers them. */
  function InitKeys(inputs: nat, outputs: nat): (r: seq<Key>)
    ensures |r| == Offset(inputs, outputs)
  {
    if outputs == 0 then [] else InitKeys(inputs, outputs - 1) + RowKeys(inputs + outputs - 1, inputs)
  }

  /** `o * inputs`, the number of links the first `o` outputs receive, by repeated addition. */
  function Offset(inputs: nat, o: nat): nat {
    if o == 0 then 0 else Offset(inputs, o - 1) + inputs
  }

  lemma {:induction false} OffsetIsProduct(inputs: nat, o: nat)
    ensures Offset(inputs, o) == o * inputs
  {
    if o > 0 {
      OffsetIsProduct(inputs, o - 1);
      assert o * inputs == (o - 1) * inputs + inputs;
    }
  }

  /** Position of the link from input position `i` to the `o`-th new output, after `base` older links. */
  function Slot(base: nat, inputs: nat, o: nat, i: nat): nat {
    base + Offset(inputs, o) + i
  }

  /** The links input position `j` gains towards the first `count` new outputs. */
  function OutRow(base: nat, inputs: nat, count: nat, j: nat): (r: seq<nat>)
    ensures |r| == count && forall o :: 0 <= o < count ==> r[o] == Slot(base, inputs, o, j)
  {
    if count == 0 then [] else OutRow(base, inputs, count - 1, j) + [Slot(base, inputs, count - 1, j)]
  }

  /** The `count` consecutive link positions from `base` on. */
  function Run(base: nat, count: nat): (r: seq<nat>)
    ensures |r| == count && forall i :: 0 <= i < count ==> r[i] == base + i
  {
    if count == 0 then [] else Run(base, count - 1) + [base + count - 1]
  }

  /** Outbound links node `j` had before (none if it is new). */
  function OldOutbound(old_nodes: seq<Node>, j: nat): seq<nat> {
    if j < |old_nodes| then old_nodes[j].outbound else []
  }

  /**
   * The link from input position `i` to the `o`-th new output: enabled, with a
   * weight in [-2, 2), and the registry id of its key as innovation.
   */
  predicate IsInitLink(lk: Link, reg: seq<Key>, n0: nat, inputs: nat, o: nat, i: nat) {
    && lk.src == i && lk.dst == n0 + inputs + o && lk.enabled
    && -2.0 <= lk.weight < 2.0
    && lk.innovation == IndexOf(reg, Key(i, inputs + o))
  }

  /**
   * The arena `initialize(inputs, outputs)` leaves behind, starting from
   * `old_nodes` and `old_links`: `inputs` input nodes at layer 0 and `outputs`
   * output nodes at layer `Infinity`, numbered from 0, and one enabled link per
   * (input position, output) pair, entered in the links list, in the outbound
   * list of the node at that input position and in the output's inbound list.
   */
  predicate Built(nodes: seq<Node>, links: seq<Link>, old_nodes: seq<Node>, old_links: seq<Link>,
                  inputs: nat, outputs: nat, reg: seq<Key>)
  {
    && BuiltSizes(nodes, links, old_nodes, old_links, inputs, outputs)
    && BuiltNodes(nodes, old_nodes, |old_links|, inputs, outputs)
    && BuiltOutbound(nodes, old_nodes, |old_links|, inputs, outputs)
    && BuiltLinks(links, |old_nodes|, |old_links|, inputs, outputs, reg)
  }

  /** Sizes: `inputs + outputs` new nodes, `outputs * inputs` new links after the old ones. */
  predicate BuiltSizes(nodes: seq<Node>, links: seq<Link>, old_nodes: seq<Node>, old_links: seq<Link>,
                       inputs: nat, outputs: nat)
  {
    && |nodes| == |old_nodes| + inputs + outputs
    && |links| == |old_links| + Offset(inputs, outputs)
    && links[..|old_links|] == old_links
  }

  /**
   * Node records: old nodes keep all but their outbound lists, input `q` is
   * node `q` at layer 0, output `p` is node `inputs + p` at layer `Infinity`
   * with its row of inbound links and no outbound ones.
   */
  predicate BuiltNodes(nodes: seq<Node>, old_nodes: seq<Node>, l0: nat, inputs: nat, outputs: nat) {
    && OldNodesKept(nodes, old_nodes)
    && InputsPlaced(nodes, |old_nodes|, inputs)
    && OutputsPlaced(nodes, |old_nodes|, l0, inputs, outputs)
  }

  predicate OldNodesKept(nodes: seq<Node>, old_nodes: seq<Node>) {
    && |old_nodes| <= |nodes|
    && forall j :: 0 <= j < |old_nodes| ==> nodes[j] == old_nodes[j].(outbound := nodes[j].outbound)
  }

  predicate InputsPlaced(nodes: seq<Node>, n0: nat, inputs: nat) {
    && n0 + inputs <= |nodes|
    && forall q :: 0 <= q < inputs ==> nodes[n0 + q] == FreshNode(q, Input, At(0)).(outbound := nodes[n0 + q].outbound)
  }

  predicate OutputsPlaced(nodes: seq<Node>, n0: nat, l0: nat, inputs: nat, outputs: nat) {
    && n0 + inputs + outputs <= |nodes|
    && forall p :: 0 <= p < outputs ==>
         nodes[n0 + inputs + p] == FreshNode(inputs + p, Output, PosInf).(inbound := Run(Slot(l0, inputs, p, 0), inputs))
  }

  /** Outbound lists: the node at input position `j` gains one link per output, in order. */
  predicate BuiltOutbound(nodes: seq<Node>, old_nodes: seq<Node>, l0: nat, inputs: nat, outputs: nat) {
    forall j :: 0 <= j < |nodes| ==>
      nodes[j].outbound == OldOutbound(old_nodes, j) + (if j < inputs then OutRow(l0, inputs, outputs, j) else [])
  }

  /** Links: the one from input position `q` to output `p` sits at `Slot(l0, inputs, p, q)`. */
  predicate BuiltLinks(links: seq<Link>, n0: nat, l0: nat, inputs: nat, outputs: nat, reg: seq<Key>) {
    forall p, q :: 0 <= p < outputs && 0 <= q < inputs ==>
      Slot(l0, inputs, p, q) < |links| && IsInitLink(links[Slot(l0, inputs, p, q)], reg, n0, inputs, p, q)
  }

  /** The state `initialize` works on: the net's nodes and links and the innovation registry. */
  datatype Arena = Arena(nodes: seq<Node>, links: seq<Link>, reg: seq<Key>)

  /**
   * One turn of the inner loop: the link from node `src` to node `dst`, with the
   * registry's id for `key`, is pushed onto `src`'s outbound list, `dst`'s
   * inbound list and the link list. The new link's innovation number is the
   * first index at which the registry now holds `key`.
   */
  function Connect(a: Arena, src: nat, dst: nat, key: Key, weight: real): (r: Arena)
    requires src < |a.nodes| && dst < |a.nodes|
    ensures |r.links| == |a.links| + 1
    ensures var id := r.links[|a.links|].innovation; id < |r.reg| && r.reg[id] == key && key !in r.reg[..id]
  {
    var entry := Register(a.reg, key);
    var li := |a.links|;
    var ns := a.nodes[src := a.nodes[src].(outbound := a.nodes[src].outbound + [li])];
    Arena(ns[dst := ns[dst].(inbound := ns[dst].inbound + [li])],
          a.links + [Link(entry.id, src, dst, true, weight)], entry.links)
  }

  /**
   * The inner loop: links from input positions `0 .. |row|-1` to node `dst`,
   * registered under `keys` and weighted by `row`.
   */
  function ConnectRow(a: Arena, dst: nat, keys: seq<Key>, row: seq<real>): (r: Arena)
    requires |keys| == |row| <= dst < |a.nodes|
    ensures |r.nodes| == |a.nodes|
  {
    if row == [] then a
    else
      var k := |row| - 1;
      Connect(ConnectRow(a, dst, keys[..k], row[..k]), k, dst, keys[k], row[k])
  }

  lemma ConnectRowLast(a: Arena, dst: nat, keys: seq<Key>, row: seq<real>, k: nat)
    requires |keys| == |row| <= dst < |a.nodes| && k + 1 == |row|
    ensures ConnectRow(a, dst, keys, row) == Connect(ConnectRow(a, dst, keys[..k], row[..k]), k, dst, keys[k], row[k])
  {
  }

  /** The inner loop's invariant, carried over one more turn. */
  lemma ConnectRowStep(a: Arena, dst: nat, nodeId: nat, row: seq<real>, k: nat)
    requires |row| <= dst < |a.nodes| && k + 1 == |row|
    ensures ConnectRow(a, dst, RowKeys(nodeId, k + 1), row)
         == Connect(ConnectRow(a, dst, RowKeys(nodeId, k), row[..k]), k, dst, Key(k, nodeId), row[k])
  {
    assert RowKeys(nodeId, k + 1)[..k] == RowKeys(nodeId, k);
    ConnectRowLast(a, dst, RowKeys(nodeId, k + 1), row, k);
  }

  /** The first loop of `initialize`: `count` input nodes numbered from 0, at layer 0. */
  function AddInputs(a: Arena, count: nat): (r: Arena)
    ensures |r.nodes| == |a.nodes| + count && r.links == a.links && r.reg == a.reg
    ensures r.nodes[..|a.nodes|] == a.nodes
    ensures forall q :: 0 <= q < count ==> r.nodes[|a.nodes| + q] == FreshNode(q, Input, At(0))
  {
    if count == 0 then a
    else
      var p := AddInputs(a, count - 1);
      p.(nodes := p.nodes + [FreshNode(count - 1, Input, At(0))])
  }

  /** One turn of the outer loop: output node `nodeId` at layer `Infinity`, then its links. */
  function NewOutput(a: Arena, nodeId: nat, row: seq<real>): (r: Arena)
    requires |row| <= |a.nodes|
    ensures |r.nodes| == |a.nodes| + 1
  {
    ConnectRow(a.(nodes := a.nodes + [FreshNode(nodeId, Output, PosInf)]), |a.nodes|, RowKeys(nodeId, |row|), row)
  }

  /** One row of `inputs` weights per output. */
  predicate RowsOfWidth(rows: seq<seq<real>>, inputs: nat) {
    forall k :: 0 <= k < |rows| ==> |rows[k]| == inputs
  }

  /** The outer loop: one output per row of weights, numbered on from `inputs`. */
  function AddOutputs(a: Arena, inputs: nat, rows: seq<seq<real>>): (r: Arena)
    requires inputs <= |a.nodes|
    requires RowsOfWidth(rows, inputs)
    ensures |r.nodes| == |a.nodes| + |rows|
  {
    if rows == [] then a
    else
      var k := |rows| - 1;
      NewOutput(AddOutputs(a, inputs, rows[..k]), inputs + k, rows[k])
  }

  lemma AddOutputsLast(a: Arena, inputs: nat, rows: seq<seq<real>>, k: nat)
    requires inputs <= |a.nodes| && k + 1 == |rows|
    requires RowsOfWidth(rows, inputs)
    ensures AddOutputs(a, inputs, rows) == NewOutput(AddOutputs(a, inputs, rows[..k]), inputs + k, rows[k])
  {
  }

  /** The outer loop's invariant, carried over one more turn. */
  lemma AddOutputsStep(a: Arena, inputs: nat, rows: seq<seq<real>>, row: seq<real>, prev: Arena, nodeId: nat)
    requires inputs <= |a.nodes| && |row| == inputs
    requires RowsOfWidth(rows, inputs)
    requires prev == AddOutputs(a, inputs, rows) && nodeId == inputs + |rows|
    ensures RowsOfWidth(rows + [row], inputs)
    ensures AddOutputs(a, inputs, rows + [row]) == NewOutput(prev, nodeId, row)
  {
    var more := rows + [row];
    assert RowsOfWidth(more, inputs) by {
      assert forall k :: 0 <= k < |rows| ==> more[k] == rows[k];
    }
    SnocFront(rows, row);
    AddOutputsLast(a, inputs, more, |rows|);
    AddOutputsSame(a, inputs, more[..|rows|], rows);
  }

  lemma AddOutputsSame(a: Arena, inputs: nat, x: seq<seq<real>>, y: seq<seq<real>>)
    requires inputs <= |a.nodes| && RowsOfWidth(x, inputs) && x == y
    ensures RowsOfWidth(y, inputs) && AddOutputs(a, inputs, x) == AddOutputs(a, inputs, y)
  {
  }

  lemma SnocFront<T>(xs: seq<T>, x: T)
    ensures (xs + [x])[..|xs|] == xs && (xs + [x])[|xs|] == x
  {
  }

  /** Weights drawn in range, one more row of them. */
  lemma WeightsAppend(rows: seq<seq<real>>, row: seq<real>)
    requires WeightsInRange(rows) && RowInRange(row)
    ensures WeightsInRange(rows + [row])
  {
    var more := rows + [row];
    assert forall k :: 0 <= k < |rows| ==> more[k] == rows[k];
  }

  /** Every weight `Math.random() * 4 - 2` can give. */
  predicate WeightsInRange(rows: seq<seq<real>>) {
    forall k :: 0 <= k < |rows| ==> RowInRange(rows[k])
  }

  /** Every weight of one row is one `Math.random() * 4 - 2` can give. */
  predicate RowInRange(row: seq<real>) {
    forall i :: 0 <= i < |row| ==> -2.0 <= row[i] < 2.0
  }

  /** The link the inner loop adds from input position `i` to node `dst`, under `key`. */
  predicate RowLink(lk: Link, reg: seq<Key>, dst: nat, key: Key, i: nat, weight: real) {
    && lk.src == i && lk.dst == dst && lk.enabled && lk.weight == weight
    && lk.innovation == IndexOf(reg, key)
  }

  /** The links at `b ..` are those the inner loop adds to `dst`, one per input position. */
  predicate RowLinks(links: seq<Link>, b: nat, reg: seq<Key>, dst: nat, keys: seq<Key>, row: seq<real>) {
    forall i :: 0 <= i < |row| ==>
      b + i < |links| && i < |keys| && RowLink(links[b + i], reg, dst, keys[i], i, row[i])
  }

  /** Every node but `src` and `dst` is left as it was. */
  predicate Untouched(before: seq<Node>, after: seq<Node>, src: nat, dst: nat) {
    |after| == |before| && forall j :: 0 <= j < |before| && j != src && j != dst ==> after[j] == before[j]
  }

  /** One `Connect` step between two distinct nodes, field by field. */
  lemma ConnectFacts(a: Arena, src: nat, dst: nat, key: Key, weight: real)
    requires src < |a.nodes| && dst < |a.nodes| && src != dst
    ensures var r, entry := Connect(a, src, dst, key, weight), Register(a.reg, key);
      && |r.nodes| == |a.nodes|
      && r.links == a.links + [Link(entry.id, src, dst, true, weight)]
      && r.reg == entry.links
      && r.nodes[src] == a.nodes[src].(outbound := a.nodes[src].outbound + [|a.links|])
      && r.nodes[dst] == a.nodes[dst].(inbound := a.nodes[dst].inbound + [|a.links|])
      && Untouched(a.nodes, r.nodes, src, dst)
  {
  }

  /**
   * `links` and `reg` are `links0` and `reg0` once the links from input
   * positions `0 .. |row|-1` to node `dst` have been registered under `keys`
   * and appended in order: each enabled, weighted by `row` and carrying the
   * registry id of its key; ids handed out before are left as they were.
   */
  predicate GrewLinks(links0: seq<Link>, reg0: seq<Key>, links: seq<Link>, reg: seq<Key>,
                      dst: nat, keys: seq<Key>, row: seq<real>)
  {
    && |keys| == |row|
    && |links| == |links0| + |row|
    && links[..|links0|] == links0
    && RowLinks(links, |links0|, reg, dst, keys, row)
    && reg == RegisterAll(reg0, keys)
    && KeepsIds(reg0, reg)
  }

  lemma GrewLinksStep(links0: seq<Link>, reg0: seq<Key>, links: seq<Link>, reg: seq<Key>,
                      dst: nat, keys: seq<Key>, row: seq<real>)
    requires |keys| == |row| > 0
    requires GrewLinks(links0, reg0, links, reg, dst, keys[..|row| - 1], row[..|row| - 1])
    ensures var k, entry := |row| - 1, Register(reg, keys[|row| - 1]);
      GrewLinks(links0, reg0, links + [Link(entry.id, k, dst, true, row[k])], entry.links, dst, keys, row)
  {
    var k, entry := |row| - 1, Register(reg, keys[|row| - 1]);
    var links' := links + [Link(entry.id, k, dst, true, row[k])];
    assert entry.links == RegisterAll(reg0, keys) by {
      FrontLast(keys);
      RegisterAllAppend(reg0, keys[..k], [keys[k]]);
    }
    assert KeepsIds(reg0, entry.links) by {
      RegisterKeepsIds(reg, keys[k]);
    }
    forall i | 0 <= i < |row|
      ensures RowLink(links'[|links0| + i], entry.links, dst, keys[i], i, row[i])
    {
      if i < k {
        assert links'[|links0| + i] == links[|links0| + i];
        assert keys[i] == keys[..k][i];
        assert keys[i] in reg;
        RegisterKeepsIds(reg, keys[k]);
      } else {
        RegisterIdIsIndexOf(reg, keys[k]);
      }
    }
  }

  /** The links and registry after the inner loop, as `GrewLinks` states them. */
  lemma {:induction false} ConnectRowLinks(a: Arena, dst: nat, keys: seq<Key>, row: seq<real>)
    requires |keys| == |row| <= dst < |a.nodes|
    ensures var r := ConnectRow(a, dst, keys, row); GrewLinks(a.links, a.reg, r.links, r.reg, dst, keys, row)
  {
    if row != [] {
      var k := |row| - 1;
      var p := ConnectRow(a, dst, keys[..k], row[..k]);
      ConnectRowLinks(a, dst, keys[..k], row[..k]);
      ConnectFacts(p, k, dst, keys[k], row[k]);
      GrewLinksStep(a.links, a.reg, p.links, p.reg, dst, keys, row);
    }
  }

  /**
   * `after` is `before` once `count` links, numbered from `b`, have been entered
   * from input positions `0 .. count-1` to node `dst`: each of those positions
   * gains one outbound link, `dst` gains all of them as inbound links, in order,
   * and nothing else changes.
   */
  predicate GrewRow(before: seq<Node>, after: seq<Node>, dst: nat, b: nat, count: nat) {
    && |after| == |before| && dst < |before|
    && (forall j :: 0 <= j < |before| && j != dst ==>
          after[j] == before[j].(outbound := before[j].outbound + (if j < count then [b + j] else [])))
    && after[dst] == before[dst].(inbound := before[dst].inbound + Run(b, count))
  }

  lemma GrewRowStep(before: seq<Node>, mid: seq<Node>, after: seq<Node>, dst: nat, b: nat, k: nat)
    requires GrewRow(before, mid, dst, b, k) && k < dst && |after| == |mid|
    requires after[k] == mid[k].(outbound := mid[k].outbound + [b + k])
    requires after[dst] == mid[dst].(inbound := mid[dst].inbound + [b + k])
    requires Untouched(mid, after, k, dst)
    ensures GrewRow(before, after, dst, b, k + 1)
  {
    forall j | 0 <= j < |before| && j != dst
      ensures after[j] == before[j].(outbound := before[j].outbound + (if j < k + 1 then [b + j] else []))
    {
      if j == k {
        assert before[j].outbound + [b + j] == (before[j].outbound + []) + [b + k];
      }
    }
    assert Run(b, k + 1) == Run(b, k) + [b + k];
  }

  /** The nodes after the inner loop, as `GrewRow` states them. */
  lemma {:induction false} ConnectRowNodes(a: Arena, dst: nat, keys: seq<Key>, row: seq<real>)
    requires |keys| == |row| <= dst < |a.nodes|
    ensures |ConnectRow(a, dst, keys, row).links| == |a.links| + |row|
    ensures GrewRow(a.nodes, ConnectRow(a, dst, keys, row).nodes, dst, |a.links|, |row|)
  {
    if row == [] {
      assert Run(|a.links|, 0) == [];
      assert forall j :: 0 <= j < |a.nodes| ==> a.nodes[j].outbound + [] == a.nodes[j].outbound;
    } else {
      var k := |row| - 1;
      var p := ConnectRow(a, dst, keys[..k], row[..k]);
      ConnectRowNodes(a, dst, keys[..k], row[..k]);
      ConnectRowLast(a, dst, keys, row, k);
      ConnectFacts(p, k, dst, keys[k], row[k]);
      GrewRowStep(a.nodes, p.nodes, ConnectRow(a, dst, keys, row).nodes, dst, |a.links|, k);
    }
  }

  /** Links to earlier outputs all sit before those of output `k`. */
  lemma {:induction false} SlotBelow(l0: nat, inputs: nat, p: nat, q: nat, k: nat)
    requires p < k && q < inputs
    ensures Slot(l0, inputs, p, q) < l0 + Offset(inputs, k)
  {
    if p < k - 1 {
      SlotBelow(l0, inputs, p, q, k - 1);
    }
  }

  /** The node records after one more turn of the outer loop. */
  lemma BuiltNodesStep(prev: seq<Node>, after: seq<Node>, old_nodes: seq<Node>, l0: nat, b: nat, inputs: nat, k: nat)
    requires |prev| == |old_nodes| + inputs + k && BuiltNodes(prev, old_nodes, l0, inputs, k)
    requires b == l0 + Offset(inputs, k)
    requires GrewRow(prev + [FreshNode(inputs + k, Output, PosInf)], after, |prev|, b, inputs)
    ensures BuiltNodes(after, old_nodes, l0, inputs, k + 1)
  {
    OldNodesStep(prev, after, old_nodes, b, inputs, FreshNode(inputs + k, Output, PosInf));
    InputsStep(prev, after, |old_nodes|, b, inputs, FreshNode(inputs + k, Output, PosInf));
    OutputsStep(prev, after, |old_nodes|, l0, b, inputs, k);
  }

  lemma OldNodesStep(prev: seq<Node>, after: seq<Node>, old_nodes: seq<Node>, b: nat, inputs: nat, added: Node)
    requires OldNodesKept(prev, old_nodes) && GrewRow(prev + [added], after, |prev|, b, inputs)
    ensures OldNodesKept(after, old_nodes)
  {
    var pushed := prev + [added];
    forall j | 0 <= j < |old_nodes|
      ensures after[j] == old_nodes[j].(outbound := after[j].outbound)
    {
      assert pushed[j] == prev[j];
    }
  }

  lemma InputsStep(prev: seq<Node>, after: seq<Node>, n0: nat, b: nat, inputs: nat, added: Node)
    requires InputsPlaced(prev, n0, inputs) && GrewRow(prev + [added], after, |prev|, b, inputs)
    ensures InputsPlaced(after, n0, inputs)
  {
    var pushed := prev + [added];
    forall q | 0 <= q < inputs
      ensures after[n0 + q] == FreshNode(q, Input, At(0)).(outbound := after[n0 + q].outbound)
    {
      assert pushed[n0 + q] == prev[n0 + q];
    }
  }

  lemma OutputsStep(prev: seq<Node>, after: seq<Node>, n0: nat, l0: nat, b: nat, inputs: nat, k: nat)
    requires |prev| == n0 + inputs + k && OutputsPlaced(prev, n0, l0, inputs, k)
    requires b == l0 + Offset(inputs, k)
    requires GrewRow(prev + [FreshNode(inputs + k, Output, PosInf)], after, |prev|, b, inputs)
    ensures OutputsPlaced(after, n0, l0, inputs, k + 1)
  {
    var pushed := prev + [FreshNode(inputs + k, Output, PosInf)];
    forall p | 0 <= p < k + 1
      ensures after[n0 + inputs + p] == FreshNode(inputs + p, Output, PosInf).(inbound := Run(Slot(l0, inputs, p, 0), inputs))
    {
      if p < k {
        assert pushed[n0 + inputs + p] == prev[n0 + inputs + p];
        assert pushed[n0 + inputs + p].outbound + [] == pushed[n0 + inputs + p].outbound;
      } else {
        assert [] + Run(b, inputs) == Run(Slot(l0, inputs, p, 0), inputs);
      }
    }
  }

  /** The outbound lists after one more turn of the outer loop. */
  lemma BuiltOutboundStep(prev: seq<Node>, after: seq<Node>, old_nodes: seq<Node>, l0: nat, b: nat, inputs: nat, k: nat)
    requires |prev| == |old_nodes| + inputs + k && BuiltOutbound(prev, old_nodes, l0, inputs, k)
    requires b == l0 + Offset(inputs, k)
    requires GrewRow(prev + [FreshNode(inputs + k, Output, PosInf)], after, |prev|, b, inputs)
    ensures BuiltOutbound(after, old_nodes, l0, inputs, k + 1)
  {
    var pushed := prev + [FreshNode(inputs + k, Output, PosInf)];
    forall j | 0 <= j < |after|
      ensures after[j].outbound == OldOutbound(old_nodes, j) + (if j < inputs then OutRow(l0, inputs, k + 1, j) else [])
    {
      if j < |prev| {
        assert pushed[j] == prev[j];
        if j < inputs {
          assert OutRow(l0, inputs, k + 1, j) == OutRow(l0, inputs, k, j) + [Slot(l0, inputs, k, j)];
        } else {
          assert prev[j].outbound + [] == prev[j].outbound;
        }
      }
    }
  }

  /** A link placed by an earlier turn keeps its meaning once the registry has grown. */
  lemma KeptLinkIsInit(lk: Link, prevReg: seq<Key>, reg: seq<Key>, n0: nat, inputs: nat, p: nat, q: nat)
    requires IsInitLink(lk, prevReg, n0, inputs, p, q) && KeepsIds(prevReg, reg)
    ensures IsInitLink(lk, reg, n0, inputs, p, q)
  {
    assert Key(q, inputs + p) in prevReg;
  }

  /** A link the inner loop placed for output `k` is the initial link it stands for. */
  lemma RowLinkIsInit(lk: Link, reg: seq<Key>, n0: nat, inputs: nat, k: nat, q: nat, key: Key, weight: real)
    requires RowLink(lk, reg, n0 + inputs + k, key, q, weight)
    requires key == Key(q, inputs + k) && -2.0 <= weight < 2.0
    ensures IsInitLink(lk, reg, n0, inputs, k, q)
  {
  }

  /** Links placed by earlier turns stay where they were and keep their meaning. */
  lemma BuiltLinksKept(prev: seq<Link>, prevReg: seq<Key>, after: seq<Link>, reg: seq<Key>,
                       n0: nat, l0: nat, inputs: nat, k: nat)
    requires |prev| == l0 + Offset(inputs, k) && BuiltLinks(prev, n0, l0, inputs, k, prevReg)
    requires |prev| <= |after| && after[..|prev|] == prev && KeepsIds(prevReg, reg)
    ensures BuiltLinks(after, n0, l0, inputs, k, reg)
  {
    forall p, q | 0 <= p < k && 0 <= q < inputs
      ensures Slot(l0, inputs, p, q) < |after| && IsInitLink(after[Slot(l0, inputs, p, q)], reg, n0, inputs, p, q)
    {
      var s := Slot(l0, inputs, p, q);
      SlotBelow(l0, inputs, p, q, k);
      assert after[s] == prev[s] by {
        assert after[..|prev|][s] == prev[s];
      }
      KeptLinkIsInit(prev[s], prevReg, reg, n0, inputs, p, q);
    }
  }

  /** The links output `k` receives in the inner loop. */
  lemma BuiltLinksNew(after: seq<Link>, reg: seq<Key>, n0: nat, l0: nat, inputs: nat, k: nat,
                      b: nat, keys: seq<Key>, row: seq<real>)
    requires b == l0 + Offset(inputs, k) && b + inputs <= |after|
    requires keys == RowKeys(inputs + k, inputs) && |row| == inputs
    requires RowLinks(after, b, reg, n0 + inputs + k, keys, row)
    requires RowInRange(row)
    ensures forall q :: 0 <= q < inputs ==>
      Slot(l0, inputs, k, q) < |after| && IsInitLink(after[Slot(l0, inputs, k, q)], reg, n0, inputs, k, q)
  {
    forall q | 0 <= q < inputs
      ensures Slot(l0, inputs, k, q) < |after| && IsInitLink(after[Slot(l0, inputs, k, q)], reg, n0, inputs, k, q)
    {
      assert Slot(l0, inputs, k, q) == b + q;
      RowKeysAt(inputs + k, inputs, q);
      RowLinkIsInit(after[b + q], reg, n0, inputs, k, q, keys[q], row[q]);
    }
  }

  /** The new links after one more turn of the outer loop. */
  lemma BuiltLinksStep(prev: seq<Link>, prevReg: seq<Key>, after: seq<Link>, reg: seq<Key>,
                       n0: nat, l0: nat, inputs: nat, k: nat, row: seq<real>)
    requires |prev| == l0 + Offset(inputs, k) && BuiltLinks(prev, n0, l0, inputs, k, prevReg)
    requires GrewLinks(prev, prevReg, after, reg, n0 + inputs + k, RowKeys(inputs + k, inputs), row)
    requires RowInRange(row)
    ensures BuiltLinks(after, n0, l0, inputs, k + 1, reg)
  {
    BuiltLinksNew(after, reg, n0, l0, inputs, k, |prev|, RowKeys(inputs + k, inputs), row);
    BuiltLinksKept(prev, prevReg, after, reg, n0, l0, inputs, k);
    BuiltLinksMerge(after, reg, n0, l0, inputs, k);
  }

  /** The links of the first `k` outputs and those of output `k` make up those of the first `k + 1`. */
  lemma BuiltLinksMerge(after: seq<Link>, reg: seq<Key>, n0: nat, l0: nat, inputs: nat, k: nat)
    requires BuiltLinks(after, n0, l0, inputs, k, reg)
    requires forall q :: 0 <= q < inputs ==>
      Slot(l0, inputs, k, q) < |after| && IsInitLink(after[Slot(l0, inputs, k, q)], reg, n0, inputs, k, q)
    ensures BuiltLinks(after, n0, l0, inputs, k + 1, reg)
  {
  }

  /** Before the outer loop: the old arena plus the input nodes. */
  lemma BuiltStart(a: Arena, inputs: nat)
    ensures var r := AddInputs(a, inputs);
      && Built(r.nodes, r.links, a.nodes, a.links, inputs, 0, r.reg)
      && r.reg == RegisterAll(a.reg, InitKeys(inputs, 0))
  {
    var start := AddInputs(a, inputs);
    assert start.links[..|a.links|] == a.links;
    forall j | 0 <= j < |a.nodes|
      ensures start.nodes[j] == a.nodes[j]
    {
      assert start.nodes[j] == start.nodes[..|a.nodes|][j];
    }
    forall j | 0 <= j < |start.nodes|
      ensures start.nodes[j].outbound == OldOutbound(a.nodes, j) + (if j < inputs then OutRow(|a.links|, inputs, 0, j) else [])
    {
      assert start.nodes[j].outbound + [] == start.nodes[j].outbound;
      if j >= |a.nodes| {
        assert start.nodes[|a.nodes| + (j - |a.nodes|)] == FreshNode(j - |a.nodes|, Input, At(0));
      }
    }
  }

  /** One more turn of the outer loop keeps the shape `Built` describes, for one more output. */
  lemma BuiltStep(a: Arena, prev: Arena, r: Arena, inputs: nat, k: nat, row: seq<real>)
    requires |row| == inputs && RowInRange(row)
    requires Built(prev.nodes, prev.links, a.nodes, a.links, inputs, k, prev.reg)
    requires prev.reg == RegisterAll(a.reg, InitKeys(inputs, k))
    requires r == NewOutput(prev, inputs + k, row)
    ensures Built(r.nodes, r.links, a.nodes, a.links, inputs, k + 1, r.reg)
    ensures r.reg == RegisterAll(a.reg, InitKeys(inputs, k + 1))
  {
    var pushed := prev.(nodes := prev.nodes + [FreshNode(inputs + k, Output, PosInf)]);
    var keys := RowKeys(inputs + k, inputs);
    assert r == ConnectRow(pushed, |prev.nodes|, keys, row);
    BuiltStepNodes(a, prev, pushed, r, inputs, k, row);
    NewOutputBuiltLinks(prev, |a.nodes|, |a.links|, inputs, k, row);
    PrefixOfPrefix(r.links, prev.links, a.links);
    RegisterAllAppend(a.reg, InitKeys(inputs, k), keys);
  }

  /** The links of `NewOutput` for output `k`, after those of the first `k` outputs. */
  lemma NewOutputBuiltLinks(prev: Arena, n0: nat, l0: nat, inputs: nat, k: nat, row: seq<real>)
    requires |row| == inputs && RowInRange(row)
    requires |prev.nodes| == n0 + inputs + k && |prev.links| == l0 + Offset(inputs, k)
    requires BuiltLinks(prev.links, n0, l0, inputs, k, prev.reg)
    ensures var r := NewOutput(prev, inputs + k, row);
      && |r.links| == l0 + Offset(inputs, k + 1)
      && r.links[..|prev.links|] == prev.links
      && BuiltLinks(r.links, n0, l0, inputs, k + 1, r.reg)
      && r.reg == RegisterAll(prev.reg, RowKeys(inputs + k, inputs))
  {
    var r := NewOutput(prev, inputs + k, row);
    NewOutputLinks(prev, inputs + k, row);
    BuiltStepLinks(n0, l0, prev.links, prev.reg, r.links, r.reg, inputs, k, |prev.nodes|, row);
  }

  /** The links and registry after `NewOutput`: one link per weight of the row, into the new node. */
  lemma NewOutputLinks(a: Arena, nodeId: nat, row: seq<real>)
    requires |row| <= |a.nodes|
    ensures var r := NewOutput(a, nodeId, row);
      GrewLinks(a.links, a.reg, r.links, r.reg, |a.nodes|, RowKeys(nodeId, |row|), row)
  {
    var pushed := a.(nodes := a.nodes + [FreshNode(nodeId, Output, PosInf)]);
    ConnectRowLinks(pushed, |a.nodes|, RowKeys(nodeId, |row|), row);
  }

  /** The node records and outbound lists after one more turn of the outer loop. */
  lemma BuiltStepNodes(a: Arena, prev: Arena, pushed: Arena, r: Arena, inputs: nat, k: nat, row: seq<real>)
    requires |row| == inputs
    requires BuiltSizes(prev.nodes, prev.links, a.nodes, a.links, inputs, k)
    requires BuiltNodes(prev.nodes, a.nodes, |a.links|, inputs, k)
    requires BuiltOutbound(prev.nodes, a.nodes, |a.links|, inputs, k)
    requires pushed == prev.(nodes := prev.nodes + [FreshNode(inputs + k, Output, PosInf)])
    requires r == ConnectRow(pushed, |prev.nodes|, RowKeys(inputs + k, inputs), row)
    ensures |r.nodes| == |a.nodes| + inputs + k + 1 && |r.links| == |prev.links| + inputs
    ensures BuiltNodes(r.nodes, a.nodes, |a.links|, inputs, k + 1)
    ensures BuiltOutbound(r.nodes, a.nodes, |a.links|, inputs, k + 1)
  {
    var l0, b := |a.links|, |prev.links|;
    ConnectRowNodes(pushed, |prev.nodes|, RowKeys(inputs + k, inputs), row);
    assert GrewRow(prev.nodes + [FreshNode(inputs + k, Output, PosInf)], r.nodes, |prev.nodes|, b, inputs);
    BuiltNodesStep(prev.nodes, r.nodes, a.nodes, l0, b, inputs, k);
    BuiltOutboundStep(prev.nodes, r.nodes, a.nodes, l0, b, inputs, k);
  }

  /** The link list after one more turn of the outer loop. */
  lemma BuiltStepLinks(n0: nat, l0: nat, prevLinks: seq<Link>, prevReg: seq<Key>, links: seq<Link>, reg: seq<Key>,
                       inputs: nat, k: nat, dst: nat, row: seq<real>)
    requires |row| == inputs && RowInRange(row) && dst == n0 + inputs + k
    requires |prevLinks| == l0 + Offset(inputs, k)
    requires BuiltLinks(prevLinks, n0, l0, inputs, k, prevReg)
    requires GrewLinks(prevLinks, prevReg, links, reg, dst, RowKeys(inputs + k, |row|), row)
    ensures |links| == l0 + Offset(inputs, k + 1)
    ensures BuiltLinks(links, n0, l0, inputs, k + 1, reg)
  {
    BuiltLinksStep(prevLinks, prevReg, links, reg, n0, l0, inputs, k, row);
  }

  lemma PrefixOfPrefix<T>(s: seq<T>, t: seq<T>, u: seq<T>)
    requires |t| <= |s| && s[..|t|] == t && |u| <= |t| && t[..|u|] == u
    ensures s[..|u|] == u
  {
    assert s[..|u|] == s[..|t|][..|u|];
  }

  /**
   * `initialize` builds what `Built` describes: the fold over `inputs` input
   * nodes and one row of weights per output, from any starting arena `a`,
   * leaves the shape `Built` states and the registry with every key of
   * `InitKeys` registered in order.
   */
  lemma {:induction false} BuildIsBuilt(a: Arena, inputs: nat, rows: seq<seq<real>>)
    requires RowsOfWidth(rows, inputs)
    requires WeightsInRange(rows)
    ensures var r := AddOutputs(AddInputs(a, inputs), inputs, rows);
      && Built(r.nodes, r.links, a.nodes, a.links, inputs, |rows|, r.reg)
      && r.reg == RegisterAll(a.reg, InitKeys(inputs, |rows|))
  {
    if rows == [] {
      BuiltStart(a, inputs);
    } else {
      var k := |rows| - 1;
      var front := rows[..k];
      assert |front| == k;
      assert RowsOfWidth(front, inputs) && WeightsInRange(front) by {
        assert forall m :: 0 <= m < k ==> front[m] == rows[m];
      }
      var prev := AddOutputs(AddInputs(a, inputs), inputs, front);
      var r := AddOutputs(AddInputs(a, inputs), inputs, rows);
      AddOutputsLast(AddInputs(a, inputs), inputs, rows, k);
      BuildIsBuilt(a, inputs, front);
      BuiltStep(a, prev, r, inputs, k, rows[k]);
    }
  }

  /** `BuildIsBuilt`, stated for the fields of a net that holds the folded arena. */
  lemma InitializeBuilds(oldNodes: seq<Node>, oldLinks: seq<Link>, registry: seq<Key>, inputs: nat,
                         rows: seq<seq<real>>, nodes: seq<Node>, links: seq<Link>, reg: seq<Key>)
    requires RowsOfWidth(rows, inputs)
    requires WeightsInRange(rows)
    requires Arena(nodes, links, reg) == AddOutputs(AddInputs(Arena(oldNodes, oldLinks, registry), inputs), inputs, rows)
    ensures Built(nodes, links, oldNodes, oldLinks, inputs, |rows|, reg)
    ensures reg == RegisterAll(registry, InitKeys(inputs, |rows|))
  {
    BuildIsBuilt(Arena(oldNodes, oldLinks, registry), inputs, rows);
  }

  /** The keys of one output's row are pairwise different. */
  lemma RowKeysDistinct(nodeId: nat, count: nat)
    ensures Distinct(RowKeys(nodeId, count))
  {
    forall i, j | 0 <= i < j < count
      ensures RowKeys(nodeId, count)[i] != RowKeys(nodeId, count)[j]
    {
      RowKeysAt(nodeId, count, i);
      RowKeysAt(nodeId, count, j);
    }
  }

  /** Key number `Offset(inputs, o) + i` of `initialize` is the one from input `i` to node `inputs + o`. */
  lemma {:induction false} InitKeysAt(inputs: nat, outputs: nat, o: nat, i: nat, node: nat)
    requires o < outputs && i < inputs && node == inputs + o
    ensures Offset(inputs, o) + i < |InitKeys(inputs, outputs)|
    ensures InitKeys(inputs, outputs)[Offset(inputs, o) + i] == Key(i, node)
  {
    var front := InitKeys(inputs, outputs - 1);
    if o < outputs - 1 {
      InitKeysAt(inputs, outputs - 1, o, i, node);
      OffsetMonotone(inputs, o + 1, outputs - 1);
    } else {
      RowKeysAt(node, inputs, i);
    }
  }

  lemma {:induction false} OffsetMonotone(inputs: nat, o: nat, p: nat)
    requires o <= p
    ensures Offset(inputs, o) <= Offset(inputs, p)
    decreases p
  {
    if o < p {
      OffsetMonotone(inputs, o, p - 1);
    }
  }

  /** Every key `initialize` registers names an input position and one of the output nodes. */
  lemma {:induction false} InitKeysRange(inputs: nat, outputs: nat, x: nat)
    requires x < |InitKeys(inputs, outputs)|
    ensures InitKeys(inputs, outputs)[x].input < inputs
    ensures inputs <= InitKeys(inputs, outputs)[x].node < inputs + outputs
    decreases outputs
  {
    var front := InitKeys(inputs, outputs - 1);
    if x < |front| {
      InitKeysRange(inputs, outputs - 1, x);
    } else {
      RowKeysAt(inputs + outputs - 1, inputs, x - |front|);
    }
  }

  /** `initialize` never asks for the same key twice. */
  lemma {:induction false} InitKeysDistinct(inputs: nat, outputs: nat)
    ensures Distinct(InitKeys(inputs, outputs))
    decreases outputs
  {
    if outputs > 0 {
      var front, row := InitKeys(inputs, outputs - 1), RowKeys(inputs + outputs - 1, inputs);
      InitKeysDistinct(inputs, outputs - 1);
      RowKeysDistinct(inputs + outputs - 1, inputs);
      forall x, y | 0 <= x < |front| && 0 <= y < |row|
        ensures front[x] != row[y]
      {
        InitKeysRange(inputs, outputs - 1, x);
        RowKeysAt(inputs + outputs - 1, inputs, y);
      }
      DistinctAppend(front, row);
    }
  }

  /** The position of the key from input `i` to output node `node` among the keys `initialize` registers. */
  lemma InitKeysIndex(inputs: nat, outputs: nat, i: nat, node: nat)
    requires i < inputs && inputs <= node < inputs + outputs
    ensures IndexOf(InitKeys(inputs, outputs), Key(i, node)) == (node - inputs) * inputs + i
  {
    InitKeysOffset(inputs, outputs, i, node);
    OffsetIsProduct(inputs, node - inputs);
  }

  /** `InitKeysIndex` with the row offset left as a sum. */
  lemma InitKeysOffset(inputs: nat, outputs: nat, i: nat, node: nat)
    requires i < inputs && inputs <= node < inputs + outputs
    ensures IndexOf(InitKeys(inputs, outputs), Key(i, node)) == Offset(inputs, node - inputs) + i
  {
    var keys, x := InitKeys(inputs, outputs), Offset(inputs, node - inputs) + i;
    InitKeysAt(inputs, outputs, node - inputs, i, node);
    InitKeysDistinct(inputs, outputs);
    IndexOfAt(keys, x, Key(i, node));
  }

  /**
   * On an empty registry `initialize` registers exactly its `outputs * inputs`
   * keys, in order, and the link from input `i` to output node `node` gets the
   * id `(node - inputs) * inputs + i` (output-major numbering).
   */
  lemma InitOnEmptyRegistry(inputs: nat, outputs: nat)
    ensures RegisterAll([], InitKeys(inputs, outputs)) == InitKeys(inputs, outputs)
    ensures |RegisterAll([], InitKeys(inputs, outputs))| == outputs * inputs
    ensures forall i, node :: 0 <= i < inputs && inputs <= node < inputs + outputs ==>
      IndexOf(RegisterAll([], InitKeys(inputs, outputs)), Key(i, node)) == (node - inputs) * inputs + i
  {
    var keys := InitKeys(inputs, outputs);
    assert RegisterAll([], keys) == keys by {
      InitKeysDistinct(inputs, outputs);
      RegisterAllFresh([], keys);
      assert [] + keys == keys;
    }
    OffsetIsProduct(inputs, outputs);
    forall i, node | 0 <= i < inputs && inputs <= node < inputs + outputs
      ensures IndexOf(keys, Key(i, node)) == (node - inputs) * inputs + i
    {
      InitKeysIndex(inputs, outputs, i, node);
    }
  }
}
