/**
 * A population of nets (src/classes/Population.ts). It owns the innovation
 * registry every one of its nets asks for link ids, as a list of keys whose
 * positions are the ids.
 */
module Populations {
  import opened Wrappers
  import opened Innovation
  import opened Construction
  import opened Nodes
  import opened Links
  import opened Nets

  /** The compatibility weights `comConfig`; stored, never read by the population itself. */
  datatype ComConfig = ComConfig(excess: real, disjoint: real, weightDifference: real, threshold: real)

  class Population {
    var nets: seq<Net>
    var links: seq<Key>
    var inputSize: nat
    var outputSize: nat
    var populationSize: nat
    var comConfig: ComConfig

    /** `new Population(options)`: absent nets and links start empty, the rest is stored as given. */
    constructor (nets: Option<seq<Net>>, links: Option<seq<Key>>, inputSize: nat, outputSize: nat,
                 populationSize: nat, comConfig: ComConfig)
      ensures this.nets == nets.GetOr([]) && this.links == links.GetOr([])
      ensures this.inputSize == inputSize && this.outputSize == outputSize
      ensures this.populationSize == populationSize && this.comConfig == comConfig
    {
      this.links := links.GetOr([]);
      this.nets := nets.GetOr([]);
      this.inputSize := inputSize;
      this.outputSize := outputSize;
      this.populationSize := populationSize;
      this.comConfig := comConfig;
    }

    /**
     * `initialize()`: throws the old nets away and builds `populationSize` new
     * ones, each from nothing with `inputSize` inputs and `outputSize` outputs.
     * The first registers every key it needs; the later ones find them all and
     * get the same ids.
     */
    method Initialize()
      modifies this`nets, this`links
      ensures |nets| == populationSize
      ensures forall k :: 0 <= k < |nets| ==> Built(nets[k].nodes, nets[k].links, [], [], inputSize, outputSize, links)
      ensures populationSize == 0 ==> links == old(links)
      ensures populationSize > 0 ==> links == RegisterAll(old(links), InitKeys(inputSize, outputSize))
      ensures forall k :: 0 <= k < |nets| ==> fresh(nets[k])
    {
      nets, links := NewNets(populationSize, inputSize, outputSize, links);
    }

    /**
     * `getLinkInnovation(id)`: the position of `id` in the registry, found by a
     * scan from the front; an unknown `id` is appended first.
     */
    method GetLinkInnovation(id: Key) returns (r: nat)
      modifies this`links
      ensures Registered(r, links) == Register(old(links), id)
    {
      var pos := 0;
      while pos < |links| && links[pos] != id
        invariant pos <= |links| && id !in links[..pos]
      {
        assert links[..pos + 1] == links[..pos] + [links[pos]];
        pos := pos + 1;
      }
      if pos < |links| {
        return pos;
      }
      assert links[..pos] == links;
      links := links + [id];
      r := |links| - 1;
    }

    /** `test(callback)`: the nets become whatever the callback makes of them. */
    method Test(callback: seq<Net> -> seq<Net>)
      modifies this`nets
      ensures nets == callback(old(nets))
    {
      nets := callback(nets);
    }
  }

  /**
   * The loop of `initialize`: `count` new nets, each built from nothing, all
   * asking `registry` for their link ids; returns them with the registry after.
   */
  method NewNets(count: nat, inputs: nat, outputs: nat, registry: seq<Key>) returns (nets: seq<Net>, reg: seq<Key>)
    ensures |nets| == count
    ensures forall k :: 0 <= k < |nets| ==> Built(nets[k].nodes, nets[k].links, [], [], inputs, outputs, reg)
    ensures count == 0 ==> reg == registry
    ensures count > 0 ==> reg == RegisterAll(registry, InitKeys(inputs, outputs))
    ensures forall k :: 0 <= k < |nets| ==> fresh(nets[k])
  {
    nets, reg := [], registry;
    ghost var all := RegisterAll(registry, InitKeys(inputs, outputs));
    ghost var shapes: seq<Shape> := [];
    while |nets| < count
      invariant |nets| == |shapes| <= count
      invariant forall k :: 0 <= k < |nets| ==> fresh(nets[k])
      invariant forall k :: 0 <= k < |nets| ==> nets[k].nodes == shapes[k].nodes && nets[k].links == shapes[k].links
      invariant AllBuilt(shapes, inputs, outputs, all)
      invariant if nets == [] then reg == registry else reg == all
    {
      var net;
      ghost var before := reg;
      net, reg := NewNet(inputs, outputs, reg);
      assert reg == all by {
        if nets != [] {
          RegisterAllIdempotent(registry, InitKeys(inputs, outputs));
        }
      }
      AllBuiltAppend(shapes, Shape(net.nodes, net.links), inputs, outputs, all);
      shapes := shapes + [Shape(net.nodes, net.links)];
      nets := nets + [net];
    }
    AllBuiltAt(shapes, inputs, outputs, all);
  }

  /** One turn of the loop of `initialize`: a net built from nothing. */
  method NewNet(inputs: nat, outputs: nat, registry: seq<Key>) returns (net: Net, reg: seq<Key>)
    ensures fresh(net)
    ensures AllBuilt([Shape(net.nodes, net.links)], inputs, outputs, reg)
    ensures reg == RegisterAll(registry, InitKeys(inputs, outputs))
  {
    net := new Net(None, None);
    reg := net.Initialize(inputs, outputs, registry);
  }

  /** The node and link lists of one net. */
  datatype Shape = Shape(nodes: seq<Node>, links: seq<Link>)

  /** Every net in `shapes` is what `initialize(inputs, outputs)` builds from nothing. */
  predicate AllBuilt(shapes: seq<Shape>, inputs: nat, outputs: nat, reg: seq<Key>) {
    forall k :: 0 <= k < |shapes| ==> Built(shapes[k].nodes, shapes[k].links, [], [], inputs, outputs, reg)
  }

  lemma AllBuiltAppend(shapes: seq<Shape>, s: Shape, inputs: nat, outputs: nat, reg: seq<Key>)
    requires AllBuilt(shapes, inputs, outputs, reg) && AllBuilt([s], inputs, outputs, reg)
    ensures AllBuilt(shapes + [s], inputs, outputs, reg)
  {
  }

  lemma AllBuiltAt(shapes: seq<Shape>, inputs: nat, outputs: nat, reg: seq<Key>)
    requires AllBuilt(shapes, inputs, outputs, reg)
    ensures forall k :: 0 <= k < |shapes| ==> Built(shapes[k].nodes, shapes[k].links, [], [], inputs, outputs, reg)
  {
  }
}
