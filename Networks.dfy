/**
 * A network of nets (src/classes/Network.ts): the same registry and the same
 * initialisation as a population, without the compatibility settings and the
 * fitness test.
 */
module Networks {
  import opened Wrappers
  import opened Innovation
  import opened Construction
  import opened Nets
  import opened Populations

  class Network {
    var nets: seq<Net>
    var links: seq<Key>
    var inputSize: nat
    var outputSize: nat
    var populationSize: nat

    /** `new Network(options)`: absent nets and links start empty, the sizes are stored as given. */
    constructor (nets: Option<seq<Net>>, links: Option<seq<Key>>, inputSize: nat, outputSize: nat, populationSize: nat)
      ensures this.nets == nets.GetOr([]) && this.links == links.GetOr([])
      ensures this.inputSize == inputSize && this.outputSize == outputSize && this.populationSize == populationSize
    {
      this.links := links.GetOr([]);
      this.nets := nets.GetOr([]);
      this.inputSize := inputSize;
      this.outputSize := outputSize;
      this.populationSize := populationSize;
    }

    /**
     * `initialize()`: `populationSize` new nets replace the old ones. On an
     * empty registry the registry ends with exactly the `inputSize * outputSize`
     * keys of the first net, since the later nets ask only for keys it already
     * registered.
     */
    method Initialize()
      modifies this`nets, this`links
      ensures |nets| == populationSize
      ensures forall k :: 0 <= k < |nets| ==> Built(nets[k].nodes, nets[k].links, [], [], inputSize, outputSize, links)
      ensures populationSize == 0 ==> links == old(links)
      ensures populationSize > 0 ==> links == RegisterAll(old(links), InitKeys(inputSize, outputSize))
      ensures populationSize > 0 && old(links) == [] ==> |links| == inputSize * outputSize
      ensures forall k :: 0 <= k < |nets| ==> fresh(nets[k])
    {
      nets, links := NewNets(populationSize, inputSize, outputSize, links);
      InitOnEmptyRegistry(inputSize, outputSize);
      assert outputSize * inputSize == inputSize * outputSize;
    }

    /** `getLinkInnovation(id)`, the same scan-then-append as the population's. */
    method GetLinkInnovation(id: Key) returns (r: nat)
      modifies this`links
      ensures Registered(r, links) == Register(old(links), id)
    {
      var pos := 0;
      while pos < |links| && links[pos] != id
        invariant pos <= |links| && id !in links[..pos]
      {
        assert links[..pos + 1] == links[..pos] + [links[pos]];
        pos := pos + 1;
      }
      if pos < |links| {
        return pos;
      }
      assert links[..pos] == links;
      links := links + [id];
      r := |links| - 1;
    }
  }
}
