# NEAT skeleton in Dafny

This project models the class core of a small NEAT (NeuroEvolution of
Augmenting Topologies) library written in TypeScript:

- `Net`: a genome, made of node genes and link genes.
- `Node` and `Link`: the genes themselves.
- `Population` and `Network`: both own a list of nets and the innovation
  registry that hands out link ids.
- `Species`: a list of nets with the step that replaces them by their offspring.

The classes the source mutates are Dafny classes whose methods change fields
under `modifies` clauses: `Nets.Net`, `Populations.Population`,
`Networks.Network` and `Speciation.Species`. Each method is proved against
a specification function over values. The properties the source promises are
proved as lemmas about those functions.

- **Arena.** A net owns its node records and link records as two sequences.
  A node's inbound and outbound lists hold link indices. A link names its
  endpoints by node index. The in-place node and link operations
  (`Node.getLayer`, `Node.mutate`, `Link.mutate`) are net methods that take the
  record's index.
- **Innovation registry** (`Innovation`). `getLinkInnovation` is `Register`:
  - the first index of a known key, with the registry unchanged;
  - otherwise the key is appended and gets the old length.
  `RegisterAll` folds it over a key list.
  The source keys links by the text `` `${i}_${nodeId}` ``. The model keys
  them by the pair `Key(i, nodeId)`. `TextInjective` and `RegisterTexts` prove
  that a registry of pairs hands out exactly the ids of the registry of texts.
- **Construction** (`Construction`). `Net.initialize` is a fold over an
  `Arena` value (nodes, links, registry):
  - `AddInputs` makes the input nodes;
  - then, per output, `NewOutput` runs `ConnectRow`, a sequence of `Connect`
    steps.
  `Built` states the shape the fold leaves: node kinds, ids and layers, one
  link per input/output pair, the three places each link is recorded, and each
  link's innovation id. `BuildIsBuilt` proves that the fold has that shape.
- **Layers** (`Layering`). `Node.getLayer` is specified by `Resolved`. An
  unresolved (negative) layer becomes one more than the largest resolved layer
  of its inbound sources. A ghost `rank` that grows along every link witnesses
  that the inbound graph is acyclic. `Memo` describes the memo writes.
- **Evaluation** (`Evaluation`). `Net.evaluate` writes its inputs into the
  first nodes (`WriteInputs`), then asks the output nodes for their values in
  node-list order (`OutputIndices`, `Activate`).
- **Reproduction** (`Speciation`). `Species.repopulate` is specified by the
  list of offspring requests it makes (`Brood`), proved equal to what the
  method builds. The model follows the code as written, and the lemmas state
  what that code does:
  - the sort is ascending by fitness, so `splice(-killAmount)` keeps the least
    fit front of the list (`SurvivorsAreLeastFit`);
  - with fewer than two members nothing survives;
  - `slice(i, i + 1)` holds one net, so `pair[1]` is always `undefined`. Every
    crossing has no second parent, and the survivors at odd positions are
    never bred (`TurnsUnpaired`, `RequestsUnpaired`);
  - the offspring count is `(m - Paired(m)) + 2 * Paired(m)` for `m` survivors
    (`RequestsSize`).

## Model

| member | source | states |
|---|---|---|
| Innovation.IndexOf | src/classes/Population.ts:55 | `indexOf`: -1 exactly when the key is absent, otherwise a position holding the key with no earlier occurrence |
| Innovation.Register | src/classes/Population.ts:54-59 | the id holds the key and is its first occurrence; a known key leaves the registry unchanged; an unknown key is appended and gets the old length |
| Innovation.RegisterExtends | src/classes/Population.ts:57 | the old registry is a prefix of the new one, which is at most one longer |
| Innovation.RegisterIdempotent | src/classes/Population.ts:55-58 | a second call with the same key returns the same id and changes nothing |
| Innovation.RegisterKeepsDistinct | src/classes/Population.ts:55-58 | a registry without duplicates keeps none, so ids stay dense |
| Innovation.IndexOfDistinct | src/classes/Population.ts:55 | in a registry without duplicates, the key at `k` is found at `k` |
| Innovation.RegisterIdIsIndexOf | src/classes/Population.ts:55-58 | the id handed out is what a later lookup of the key returns |
| Innovation.IndexOfExtended | src/classes/Population.ts:57 | appending to a registry keeps the id of every key already in it |
| Innovation.RegisterKeepsIds | src/classes/Population.ts:57 | registering one key never changes the id of another |
| Innovation.RegisterAll | src/classes/Net.ts:44 | registering a key list in order only ever extends the registry |
| Innovation.RegisterAllKnown | src/classes/Net.ts:44 | registering keys that are all known leaves the registry unchanged |
| Innovation.RegisterAllContains | src/classes/Net.ts:44 | every key asked for is in the registry afterwards |
| Innovation.RegisterAllIdempotent | src/classes/Population.ts:46-52 | registering the same key list twice equals registering it once |
| Innovation.RegisterAllFresh | src/classes/Net.ts:44 | fresh, pairwise different keys are appended in order, each once |
| Innovation.RegisterAllKeepsDistinct | src/classes/Net.ts:44 | any number of registrations keep the registry duplicate-free |
| Innovation.RegisterAllAppend | src/classes/Net.ts:30-57 | registering `a` and then `b` equals registering `a + b` |
| Innovation.TextInjective | src/classes/Net.ts:44 | two keys have the same text `${i}_${node}` exactly when they are the same pair |
| Innovation.IndexOfTexts | src/classes/Population.ts:55 | looking up a key's text in the text registry finds the pair's position |
| Innovation.RegisterTexts | src/classes/Population.ts:54-59 | registering a pair and registering its text give the same id and matching registries |
| Decimal.NatToString | src/classes/Link.ts:28 | a number's decimal text is non-empty and all digits, and starts with `0` only for 0 (no leading zeros) |
| Decimal.ParseNatToString | src/classes/Link.ts:28 | reading the decimal text back gives the number |
| Decimal.NatToStringInjective | src/classes/Link.ts:28 | different numbers render differently |
| Decimal.JoinInjective | src/classes/Net.ts:44 | with a non-digit separator, `${a}${sep}${b}` determines `a` and `b` |
| Links.GetId | src/classes/Link.ts:27-29 | both node ids can be read back from the id: the digits before the first non-digit parse to the source's id, that character is `-`, and the digits after it parse to the target's id |
| Links.GetIdInjective | src/classes/Link.ts:27-29 | two links have the same `getId` exactly when their endpoints carry the same ids |
| Links.GetLinkValue | src/classes/Link.ts:24-26 | the link's term is zero exactly when the weight or the source's value is, and positive exactly when the two have the same sign |
| Links.GetLinkValueReads | src/classes/Link.ts:24-26 | the link value depends on the weight and the source's value only, not on `enabled` or the target |
| Nodes.NewNode | src/classes/Node.ts:24-33 | absent sum, value and bias become 0 and absent connection lists become empty; given fields are kept |
| Nodes.ShallowClone | src/classes/Node.ts:44-53 | the clone equals the node with empty inbound and outbound lists |
| Nodes.FreshNodeIsNewNode | src/classes/Net.ts:22-26 | the nodes `initialize` makes are the constructor called with only id, type and layer |
| Nodes.Max | src/classes/Node.ts:57 | `Math.max` of two layers is one of them and bounds both |
| Nodes.Succ | src/classes/Node.ts:57 | `layer + 1` is finite exactly when the layer is |
| Nodes.SuccAbove | src/classes/Node.ts:57 | a finite successor of an upper bound lies strictly above everything under the bound |
| Layering.SourceOf | src/classes/Node.ts:57 | an inbound link's source is a node of lower rank |
| Layering.SourceMaxBounds | src/classes/Node.ts:57 | the maximum bounds every source layer it ranges over |
| Layering.ResolvedAboveSources | src/classes/Node.ts:56-57 | a computed finite layer is strictly above the layer of each inbound source |
| Layering.Resolved | src/classes/Node.ts:55-60 | `getLayer()` returns a non-negative stored layer as it is; an unresolved node with no inbound links gets `-Infinity`; a computed layer is never a negative integer |
| Layering.SourceMax | src/classes/Node.ts:57 | the maximum over source layers is never a negative integer |
| Layering.SourceMaxAttained | src/classes/Node.ts:57 | the maximum is `-Infinity` or the layer of one of the sources it ranges over |
| Layering.MemoRanked | src/classes/Node.ts:57 | memo writes keep the acyclicity witness |
| Layering.MemoResolved | src/classes/Node.ts:56-59 | memo writes change no node's computed layer: memoisation is sound |
| Layering.MemoSourceMax | src/classes/Node.ts:57 | memo writes change no source maximum |
| Layering.MemoTrans | src/classes/Node.ts:57 | two rounds of memo writes are one round |
| Nets.Net.constructor | src/classes/Net.ts:14-18 | absent node and link lists start empty |
| Nets.Net.GetLayer | src/classes/Node.ts:55-60 | returns the computed layer and stores it when it was negative; a non-negative layer is returned with nothing changed; only memo writes happen, and none to higher-ranked nodes |
| Nets.Net.Initialize | src/classes/Net.ts:19-59 | the net ends `Built` with `inputs` and `outputs`, and the registry ends as the old one with every key of `InitKeys` registered in order |
| Nets.Net.PushInputs | src/classes/Net.ts:20-29 | the input loop appends `inputs` input nodes with ids from 0 at layer 0 |
| Nets.Net.AddOutput | src/classes/Net.ts:31-56 | one output node and its row of links, weights drawn in [-2, 2), as `NewOutput` |
| Nets.Net.Evaluate | src/classes/Net.ts:60-70 | inputs written, then the outputs activated in node order with one value each; an input with no node fails with `NoNodeAt` after the earlier writes |
| Nets.Net.WriteValues | src/classes/Net.ts:62-64 | succeeds exactly when every input has a node, leaving `WriteInputs` of the inputs (or of those that fit) |
| Nets.Net.ActivateOutputs | src/classes/Net.ts:67 | the nodes and the returned values are those of `Activate` over the output positions |
| Nets.Net.MutateNode | src/classes/Node.ts:41-43 | only the node's bias changes, by an amount in [-0.01, 0.01) |
| Nets.Net.MutateLink | src/classes/Link.ts:31-33 | only the link's weight changes, by an amount in [-0.01, 0.01) |
| Nets.BuiltOutputIndices | src/classes/Net.ts:67 | on a net built from nothing, `evaluate` asks exactly nodes `inputs .. inputs+outputs-1`, in order |
| Evaluation.WriteInputs | src/classes/Net.ts:62-64 | node `j` takes input `j` as its value for every input; the other nodes are untouched |
| Evaluation.OutputIndices | src/classes/Net.ts:67 | the positions are ascending and are exactly those of the output nodes |
| Evaluation.OutputIndicesByKind | src/classes/Net.ts:67 | which nodes are asked depends on the node kinds alone |
| Evaluation.OutputIndicesSplit | src/classes/Net.ts:67 | with non-outputs first and outputs after, the positions asked are the trailing range |
| Evaluation.Activate | src/classes/Net.ts:67 | one value per position asked, and the node list keeps its length |
| Evaluation.ActivateStores | src/classes/Net.ts:67 | when no node is asked twice, every value the map returns is the value left stored in the node it came from |
| Evaluation.ActivateChanges | src/classes/Net.ts:67 | asking nodes for values changes only their sum and value, and only at the positions asked |
| Construction.RowKeysAt | src/classes/Net.ts:38-44 | key `i` of an output's row is the key from input `i` to that output |
| Construction.InitKeys | src/classes/Net.ts:30-57 | `initialize` asks for `outputs * inputs` keys |
| Construction.OffsetIsProduct | src/classes/Net.ts:30-52 | the first `o` outputs receive `o * inputs` links |
| Construction.Connect | src/classes/Net.ts:38-51 | one link more, whose innovation number is the first index at which the registry now holds the link's key |
| Construction.ConnectRow | src/classes/Net.ts:38-52 | the inner loop adds no node; its links and list entries are stated by `ConnectRowLinks` and `ConnectRowNodes` |
| Construction.NewOutput | src/classes/Net.ts:31-56 | one turn of the outer loop adds exactly one node, the output; its row is stated by `BuiltStep` |
| Construction.AddOutputs | src/classes/Net.ts:30-57 | the outer loop adds one node per row of weights; the shape it leaves is stated by `BuildIsBuilt` |
| Construction.AddInputs | src/classes/Net.ts:21-29 | `count` input nodes numbered from 0 at layer 0 are appended; links and registry unchanged |
| Construction.AddOutputsStep | src/classes/Net.ts:30-57 | one more turn of the output loop is one more `NewOutput` |
| Construction.ConnectRowLinks | src/classes/Net.ts:38-51 | a row appends one enabled link per input position to the output, each with the id its key is registered under; ids handed out before are kept |
| Construction.ConnectRowNodes | src/classes/Net.ts:47-49 | a row adds each new link to its source's outbound list and the output's inbound list, and touches nothing else |
| Construction.Built | src/classes/Net.ts:19-59 | a predicate, not a contract: the shape `initialize` leaves (sizes, node records, outbound lists, and each link at its slot with its key's id); `BuildIsBuilt` proves that the fold has it |
| Construction.BuiltStart | src/classes/Net.ts:20-29 | after the input loop the arena has the `Built` shape for zero outputs |
| Construction.BuiltStep | src/classes/Net.ts:30-57 | one more output keeps the `Built` shape and registers that output's row of keys |
| Construction.BuildIsBuilt | src/classes/Net.ts:19-59 | the whole fold leaves the `Built` shape, and the registry with `InitKeys` registered in order |
| Construction.RowKeysDistinct | src/classes/Net.ts:38-44 | an output's row never repeats a key |
| Construction.InitKeysAt | src/classes/Net.ts:30-44 | key number `Offset(inputs, o) + i`, that is `o * inputs + i`, is the one from input `i` to output node `inputs + o` |
| Construction.InitKeysRange | src/classes/Net.ts:30-44 | every key names an input position and one of the output nodes |
| Construction.InitKeysDistinct | src/classes/Net.ts:30-44 | `initialize` never asks for the same key twice |
| Construction.InitKeysIndex | src/classes/Net.ts:44 | the key from input `i` to output node `node` is at `(node - inputs) * inputs + i` |
| Construction.InitOnEmptyRegistry | src/classes/Net.ts:44 | on an empty registry exactly the `outputs * inputs` keys are registered and ids are output-major |
| Populations.Population.constructor | src/classes/Population.ts:33-40 | absent nets and links start empty; the rest is stored as given |
| Populations.Population.Initialize | src/classes/Population.ts:41-53 | exactly `populationSize` fresh nets, each `Built` with the input and output sizes; the registry is extended by `InitKeys` once |
| Populations.Population.GetLinkInnovation | src/classes/Population.ts:54-59 | the id and the new registry are those of `Register` |
| Populations.Population.Test | src/classes/Population.ts:60-62 | the nets become the callback's result, and nothing else changes |
| Populations.NewNets | src/classes/Population.ts:46-52 | `count` fresh nets, all `Built` against the final registry; the later nets register nothing new |
| Populations.NewNet | src/classes/Population.ts:47-50 | a fresh net built from nothing, with the registry after it |
| Networks.Network.constructor | src/classes/Network.ts:17-23 | absent nets and links start empty; the sizes are stored as given |
| Networks.Network.Initialize | src/classes/Network.ts:24-36 | as the population's; from an empty registry it ends with `inputSize * outputSize` entries |
| Networks.Network.GetLinkInnovation | src/classes/Network.ts:37-42 | the id and the new registry are those of `Register` |
| Speciation.Bred | src/classes/Species.ts:26-43 | one offspring per request |
| Speciation.BredAt | src/classes/Species.ts:26-43 | offspring `k` is what request `k` returns |
| Speciation.BredAppend | src/classes/Species.ts:26-43 | the offspring of two request lists, concatenated, are those of the concatenated list |
| Speciation.InsertPermutes | src/classes/Species.ts:19 | inserting adds the net and loses nothing |
| Speciation.InsertAscending | src/classes/Species.ts:19 | inserting into an ascending list keeps it ascending |
| Speciation.SortPermutes | src/classes/Species.ts:19 | the sort keeps exactly the members it was given |
| Speciation.SortAscending | src/classes/Species.ts:19 | the sort leaves the members ascending by fitness |
| Speciation.SortByFitness | src/classes/Species.ts:19 | the sort returns as many members as it is given; `SortPermutes` and `SortAscending` state that it is an ascending permutation |
| Speciation.Relative | src/classes/Species.ts:23 | a relative index lands in range; a negative one counts from the end |
| Speciation.Splice | src/classes/Species.ts:23 | what stays, followed by what is returned, is the whole list, and what stays ends at the relative start |
| Speciation.Slice | src/classes/Species.ts:36 | `slice(start, end)` has `end - start` entries after both are made relative (none when start passes end), entry `k` being `s[start + k]` |
| Speciation.Element | src/classes/Species.ts:37 | `s[k]` is defined exactly below the length |
| Speciation.KillAmount | src/classes/Species.ts:22 | `Math.floor(len * 0.5)`: the largest count whose double does not exceed `len` |
| Speciation.Survivors | src/classes/Species.ts:23 | the members left after `splice(killAmount * -1)` are a front of the sorted list |
| Speciation.Requests | src/classes/Species.ts:26-43 | with an odd number of survivors the first request mutates the last survivor alone |
| Speciation.RequestsFromMembers | src/classes/Species.ts:26-43 | every request starts from one of the sorted members |
| Speciation.UnpairedFromMembers | src/classes/Species.ts:35-41 | every request of the pair loop starts from a member it was given |
| Speciation.Brood | src/classes/Species.ts:17-44 | every offspring request of `repopulate` has a member of the species as its first parent |
| Speciation.Turn | src/classes/Species.ts:36-40 | one turn of the pair loop makes four requests |
| Speciation.SurvivorsFront | src/classes/Species.ts:22-23 | the cut keeps the first `SurvivorCount` members: none below two, otherwise `len - len/2` |
| Speciation.SurvivorsAreLeastFit | src/classes/Species.ts:19-23 | after the sort, every survivor is at most as fit as every member the cut removes |
| Speciation.TurnsLength | src/classes/Species.ts:35-41 | each turn of the pair loop adds four requests |
| Speciation.TurnAlone | src/classes/Species.ts:36-40 | the one-net `pair` makes four crossings of `nets[i]` with no second parent |
| Speciation.TurnsUnpaired | src/classes/Species.ts:35-41 | the pair loop's turns are the reference `Unpaired`: member `2q` crossed with nothing, four times |
| Speciation.UnpairedPrefix | src/classes/Species.ts:35-41 | the pair loop reads only the members it crosses |
| Speciation.RequestsSplit | src/classes/Species.ts:28-41 | the requests are the odd survivor's mutant, when there is one, then the pair loop over the other survivors |
| Speciation.Paired | src/classes/Species.ts:29 | the survivors left for the pair loop are even in number, and at most one fewer than all of them |
| Speciation.OddOneOut | src/classes/Species.ts:29-32 | one mutant request exactly when the survivor count is odd |
| Speciation.PairLoopTurns | src/classes/Species.ts:35 | over an even number `n` of members the loop runs `n / 2` turns |
| Speciation.RequestsSize | src/classes/Species.ts:26-43 | for `m` survivors there are `m % 2 + 2 * (m - m % 2)` offspring |
| Speciation.RequestsUnpaired | src/classes/Species.ts:26-43 | the requests are the odd survivor's mutant, then survivors `0, 2, 4, ..` each crossed with nothing four times |
| Speciation.Species.constructor | src/classes/Species.ts:8-10 | the members are the nets given |
| Speciation.Species.AddMember | src/classes/Species.ts:11-13 | the net is appended; the earlier members and the representative stay |
| Speciation.Species.TestCompatibility | src/classes/Species.ts:14-16 | the distance to `nets[0]`, or to `undefined` in an empty species |
| Speciation.Species.Repopulate | src/classes/Species.ts:17-44 | the members become the offspring of `Brood`: sorted, cut, odd one out, then the pair loop, in order |
| Speciation.PairUp | src/classes/Species.ts:35-41 | the pair loop's offspring are those of `PairLoop`, in order |
| Speciation.BreedTurn | src/classes/Species.ts:36-40 | one turn's four offspring are those of `Turn`, in order |
| Speciation.TurnsStep | src/classes/Species.ts:35-41 | one more turn appends that turn's offspring |

## Left out

- The `parent` back-reference of a net (src/classes/Net.ts:13) is not modelled. `Nets.Net.Initialize` takes the registry as an argument and returns it; `Population` and `Network` pass their `links` field through. Without traits, a net cannot hold a reference to either owner class.
- Innovation keys are the pair `Key(i, nodeId)` rather than the text `${i}_${nodeId}`. `RegisterTexts` proves the two registries hand out the same ids.
- Speciation.Species.constructor, Populations.Population.constructor, Networks.Network.constructor and Nets.Net.constructor store sequence values. The source keeps the caller's option arrays by reference (src/classes/Species.ts:9, src/classes/Population.ts:34-35, src/classes/Network.ts:18-19, src/classes/Net.ts:15-16). Several effects on the caller's arrays are therefore not modelled:
  - `addMember` and the registry's `push` append to the array the caller passed in;
  - `repopulate`'s `sort` and `splice` leave the caller's array sorted and cut down;
  - two populations or networks built from one `links` array share one innovation registry.
- Link and node records refer to each other by index into the net's arenas, not by object reference. Sharing of node and link objects between nets is not modelled.
- Floating-point numbers are modelled as `real`: no rounding, NaN or overflow.
- `Math.random()` is a nondeterministic draw in [0, 1). The weights and mutation steps are stated only by their ranges.
- `Node.getValue` and `sigmoid` (src/classes/Node.ts:34-39) are not modelled. `Nets.Net.Evaluate` takes `getValue` as a parameter that gives a node's new sum and value. `Links.GetLinkValue` states the shape of one link's term.
- `Net.fitness`, `Net.crossover`, `Net.mutate` and `Net.getCompatibilty` are defined in no source file. They are parameters: `fitness`, `breed` (the net a `Breeding` request returns) and `compatibility`.
- `new Net(oddOneOut)` (src/classes/Species.ts:31) passes a net as the options object, so the new net shares the old one's arrays. That effect is left to `breed`.
- Speciation.SortByFitness: the order among members of equal fitness is not stated. `Array.prototype.sort` is stable; the model only proves an ascending permutation.
- Speciation.Species.Repopulate: the intermediate states of `this.nets` between the sort, the two splices and the final assignment are not stated. The method works on a local list and then assigns the offspring.
- Nets.Net.GetLayer requires an acyclicity witness (`Ranked`) for the whole inbound graph. The source overflows the stack only on a cycle reached from the node through unresolved (negative-layer) nodes. It returns normally on nets whose cycles pass through a resolved node or are not reached that way. `Ranked` excludes those nets too, so the model says nothing about them.
- Nodes.NewNode: `layer` is optional in the source's node options (src/classes/Node.ts:11), and without it the constructor stores `undefined` (src/classes/Node.ts:29). `getLayer` then returns `undefined`, because `undefined < 0` is false. The model makes the layer a required field, so a node without a layer is not represented. Every node the modelled code creates is given one.
- Decimal.NatToString matches JavaScript's `${n}` only below 10^21, where JavaScript switches to exponent form (`1e+21`). `nodeId++` and the registry's ids are also exact only up to 2^53. The model's integers are unbounded, so neither limit is represented.
- Nodes.Layer: a layer is `-Infinity`, an integer or `Infinity`. Non-integer layers cannot arise from the modelled code and are not represented.
- Ids, sizes and counts are natural numbers. For a negative `inputs`, `outputs` or `populationSize` the source's loops run zero times. For a positive fraction `n` they run `ceil(n)` times: `ceil(inputs)` input nodes, `ceil(outputs)` outputs and `ceil(inputs)` links per output. Node ids stay integers, since `nodeId` starts at 0 and is only incremented (src/classes/Net.ts:20-56). Neither case is modelled, since the sizes are `nat`.
- Population.comConfig is stored and never read.
