/**
 * A species (src/classes/Species.ts): a list of nets, the first of which
 * represents it, and the step that replaces them by the next generation.
 *
 * The net operations `repopulate` relies on (`fitness`, `crossover`, `mutate`,
 * `getCompatibilty`) are defined nowhere in the repository; they are
 * parameters here. A `Breeding` names the call that makes one offspring, and
 * `breed` says what that call returns.
 */
module Speciation {
  import opened Wrappers
  import opened Nets

  /** One offspring request of `repopulate`. */
  datatype Breeding =
      /** `new Net(parent).mutate()`, for the odd survivor out. */
    | Mutant(parent: Net)
      /** `first.crossover(second).mutate()`, the `copy`-th (0 to 3) of the four made per pair. */
    | Cross(first: Net, second: Option<Net>, copy: nat)

  /** The nets the requests make, in order. */
  function Bred(breed: Breeding -> Net, plan: seq<Breeding>): (r: seq<Net>)
    ensures |r| == |plan|
  {
    if plan == [] then [] else Bred(breed, plan[..|plan| - 1]) + [breed(plan[|plan| - 1])]
  }

  /** The `k`-th net made is what the `k`-th request returns. */
  lemma {:induction false} BredAt(breed: Breeding -> Net, plan: seq<Breeding>, k: nat)
    requires k < |plan|
    ensures Bred(breed, plan)[k] == breed(plan[k])
    decreases |plan|
  {
    if k < |plan| - 1 {
      BredAt(breed, plan[..|plan| - 1], k);
    }
  }

  lemma {:induction false} BredAppend(breed: Breeding -> Net, a: seq<Breeding>, b: seq<Breeding>)
    ensures Bred(breed, a + b) == Bred(breed, a) + Bred(breed, b)
    decreases |b|
  {
    if b == [] {
      assert a + b == a;
    } else {
      var front := b[..|b| - 1];
      assert (a + b)[..|a + b| - 1] == a + front;
      BredAppend(breed, a, front);
    }
  }

  // Sorting by fitness

  /** Ascending by fitness, the order the comparator `a.fitness - b.fitness` asks for. */
  predicate Ascending(s: seq<Net>, fitness: Net -> real) {
    forall i, j :: 0 <= i < j < |s| ==> fitness(s[i]) <= fitness(s[j])
  }

  /** `x` placed in front of the first net at least as fit as it. */
  function Insert(x: Net, s: seq<Net>, fitness: Net -> real): (r: seq<Net>)
    ensures |r| == |s| + 1
  {
    if s == [] || fitness(x) <= fitness(s[0]) then [x] + s else [s[0]] + Insert(x, s[1..], fitness)
  }

  /** `nets.sort((a, b) => a.fitness - b.fitness)`, as an insertion sort. */
  function SortByFitness(s: seq<Net>, fitness: Net -> real): (r: seq<Net>)
    ensures |r| == |s|
  {
    if s == [] then [] else Insert(s[0], SortByFitness(s[1..], fitness), fitness)
  }

  /** Inserting adds `x` and loses nothing. */
  lemma {:induction false} InsertPermutes(x: Net, s: seq<Net>, fitness: Net -> real)
    ensures multiset(Insert(x, s, fitness)) == multiset(s) + multiset{x}
  {
    if s != [] && fitness(s[0]) < fitness(x) {
      InsertPermutes(x, s[1..], fitness);
      assert s == [s[0]] + s[1..];
    }
  }

  /** Inserting into an ascending list keeps it ascending; the head is `x` or the old head. */
  lemma {:induction false} InsertAscending(x: Net, s: seq<Net>, fitness: Net -> real)
    requires Ascending(s, fitness)
    ensures Ascending(Insert(x, s, fitness), fitness)
    ensures Insert(x, s, fitness)[0] == x || (s != [] && Insert(x, s, fitness)[0] == s[0])
  {
    if s != [] && fitness(s[0]) < fitness(x) {
      InsertAscending(x, s[1..], fitness);
      InsertPermutes(x, s[1..], fitness);
      var rest := Insert(x, s[1..], fitness);
      forall j | 0 < j < |rest| + 1
        ensures fitness(s[0]) <= fitness(([s[0]] + rest)[j])
      {
        assert rest[j - 1] in multiset(s[1..]) + multiset{x};
      }
    }
  }

  /** The sort keeps exactly the members it was given. */
  lemma {:induction false} SortPermutes(s: seq<Net>, fitness: Net -> real)
    ensures multiset(SortByFitness(s, fitness)) == multiset(s)
  {
    if s != [] {
      SortPermutes(s[1..], fitness);
      InsertPermutes(s[0], SortByFitness(s[1..], fitness), fitness);
      assert s == [s[0]] + s[1..];
    }
  }

  /** The sort leaves the members ascending by fitness. */
  lemma {:induction false} SortAscending(s: seq<Net>, fitness: Net -> real)
    ensures Ascending(SortByFitness(s, fitness), fitness)
  {
    if s != [] {
      SortAscending(s[1..], fitness);
      InsertAscending(s[0], SortByFitness(s[1..], fitness), fitness);
    }
  }

  // The array operations `repopulate` uses

  /** Where a relative index of `splice` or `slice` lands in a list of `len` entries. */
  function Relative(len: nat, x: int): (r: nat)
    ensures r <= len
    ensures 0 <= x <= len ==> r == x
    ensures -(len as int) <= x < 0 ==> r == len + x
  {
    if x < 0 then (if len + x < 0 then 0 else len + x) else if x < len then x else len
  }

  /** `s.splice(start)`: what stays in the list and what it returns. */
  datatype Spliced = Spliced(kept: seq<Net>, removed: seq<Net>)

  function Splice(s: seq<Net>, start: int): (r: Spliced)
    ensures r.kept + r.removed == s && |r.kept| == Relative(|s|, start)
  {
    var p := Relative(|s|, start);
    assert s[..p] + s[p..] == s;
    Spliced(s[..p], s[p..])
  }

  /** `s.slice(start, end)`. */
  function Slice(s: seq<Net>, start: int, end: int): (r: seq<Net>)
    ensures var a, b := Relative(|s|, start), Relative(|s|, end);
      && |r| == (if a <= b then b - a else 0)
      && forall k :: 0 <= k < |r| ==> r[k] == s[a + k]
  {
    var a, b := Relative(|s|, start), Relative(|s|, end);
    if a <= b then s[a..b] else []
  }

  // What `repopulate` asks for

  /** `Math.floor(len * 0.5)`: the largest count whose double does not exceed `len`. */
  function KillAmount(len: nat): (r: nat)
    ensures 2 * r <= len < 2 * r + 2
  {
    len / 2
  }

  /** The members left after `splice(killAmount * -1)`: a front of the list. */
  function Survivors(sorted: seq<Net>): (r: seq<Net>)
    ensures |r| <= |sorted| && r == sorted[..|r|]
  {
    var cut := Splice(sorted, -(KillAmount(|sorted|) as int));
    assert cut.kept == (cut.kept + cut.removed)[..|cut.kept|];
    cut.kept
  }

  /** `s[k]`, which is `undefined` past the end of the list. */
  function Element(s: seq<Net>, k: nat): (r: Option<Net>)
    ensures r.Some? <==> k < |s|
    ensures r.Some? ==> r.value == s[k]
  {
    if k < |s| then Some(s[k]) else None
  }

  /** One turn of the pair loop, at `i`: four crossings of `pair[0]` with `pair[1]`. */
  function Turn(nets: seq<Net>, i: nat): (r: seq<Breeding>)
    requires i < |nets|
    ensures |r| == 4
  {
    var pair := Slice(nets, i, i + 1);
    var second := Element(pair, 1);
    [Cross(pair[0], second, 0), Cross(pair[0], second, 1), Cross(pair[0], second, 2), Cross(pair[0], second, 3)]
  }

  /** The first `t` turns of the pair loop, at `i = 0, 2, .., 2t-2`. */
  function Turns(nets: seq<Net>, t: nat): (r: seq<Breeding>)
    requires 2 * t <= |nets| + 1
  {
    if t == 0 then [] else Turns(nets, t - 1) + Turn(nets, 2 * (t - 1))
  }

  /** The whole pair loop: one turn for each even `i` below `|nets|`. */
  function PairLoop(nets: seq<Net>): seq<Breeding> {
    Turns(nets, (|nets| + 1) / 2)
  }

  /**
   * Every offspring request `repopulate` makes, in order: the members sorted,
   * the last `KillAmount` of them dropped, an odd survivor out mutated on its
   * own, then four crossings per turn of the pair loop.
   * Every request has a member of the species as its first parent.
   */
  function Brood(nets: seq<Net>, fitness: Net -> real): (r: seq<Breeding>)
    ensures forall k :: 0 <= k < |r| ==> FirstParent(r[k]) in nets
  {
    var sorted := SortByFitness(nets, fitness);
    SortPermutes(nets, fitness);
    RequestsFromMembers(sorted);
    assert forall x :: x in sorted ==> x in multiset(sorted);
    Requests(sorted)
  }

  /**
   * The requests `repopulate` makes once its members are sorted. With an odd
   * number of survivors the first request mutates the last of them.
   */
  function Requests(sorted: seq<Net>): (r: seq<Breeding>)
    ensures var m := |Survivors(sorted)|; m % 2 == 1 ==> r != [] && r[0] == Mutant(sorted[m - 1])
  {
    var survivors := Survivors(sorted);
    if |survivors| % 2 == 1 then
      var cut := Splice(survivors, -1);
      assert cut.removed[0] == (cut.kept + cut.removed)[|survivors| - 1];
      [Mutant(cut.removed[0])] + PairLoop(cut.kept)
    else
      PairLoop(survivors)
  }

  /** The net a request starts from: the mutated parent, or the first of a crossing. */
  function FirstParent(b: Breeding): Net {
    match b
    case Mutant(parent) => parent
    case Cross(first, _, _) => first
  }

  /** Every request of the pair loop, as it behaves, starts from a member it was given. */
  lemma {:induction false} UnpairedFromMembers(nets: seq<Net>, t: nat)
    requires 2 * t <= |nets| + 1
    ensures forall k :: 0 <= k < |Unpaired(nets, t)| ==> FirstParent(Unpaired(nets, t)[k]) in nets
  {
    if t > 0 {
      UnpairedFromMembers(nets, t - 1);
      var front, last := Unpaired(nets, t - 1), Clones(nets[2 * (t - 1)]);
      assert Unpaired(nets, t) == front + last;
      assert forall k :: |front| <= k < |front| + |last| ==> (front + last)[k] == last[k - |front|];
    }
  }

  /** Every request `repopulate` makes starts from one of the sorted members. */
  lemma RequestsFromMembers(sorted: seq<Net>)
    ensures forall k :: 0 <= k < |Requests(sorted)| ==> FirstParent(Requests(sorted)[k]) in sorted
  {
    var m := SurvivorCount(|sorted|);
    RequestsUnpaired(sorted);
    UnpairedFromMembers(sorted, Paired(m) / 2);
  }

  /** How many members survive the cut of a species of `len`: none below two, else the first `len - len/2`. */
  function SurvivorCount(len: nat): nat {
    if len <= 1 then 0 else len - len / 2
  }

  /** `splice(-killAmount)` keeps the first `SurvivorCount` members. */
  lemma SurvivorsFront(sorted: seq<Net>)
    ensures SurvivorCount(|sorted|) <= |sorted| && Survivors(sorted) == sorted[..SurvivorCount(|sorted|)]
  {
    var cut := Splice(sorted, -(KillAmount(|sorted|) as int));
    assert cut.kept == (cut.kept + cut.removed)[..|cut.kept|];
  }

  /**
   * The cut keeps the front of the sorted list, `SurvivorCount` members, and
   * since the list is ascending these are the least fit: the half the
   * "kill bottom 50%" intends to drop is the half that stays. With fewer than
   * two members `splice(-0)` removes them all.
   */
  lemma SurvivorsAreLeastFit(nets: seq<Net>, fitness: Net -> real)
    ensures var sorted := SortByFitness(nets, fitness);
      var m := SurvivorCount(|nets|);
      && Survivors(sorted) == sorted[..m]
      && forall a, b :: 0 <= a < m <= b < |sorted| ==> fitness(sorted[a]) <= fitness(sorted[b])
  {
    var sorted := SortByFitness(nets, fitness);
    SortAscending(nets, fitness);
    SurvivorsFront(sorted);
  }

  /** `|Turns(nets, t)|`: four requests per turn. */
  lemma {:induction false} TurnsLength(nets: seq<Net>, t: nat)
    requires 2 * t <= |nets| + 1
    ensures |Turns(nets, t)| == 4 * t
  {
    if t > 0 {
      TurnsLength(nets, t - 1);
    }
  }

  /** Four crossings of `x` with no second parent. */
  function Clones(x: Net): (r: seq<Breeding>) {
    [Cross(x, None, 0), Cross(x, None, 1), Cross(x, None, 2), Cross(x, None, 3)]
  }

  /**
   * The pair loop as it actually behaves: turn `q` crosses member `2 * q`
   * with nothing, four times, and the members at odd positions are never
   * bred.
   */
  function Unpaired(nets: seq<Net>, t: nat): (r: seq<Breeding>)
    requires 2 * t <= |nets| + 1
  {
    if t == 0 then [] else Unpaired(nets, t - 1) + Clones(nets[2 * (t - 1)])
  }

  /**
   * `slice(i, i + 1)` holds one net, so `pair[1]` is always `undefined`: the
   * turns of the pair loop are `Unpaired`.
   */
  lemma {:induction false} TurnsUnpaired(nets: seq<Net>, t: nat)
    requires 2 * t <= |nets| + 1
    ensures Turns(nets, t) == Unpaired(nets, t)
  {
    if t > 0 {
      var i := 2 * (t - 1);
      TurnsUnpaired(nets, t - 1);
      TurnAlone(nets, i);
      assert Turns(nets, t) == Turns(nets, t - 1) + Turn(nets, i);
    }
  }

  /** `Unpaired` reads only the members it crosses, so cutting the list after them changes nothing. */
  lemma {:induction false} UnpairedPrefix(nets: seq<Net>, n: nat, t: nat)
    requires n <= |nets| && 2 * t <= n
    ensures Unpaired(nets[..n], t) == Unpaired(nets, t)
  {
    if t > 0 {
      UnpairedPrefix(nets, n, t - 1);
      assert nets[..n][2 * (t - 1)] == nets[2 * (t - 1)];
    }
  }

  /** `nets.slice(i, i + 1)` is the one net at `i`, so every crossing of the turn has no second parent. */
  lemma TurnAlone(nets: seq<Net>, i: nat)
    requires i < |nets|
    ensures Turn(nets, i) == Clones(nets[i])
  {
    assert Slice(nets, i, i + 1) == [nets[i]];
  }

  /**
   * The requests laid out: the mutant of the odd survivor out, the last of
   * the `m` survivors, if there is one, then the pair loop over the others.
   */
  lemma RequestsSplit(sorted: seq<Net>)
    ensures var m := SurvivorCount(|sorted|);
      && m <= |sorted|
      && Requests(sorted) == OddOneOut(sorted, m) + PairLoop(sorted[..Paired(m)])
  {
    var m := SurvivorCount(|sorted|);
    SurvivorsFront(sorted);
    var survivors := Survivors(sorted);
    if m % 2 == 1 {
      assert Paired(m) == m - 1;
      var cut := Splice(survivors, -1);
      assert |cut.kept| == m - 1;
      assert cut.kept == sorted[..m - 1] by {
        assert cut.kept == (cut.kept + cut.removed)[..m - 1];
      }
      assert cut.removed[0] == sorted[m - 1] by {
        assert cut.removed[0] == (cut.kept + cut.removed)[m - 1];
      }
      assert Requests(sorted) == [Mutant(sorted[m - 1])] + PairLoop(sorted[..m - 1]);
    } else {
      assert Paired(m) == m;
      assert Requests(sorted) == [] + PairLoop(sorted[..m]);
    }
  }

  /** The survivors the pair loop runs over: all `m` of them but an odd one out. */
  function Paired(m: nat): (r: nat)
    ensures r <= m && m - r <= 1 && r % 2 == 0
  {
    m - m % 2
  }

  /** The mutant request for the odd survivor out, the last of `m`, when there is one. */
  function OddOneOut(sorted: seq<Net>, m: nat): (r: seq<Breeding>)
    requires m <= |sorted|
    ensures |r| == m - Paired(m)
  {
    if Paired(m) < m then [Mutant(sorted[m - 1])] else []
  }

  /** The pair loop over an even number `n` of members runs `n / 2` turns. */
  lemma PairLoopTurns(sorted: seq<Net>, n: nat)
    requires n <= |sorted| && n % 2 == 0
    ensures 2 * (n / 2) == n
    ensures PairLoop(sorted[..n]) == Turns(sorted[..n], n / 2)
  {
    assert (|sorted[..n]| + 1) / 2 == n / 2;
  }

  /**
   * The offspring count of `repopulate` for `m` survivors: one for an odd
   * survivor out, then four per pair, `2 * Paired(m)` more.
   */
  lemma RequestsSize(sorted: seq<Net>)
    ensures var m := SurvivorCount(|sorted|); |Requests(sorted)| == (m - Paired(m)) + 2 * Paired(m)
  {
    var m := SurvivorCount(|sorted|);
    var n := Paired(m);
    RequestsSplit(sorted);
    PairLoopTurns(sorted, n);
    TurnsLength(sorted[..n], n / 2);
  }

  /**
   * What the offspring requests of `repopulate` are, with `m` survivors in
   * sorted order: an odd survivor out, the last one, is mutated alone and
   * comes first; after it the survivors at positions `0, 2, 4, ..` below
   * `Paired(m)` are each crossed with nothing four times.
   */
  lemma RequestsUnpaired(sorted: seq<Net>)
    ensures var m := SurvivorCount(|sorted|);
      && m <= |sorted|
      && Requests(sorted) == OddOneOut(sorted, m) + Unpaired(sorted, Paired(m) / 2)
  {
    var m := SurvivorCount(|sorted|);
    var n := Paired(m);
    RequestsSplit(sorted);
    PairLoopTurns(sorted, n);
    TurnsUnpaired(sorted[..n], n / 2);
    UnpairedPrefix(sorted, n, n / 2);
  }

  class Species {
    var nets: seq<Net>

    /** `new Species({nets})`. */
    constructor (nets: seq<Net>)
      ensures this.nets == nets
    {
      this.nets := nets;
    }

    /** `addMember(net)`: `net` joins at the end; the representative stays the same. */
    method AddMember(net: Net)
      modifies this`nets
      ensures nets == old(nets) + [net]
      ensures old(nets) != [] ==> nets[0] == old(nets[0])
    {
      nets := nets + [net];
    }

    /**
     * `testCompatibility(net)`: the distance from `net` to the representative
     * `nets[0]`, or to no net at all (`undefined`) in an empty species.
     */
    method TestCompatibility(net: Net, compatibility: (Net, Option<Net>) -> real) returns (r: real)
      ensures nets != [] ==> r == compatibility(net, Some(nets[0]))
      ensures nets == [] ==> r == compatibility(net, None)
    {
      var representative := if nets != [] then Some(nets[0]) else None;
      r := compatibility(net, representative);
    }

    /**
     * `repopulate()`: the members, sorted by fitness and cut down by
     * `KillAmount`, are replaced by their offspring.
     */
    method Repopulate(fitness: Net -> real, breed: Breeding -> Net)
      modifies this`nets
      ensures nets == Bred(breed, Brood(old(nets), fitness))
    {
      ghost var plan := Brood(nets, fitness);
      var members := SortByFitness(nets, fitness);
      var killAmount: int := KillAmount(|members|);
      members := Splice(members, killAmount * -1).kept;
      var offspring: seq<Net> := [];
      ghost var head: seq<Breeding> := [];
      if |members| % 2 == 1 {
        var cut := Splice(members, -1);
        members := cut.kept;
        var oddOneOut := cut.removed[0];
        offspring := offspring + [breed(Mutant(oddOneOut))];
        head := [Mutant(oddOneOut)];
      }
      assert plan == head + PairLoop(members);
      assert offspring == Bred(breed, head);
      var pairs := PairUp(members, breed);
      offspring := offspring + pairs;
      assert offspring == Bred(breed, plan) by {
        BredAppend(breed, head, PairLoop(members));
      }
      nets := offspring;
    }
  }

  /**
   * The pair loop of `repopulate`: for `i = 0, 2, 4, ..` below `|nets|`, four
   * offspring of `pair = nets.slice(i, i + 1)`, each `pair[0].crossover(pair[1]).mutate()`.
   */
  method PairUp(nets: seq<Net>, breed: Breeding -> Net) returns (offspring: seq<Net>)
    ensures offspring == Bred(breed, PairLoop(nets))
  {
    offspring := [];
    var i := 0;
    ghost var t := 0;
    while i < |nets|
      invariant i == 2 * t <= |nets| + 1
      invariant offspring == Bred(breed, Turns(nets, t))
    {
      var four := BreedTurn(nets, i, breed);
      offspring := offspring + four;
      TurnsStep(breed, nets, t);
      i := i + 2;
      t := t + 1;
    }
    assert t == (|nets| + 1) / 2;
  }

  /**
   * The body of the pair loop at `i`: `pair = nets.slice(i, i + 1)`, then four
   * children of `pair[0]` and `pair[1]`, in order.
   */
  method BreedTurn(nets: seq<Net>, i: nat, breed: Breeding -> Net) returns (four: seq<Net>)
    requires i < |nets|
    ensures four == Bred(breed, Turn(nets, i))
  {
    var pair := Slice(nets, i, i + 1);
    var second := Element(pair, 1);
    var first := pair[0];
    four := [];
    var child := breed(Cross(first, second, 0));
    four := four + [child];
    child := breed(Cross(first, second, 1));
    four := four + [child];
    child := breed(Cross(first, second, 2));
    four := four + [child];
    child := breed(Cross(first, second, 3));
    four := four + [child];
    BredFour(breed, Turn(nets, i));
  }

  /** One more turn of the pair loop appends the offspring of that turn. */
  lemma TurnsStep(breed: Breeding -> Net, nets: seq<Net>, t: nat)
    requires 2 * t < |nets|
    ensures Bred(breed, Turns(nets, t + 1)) == Bred(breed, Turns(nets, t)) + Bred(breed, Turn(nets, 2 * t))
  {
    BredAppend(breed, Turns(nets, t), Turn(nets, 2 * t));
  }

  lemma BredFour(breed: Breeding -> Net, plan: seq<Breeding>)
    requires |plan| == 4
    ensures Bred(breed, plan) == [breed(plan[0]), breed(plan[1]), breed(plan[2]), breed(plan[3])]
  {
    BredAt(breed, plan, 0);
    BredAt(breed, plan, 1);
    BredAt(breed, plan, 2);
    BredAt(breed, plan, 3);
  }
}
