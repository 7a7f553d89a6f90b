/**
 * What `Node.getLayer` computes over a net's arena (src/classes/Node.ts): an
 * unresolved node's layer is one more than the largest layer among the sources
 * of its inbound links, resolved recursively. A ghost `rank` that strictly
 * grows along every inbound link witnesses that the inbound graph is acyclic,
 * which the recursion needs to end.
 */
module Layering {
  import opened Nodes
  import opened Links

  /** Every inbound link is in range, and its source ranks strictly below the node. */
  predicate Ranked(nodes: seq<Node>, links: seq<Link>, rank: seq<nat>) {
    && |rank| == |nodes|
    && forall j, q :: 0 <= j < |nodes| && 0 <= q < |nodes[j].inbound| ==>
         nodes[j].inbound[q] < |links| &&
         links[nodes[j].inbound[q]].src < |nodes| &&
         rank[links[nodes[j].inbound[q]].src] < rank[j]
  }

  /** The source of node `k`'s `q`-th inbound link. */
  function SourceOf(nodes: seq<Node>, links: seq<Link>, rank: seq<nat>, k: nat, q: nat): (s: nat)
    requires Ranked(nodes, links, rank) && k < |nodes| && q < |nodes[k].inbound|
    ensures s < |nodes| && rank[s] < rank[k]
  {
    links[nodes[k].inbound[q]].src
  }

  /**
   * The layer `getLayer()` returns for node `k`: a stored layer that is not
   * negative comes back as it is; an unresolved node without inbound links
   * gets `Math.max()` of nothing, plus one, which stays `-Infinity`. A
   * computed layer is never a negative integer: it is `-Infinity`, at least
   * 0, or `Infinity`.
   */
  function Resolved(nodes: seq<Node>, links: seq<Link>, rank: seq<nat>, k: nat): (r: Layer)
    requires Ranked(nodes, links, rank) && k < |nodes|
    ensures !nodes[k].layer.Unresolved() ==> r == nodes[k].layer
    ensures nodes[k].layer.Unresolved() && nodes[k].inbound == [] ==> r == NegInf
    ensures r.At? ==> r.depth >= 0
    decreases rank[k], 1, 0
  {
    if nodes[k].layer.Unresolved() then Succ(SourceMax(nodes, links, rank, k, |nodes[k].inbound|))
    else nodes[k].layer
  }

  /**
   * `Math.max` over the resolved layers of the sources of node `k`'s first `i`
   * inbound links, never a negative integer.
   */
  function SourceMax(nodes: seq<Node>, links: seq<Link>, rank: seq<nat>, k: nat, i: nat): (r: Layer)
    requires Ranked(nodes, links, rank) && k < |nodes| && i <= |nodes[k].inbound|
    ensures r.At? ==> r.depth >= 0
    decreases rank[k], 0, i
  {
    if i == 0 then NegInf
    else Max(SourceMax(nodes, links, rank, k, i - 1),
             Resolved(nodes, links, rank, SourceOf(nodes, links, rank, k, i - 1)))
  }

  /** The maximum bounds every source layer it ranges over. */
  lemma {:induction false} SourceMaxBounds(nodes: seq<Node>, links: seq<Link>, rank: seq<nat>, k: nat, i: nat)
    requires Ranked(nodes, links, rank) && k < |nodes| && i <= |nodes[k].inbound|
    ensures forall q :: 0 <= q < i ==>
      AtMost(Resolved(nodes, links, rank, SourceOf(nodes, links, rank, k, q)), SourceMax(nodes, links, rank, k, i))
  {
    if i > 0 {
      SourceMaxBounds(nodes, links, rank, k, i - 1);
    }
  }

  /**
   * A node whose layer is computed ends strictly above each of its sources
   * whenever the result is a finite layer.
   */
  lemma ResolvedAboveSources(nodes: seq<Node>, links: seq<Link>, rank: seq<nat>, k: nat)
    requires Ranked(nodes, links, rank) && k < |nodes|
    requires nodes[k].layer.Unresolved() && Resolved(nodes, links, rank, k).At?
    ensures forall q :: 0 <= q < |nodes[k].inbound| ==>
      Below(Resolved(nodes, links, rank, SourceOf(nodes, links, rank, k, q)), Resolved(nodes, links, rank, k))
  {
    var m := SourceMax(nodes, links, rank, k, |nodes[k].inbound|);
    SourceMaxBounds(nodes, links, rank, k, |nodes[k].inbound|);
    forall q | 0 <= q < |nodes[k].inbound|
      ensures Below(Resolved(nodes, links, rank, SourceOf(nodes, links, rank, k, q)), Succ(m))
    {
      SuccAbove(Resolved(nodes, links, rank, SourceOf(nodes, links, rank, k, q)), m);
    }
  }

  /** The maximum is `-Infinity` or the layer of one of the sources it ranges over. */
  lemma {:induction false} SourceMaxAttained(nodes: seq<Node>, links: seq<Link>, rank: seq<nat>, k: nat, i: nat)
    requires Ranked(nodes, links, rank) && k < |nodes| && i <= |nodes[k].inbound|
    ensures var m := SourceMax(nodes, links, rank, k, i);
      m == NegInf || exists q :: 0 <= q < i && m == Resolved(nodes, links, rank, SourceOf(nodes, links, rank, k, q))
  {
    if i > 0 {
      SourceMaxAttained(nodes, links, rank, k, i - 1);
    }
  }

  /**
   * `after` is `before` with some unresolved layers replaced by their computed
   * value (the memo writes of `getLayer`); nothing else differs.
   */
  predicate Memo(before: seq<Node>, after: seq<Node>, links: seq<Link>, rank: seq<nat>)
    requires Ranked(before, links, rank)
  {
    && |after| == |before|
    && forall j :: 0 <= j < |before| ==>
         after[j] == before[j] ||
         (before[j].layer.Unresolved() && after[j] == before[j].(layer := Resolved(before, links, rank, j)))
  }

  /** Memo writes keep the acyclicity witness. */
  lemma MemoRanked(before: seq<Node>, after: seq<Node>, links: seq<Link>, rank: seq<nat>)
    requires Ranked(before, links, rank) && Memo(before, after, links, rank)
    ensures Ranked(after, links, rank)
  {
    assert forall j :: 0 <= j < |after| ==> after[j].inbound == before[j].inbound;
  }

  /** Memo writes change no node's computed layer: memoisation is sound. */
  lemma {:induction false} MemoResolved(before: seq<Node>, after: seq<Node>, links: seq<Link>, rank: seq<nat>, k: nat)
    requires Ranked(before, links, rank) && Memo(before, after, links, rank) && k < |before|
    ensures Ranked(after, links, rank)
    ensures Resolved(after, links, rank, k) == Resolved(before, links, rank, k)
    decreases rank[k], 1, 0
  {
    MemoRanked(before, after, links, rank);
    var n := |before[k].inbound|;
    assert after[k].inbound == before[k].inbound;
    if after[k].layer.Unresolved() || before[k].layer.Unresolved() {
      MemoSourceMax(before, after, links, rank, k, n);
    }
  }

  lemma {:induction false} MemoSourceMax(before: seq<Node>, after: seq<Node>, links: seq<Link>, rank: seq<nat>, k: nat, i: nat)
    requires Ranked(before, links, rank) && Memo(before, after, links, rank) && k < |before|
    requires i <= |before[k].inbound|
    ensures Ranked(after, links, rank) && i <= |after[k].inbound|
    ensures SourceMax(after, links, rank, k, i) == SourceMax(before, links, rank, k, i)
    decreases rank[k], 0, i
  {
    MemoRanked(before, after, links, rank);
    assert after[k].inbound == before[k].inbound;
    if i > 0 {
      MemoSourceMax(before, after, links, rank, k, i - 1);
      MemoResolved(before, after, links, rank, SourceOf(before, links, rank, k, i - 1));
    }
  }

  /** Two rounds of memo writes are one round of memo writes. */
  lemma MemoTrans(a: seq<Node>, b: seq<Node>, c: seq<Node>, links: seq<Link>, rank: seq<nat>)
    requires Ranked(a, links, rank) && Memo(a, b, links, rank)
    requires Ranked(b, links, rank) && Memo(b, c, links, rank)
    ensures Memo(a, c, links, rank)
  {
    forall j | 0 <= j < |a|
      ensures c[j] == a[j] ||
              (a[j].layer.Unresolved() && c[j] == a[j].(layer := Resolved(a, links, rank, j)))
    {
      if c[j] != b[j] {
        MemoResolved(a, b, links, rank, j);
      }
    }
  }
}
