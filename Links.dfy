/**
 * Link genes (src/classes/Link.ts). A link names its endpoints by their index
 * in the owning net's node list.
 */
module Links {
  import opened Nodes
  import Decimal

  /** The `Link` constructor stores every option as given. */
  datatype Link = Link(innovation: nat, src: nat, dst: nat, enabled: bool, weight: real)

  /**
   * `getId`: the source node's id, a dash, the target node's id. Both ids can
   * be read back: the digits before the first non-digit are the source's id,
   * that character is the dash, and the digits after it are the target's id.
   */
  function GetId(lk: Link, nodes: seq<Node>): (r: string)
    requires lk.src < |nodes| && lk.dst < |nodes|
    ensures var n := Decimal.DigitRun(r);
      && n < |r| && r[n] == '-'
      && Decimal.AllDigits(r[..n]) && Decimal.ParseNat(r[..n]) == nodes[lk.src].id
      && Decimal.AllDigits(r[n + 1..]) && Decimal.ParseNat(r[n + 1..]) == nodes[lk.dst].id
  {
    var x, y := Decimal.NatToString(nodes[lk.src].id), Decimal.NatToString(nodes[lk.dst].id);
    var r := Decimal.Join(nodes[lk.src].id, '-', nodes[lk.dst].id);
    Decimal.DigitRunStopsAtSeparator(x, '-', y);
    Decimal.ParseNatToString(nodes[lk.src].id);
    Decimal.ParseNatToString(nodes[lk.dst].id);
    assert r[..|x|] == x && r[|x| + 1..] == y;
    r
  }

  /** Two links have the same id exactly when their endpoints carry the same ids, since `GetId` reads both back. */
  lemma GetIdInjective(a: Link, b: Link, nodes: seq<Node>)
    requires a.src < |nodes| && a.dst < |nodes| && b.src < |nodes| && b.dst < |nodes|
    ensures GetId(a, nodes) == GetId(b, nodes) <==>
            nodes[a.src].id == nodes[b.src].id && nodes[a.dst].id == nodes[b.dst].id
  {
  }

  /**
   * `getLinkValue`: the weight times the source node's cached value. It is
   * zero exactly when one of the two is, and positive exactly when they have
   * the same sign.
   */
  function GetLinkValue(lk: Link, nodes: seq<Node>): (r: real)
    requires lk.src < |nodes|
    ensures r == 0.0 <==> lk.weight == 0.0 || nodes[lk.src].value == 0.0
    ensures r > 0.0 <==> (lk.weight > 0.0 && nodes[lk.src].value > 0.0) || (lk.weight < 0.0 && nodes[lk.src].value < 0.0)
  {
    lk.weight * nodes[lk.src].value
  }

  /** The link value reads only the weight and the source's value, not `enabled` or the target. */
  lemma GetLinkValueReads(a: Link, b: Link, na: seq<Node>, nb: seq<Node>)
    requires a.src < |na| && b.src < |nb|
    requires a.weight == b.weight && na[a.src].value == nb[b.src].value
    ensures GetLinkValue(a, na) == GetLinkValue(b, nb)
  {
  }
}
