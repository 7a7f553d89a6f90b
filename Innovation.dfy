/**
 * The innovation registry shared by a population: an append-only list of
 * link signatures in which a signature's index is its innovation id
 * (`getLinkInnovation` in Population and in Network).
 */
module Innovation {
  import Decimal

  /** No signature occurs twice. */
  predicate Distinct<K(==)>(s: seq<K>) {
    forall i, j :: 0 <= i < j < |s| ==> s[i] != s[j]
  }

  /** Two lists without repeats and with no key in common make a list without repeats. */
  lemma DistinctAppend<K>(a: seq<K>, b: seq<K>)
    requires Distinct(a) && Distinct(b)
    requires forall x, y :: 0 <= x < |a| && 0 <= y < |b| ==> a[x] != b[y]
    ensures Distinct(a + b)
  {
    forall x, y | 0 <= x < y < |a + b|
      ensures (a + b)[x] != (a + b)[y]
    {
      if y < |a| {
        assert (a + b)[x] == a[x] && (a + b)[y] == a[y];
      } else if x < |a| {
        assert (a + b)[x] == a[x] && (a + b)[y] == b[y - |a|];
      } else {
        assert (a + b)[x] == b[x - |a|] && (a + b)[y] == b[y - |a|];
      }
    }
  }

  /** `Array.prototype.indexOf`: the first position of `key`, or -1 when it is absent. */
  function IndexOf<K(==)>(links: seq<K>, key: K): (pos: int)
    ensures -1 <= pos < |links|
    ensures pos == -1 <==> key !in links
    ensures 0 <= pos ==> links[pos] == key && key !in links[..pos]
  {
    if links == [] then -1
    else if links[0] == key then 0
    else
      var p := IndexOf(links[1..], key);
      assert links[1..][..p + 1] == links[1..p + 2] by { }
      if p < 0 then -1 else p + 1
  }

  /** Outcome of one registration: the id handed out and the registry afterwards. */
  datatype Registered<K> = Registered(id: nat, links: seq<K>)

  /**
   * `getLinkInnovation(key)`: a known key gets its first index back and leaves the
   * registry as it is; an unknown key is appended and gets the old length.
   */
  function Register<K(==)>(links: seq<K>, key: K): (r: Registered<K>)
    ensures r.id < |r.links| && r.links[r.id] == key && key !in r.links[..r.id]
    ensures key in links ==> r.links == links
    ensures key !in links ==> r.links == links + [key] && r.id == |links|
  {
    var pos := IndexOf(links, key);
    if pos >= 0 then Registered(pos, links) else Registered(|links|, links + [key])
  }

  /** Earlier ids never change: the old registry is a prefix of the new one. */
  lemma RegisterExtends<K>(links: seq<K>, key: K)
    ensures links <= Register(links, key).links
    ensures |Register(links, key).links| <= |links| + 1
  {
  }

  /** A second call with the same key returns the same id and changes nothing. */
  lemma RegisterIdempotent<K>(links: seq<K>, key: K)
    ensures Register(Register(links, key).links, key) == Register(links, key)
  {
  }

  /** Registration keeps the registry free of duplicates, so ids stay dense `0..|links|-1`. */
  lemma RegisterKeepsDistinct<K>(links: seq<K>, key: K)
    requires Distinct(links)
    ensures Distinct(Register(links, key).links)
  {
  }

  /** In a list without repeats, the key at `k` is found at `k`. */
  lemma IndexOfAt<K>(links: seq<K>, k: nat, key: K)
    requires Distinct(links) && k < |links| && links[k] == key
    ensures IndexOf(links, key) == k
  {
    IndexOfDistinct(links, k);
  }

  /** In a registry without duplicates the id of a key is the one index holding it. */
  lemma IndexOfDistinct<K>(links: seq<K>, k: nat)
    requires Distinct(links) && k < |links|
    ensures IndexOf(links, links[k]) == k
  {
    var p := IndexOf(links, links[k]);
    assert links[p] == links[k];
  }

  /** The id a key is registered under is what a later lookup of that key returns. */
  lemma RegisterIdIsIndexOf<K>(links: seq<K>, key: K)
    ensures var r := Register(links, key); IndexOf(r.links, key) == r.id
  {
  }

  /** Appending to a registry keeps the id of every key already in it. */
  lemma IndexOfExtended<K>(links: seq<K>, more: seq<K>, key: K)
    requires key in links
    ensures IndexOf(links + more, key) == IndexOf(links, key)
  {
    var p := IndexOf(links, key);
    assert (links + more)[p] == key;
    assert (links + more)[..p] == links[..p];
  }

  /** Every id `before` handed out is still the id `after` gives. */
  predicate KeepsIds<K(==)>(before: seq<K>, after: seq<K>) {
    forall known :: known in before ==> IndexOf(after, known) == IndexOf(before, known)
  }

  /** Registering a key never changes the id of another. */
  lemma RegisterKeepsIds<K>(links: seq<K>, key: K)
    ensures KeepsIds(links, Register(links, key).links)
  {
    var r := Register(links, key).links;
    forall known | known in links
      ensures IndexOf(r, known) == IndexOf(links, known)
    {
      IndexOfExtended(links, r[|links|..], known);
      assert links + r[|links|..] == r;
    }
  }

  /** The registry after registering `keys` one after another, in order. */
  function RegisterAll<K(==)>(links: seq<K>, keys: seq<K>): (r: seq<K>)
    ensures links <= r
    decreases |keys|
  {
    if keys == [] then links
    else
      var front := keys[..|keys| - 1];
      Register(RegisterAll(links, front), keys[|keys| - 1]).links
  }

  /** Registering keys that are all known already leaves the registry unchanged. */
  lemma {:induction false} RegisterAllKnown<K>(links: seq<K>, keys: seq<K>)
    requires forall k :: k in keys ==> k in links
    ensures RegisterAll(links, keys) == links
    decreases |keys|
  {
    if keys != [] {
      var front := keys[..|keys| - 1];
      assert forall k :: k in front ==> k in keys;
      RegisterAllKnown(links, front);
    }
  }

  /** Every key asked for is in the registry afterwards. */
  lemma {:induction false} RegisterAllContains<K>(links: seq<K>, keys: seq<K>)
    ensures forall k :: k in keys ==> k in RegisterAll(links, keys)
    decreases |keys|
  {
    if keys != [] {
      var front, last := keys[..|keys| - 1], keys[|keys| - 1];
      RegisterAllContains(links, front);
      var x := RegisterAll(links, front);
      assert forall k :: k in keys ==> k in front || k == last by {
        assert keys == front + [last];
      }
      assert x <= Register(x, last).links && last in Register(x, last).links;
    }
  }

  /** Registering the same key list twice is the same as registering it once. */
  lemma RegisterAllIdempotent<K>(links: seq<K>, keys: seq<K>)
    ensures RegisterAll(RegisterAll(links, keys), keys) == RegisterAll(links, keys)
  {
    RegisterAllContains(links, keys);
    RegisterAllKnown(RegisterAll(links, keys), keys);
  }

  /** Fresh, pairwise different keys are appended in order, each once. */
  lemma {:induction false} RegisterAllFresh<K>(links: seq<K>, keys: seq<K>)
    requires Distinct(keys)
    requires forall k :: k in keys ==> k !in links
    ensures RegisterAll(links, keys) == links + keys
    decreases |keys|
  {
    if keys != [] {
      var front, last := keys[..|keys| - 1], keys[|keys| - 1];
      FreshSplit(links, keys);
      RegisterAllFresh(links, front);
      RegisterAllLast(links, keys);
      var grown := links + front;
      assert Register(grown, last).links == grown + [last];
      FrontLast(keys);
      assert grown + [last] == links + keys;
    }
  }

  /** The front of a fresh, duplicate-free key list is one too, and its last key is new after it. */
  lemma FreshSplit<K>(links: seq<K>, keys: seq<K>)
    requires keys != [] && Distinct(keys)
    requires forall k :: k in keys ==> k !in links
    ensures var front := keys[..|keys| - 1];
      && Distinct(front) && (forall k :: k in front ==> k !in links)
      && keys[|keys| - 1] !in links + front
  {
    var front, last := keys[..|keys| - 1], keys[|keys| - 1];
    assert forall k :: k in front ==> k in keys;
    assert forall j :: 0 <= j < |front| ==> front[j] == keys[j] != last;
  }

  /** A registry without duplicates keeps none, however many keys are registered. */
  lemma {:induction false} RegisterAllKeepsDistinct<K>(links: seq<K>, keys: seq<K>)
    requires Distinct(links)
    ensures Distinct(RegisterAll(links, keys))
    decreases |keys|
  {
    if keys != [] {
      RegisterAllKeepsDistinct(links, keys[..|keys| - 1]);
      RegisterKeepsDistinct(RegisterAll(links, keys[..|keys| - 1]), keys[|keys| - 1]);
    }
  }

  lemma FrontLast<K>(s: seq<K>)
    requires s != []
    ensures s[..|s| - 1] + [s[|s| - 1]] == s
  {
  }

  /** Registering a non-empty list registers its last key after all the others. */
  lemma RegisterAllLast<K>(links: seq<K>, keys: seq<K>)
    requires keys != []
    ensures RegisterAll(links, keys) == Register(RegisterAll(links, keys[..|keys| - 1]), keys[|keys| - 1]).links
  {
  }

  /** Registering `a` and then `b` is registering `a + b`. */
  lemma {:induction false} RegisterAllAppend<K>(links: seq<K>, a: seq<K>, b: seq<K>)
    ensures RegisterAll(RegisterAll(links, a), b) == RegisterAll(links, a + b)
    decreases |b|
  {
    if b == [] {
      assert a + b == a;
    } else {
      var front, last := b[..|b| - 1], b[|b| - 1];
      FrontLast(b);
      assert a + b == (a + front) + [last];
      RegisterAllAppend(links, a, front);
      RegisterAllSnoc(RegisterAll(links, a), front, last);
      RegisterAllSnoc(links, a + front, last);
    }
  }

  /** Registering `front + [last]` registers `last` after `front`. */
  lemma RegisterAllSnoc<K>(links: seq<K>, front: seq<K>, last: K)
    ensures RegisterAll(links, front + [last]) == Register(RegisterAll(links, front), last).links
  {
    var keys := front + [last];
    assert keys[..|keys| - 1] == front;
  }

  /**
   * The signature of the link from input position `input` to node `node`.
   * The registry stores it as the text `${input}_${node}` (`Text`); since
   * that text determines the pair (`TextInjective`), a registry of pairs hands
   * out exactly the ids a registry of texts does (`RegisterTexts`).
   */
  datatype Key = Key(input: nat, node: nat)

  function Text(k: Key): string {
    Decimal.Join(k.input, '_', k.node)
  }

  lemma TextInjective(k: Key, k': Key)
    ensures Text(k) == Text(k') <==> k == k'
  {
    Decimal.JoinInjective(k.input, k.node, k'.input, k'.node, '_');
  }

  /** A registry of pairs, written out as texts. */
  function Texts(reg: seq<Key>): (r: seq<string>)
    ensures |r| == |reg| && forall i :: 0 <= i < |reg| ==> r[i] == Text(reg[i])
  {
    if reg == [] then [] else Texts(reg[..|reg| - 1]) + [Text(reg[|reg| - 1])]
  }

  /** Looking a text up finds the position of its pair. */
  lemma {:induction false} IndexOfTexts(reg: seq<Key>, k: Key)
    ensures IndexOf(Texts(reg), Text(k)) == IndexOf(reg, k)
    decreases |reg|
  {
    if reg != [] {
      TextInjective(reg[0], k);
      assert Texts(reg)[1..] == Texts(reg[1..]);
      IndexOfTexts(reg[1..], k);
    }
  }

  /** Registering a pair and registering its text hand out the same id and leave matching registries. */
  lemma RegisterTexts(reg: seq<Key>, k: Key)
    ensures var r := Register(reg, k);
      Register(Texts(reg), Text(k)) == Registered(r.id, Texts(r.links))
  {
    IndexOfTexts(reg, k);
    assert Texts(reg + [k]) == Texts(reg) + [Text(k)];
  }
}
