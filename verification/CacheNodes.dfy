/**
 The heap nodes of LFU and ARC: each carries an entry, the group it belongs to (a frequency, or the
 name of a list) and a pointer to the list node it sits in, through which it is removed in one step.
 */
module CacheNodes {
  import opened Basics
  import opened KeyLists
  import opened LinkedList

  class CacheNode<G> {
    const key: Key
    var value: Bytes
    var group: G
    var expiresAt: Deadline
    var listNode: Node?<CacheNode<G>>

    constructor (key: Key, value: Bytes, group: G, expiresAt: Deadline)
      ensures this.key == key && this.value == value && this.group == group && this.expiresAt == expiresAt
    {
      this.key, this.value, this.group, this.expiresAt, listNode := key, value, group, expiresAt, null;
    }
  }

  type Chain<G> = seq<Node<CacheNode<G>>>

  /** The keys along a chain of list nodes. */
  ghost function KeysOf<G>(chain: Chain<G>): (s: seq<Key>)
    ensures |s| == |chain| && forall i :: 0 <= i < |s| ==> s[i] == chain[i].value.key
  {
    seq(|chain|, i requires 0 <= i < |chain| => chain[i].value.key)
  }

  /** The nodes of a chain are the map's nodes of group `g`, each pointing back at its list node. */
  ghost predicate Linked<G>(chain: Chain<G>, g: G, nodes: map<Key, CacheNode<G>>)
    reads nodes.Values
  {
    forall i :: 0 <= i < |chain| ==>
      var n := chain[i].value;
      n.key in nodes && nodes[n.key] == n && Points(n, g, chain[i])
  }

  ghost predicate Points<G>(n: CacheNode<G>, g: G, x: Node<CacheNode<G>>)
    reads n
  {
    n.group == g && n.listNode == x
  }

  lemma LinkedCut<G>(chain: Chain<G>, i: nat, g: G, nodes: map<Key, CacheNode<G>>)
    requires i < |chain| && Linked(chain, g, nodes)
    ensures Linked(chain[..i] + chain[i + 1..], g, nodes)
  {
    var cut := chain[..i] + chain[i + 1..];
    assert forall j :: 0 <= j < |cut| ==> cut[j] == chain[if j < i then j else j + 1];
  }

  lemma PointsNow<G>(n: CacheNode<G>, x: Node<CacheNode<G>>)
    requires n.listNode == x
    ensures Points(n, n.group, x)
  {
  }

  ghost predicate NotIn<G>(chain: Chain<G>, n: CacheNode<G>) {
    forall i :: 0 <= i < |chain| ==> chain[i].value != n
  }

  lemma KeysDistinct<G>(chain: Chain<G>, g: G, nodes: map<Key, CacheNode<G>>)
    requires Linked(chain, g, nodes) && forall a, b :: 0 <= a < b < |chain| ==> chain[a] != chain[b]
    ensures forall a, b :: 0 <= a < b < |chain| ==> chain[a].value.key != chain[b].value.key
  {
    forall a, b | 0 <= a < b < |chain| ensures chain[a].value.key != chain[b].value.key {
      assert chain[a].value.listNode == chain[a] && chain[b].value.listNode == chain[b];
    }
  }

  lemma KeysCut<G>(chain: Chain<G>, i: nat)
    requires i < |chain| && forall a, b :: 0 <= a < b < |chain| ==> chain[a].value.key != chain[b].value.key
    ensures KeysOf(chain[..i] + chain[i + 1..]) == Without(KeysOf(chain), chain[i].value.key)
    ensures NotIn(chain[..i] + chain[i + 1..], chain[i].value)
  {
    var s, cut := KeysOf(chain), chain[..i] + chain[i + 1..];
    WithoutAt(s, i);
    assert KeysOf(cut) == s[..i] + s[i + 1..];
    assert forall j :: 0 <= j < |cut| ==> cut[j] == chain[if j < i then j else j + 1];
  }

  lemma KeysPush<G>(x: Node<CacheNode<G>>, chain: Chain<G>)
    ensures KeysOf([x] + chain) == [x.value.key] + KeysOf(chain)
  {
  }

  lemma CutSubset<G>(chain: Chain<G>, i: nat)
    requires i < |chain|
    ensures forall x :: x in chain[..i] + chain[i + 1..] ==> x in chain
  {
  }
}
