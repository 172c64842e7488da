/**
 The LFU cache as the source runs it: heap nodes in one linked list per frequency, and a lazily kept
 minimum, proved against `LfuSpec`.
 */
module LfuCache {
  import opened Basics
  import opened CacheContract
  import opened KeyLists
  import opened LinkedList
  import opened CacheNodes
  import opened LfuBuckets
  import LfuSpec

  type LfuNode = CacheNode<int>

  /** What a node says. */
  datatype Card = Card(value: Bytes, freq: int, expiresAt: Deadline)

  function CardOf(e: LfuSpec.Entry): Card {
    Card(e.item.value, e.freq, e.item.deadline)
  }

  ghost function Said(n: LfuNode): Card
    reads n
  {
    Card(n.value, n.group, n.expiresAt)
  }

  /**
   `minFreq` never exceeds a present frequency, and is present itself when the cache is full.
   Deletion and expiry may leave it too low otherwise.
   */
  predicate MinFreqOk(minFreq: int, b: Buckets, s: LfuSpec.State) {
    && (forall k :: k in s.entries ==> minFreq <= s.entries[k].freq)
    && (|s.entries| >= s.capacity ==> minFreq in b)
  }

  /** The nodes say what the entries do, but for their stamps. */
  predicate Mirrors(cards: map<Key, Card>, entries: map<Key, LfuSpec.Entry>) {
    cards.Keys == entries.Keys && forall k :: k in cards ==> cards[k] == CardOf(entries[k])
  }

  class LfuCache {
    const capacity: nat
    var minFreq: int
    var items: map<Key, LfuNode>
    var freqList: map<int, List<LfuNode>>
    var bytesStored: int
    /** The state of the policy's definition, and all heap objects the cache may change. */
    ghost var spec: LfuSpec.State
    ghost var repr: set<object>
    /** All list nodes among them. */
    ghost var cells: set<Node<LfuNode>>

    // ---------- nodes and lists ----------

    /** Different well-formed lists for different frequencies. */
    ghost predicate Apart()
      reads `freqList, `cells, freqList.Values, cells
    {
      && (forall f, g :: f in freqList && g in freqList && freqList[f] == freqList[g] ==> f == g)
      && (forall f, x :: f in freqList && x in freqList[f].chain ==> x in cells)
      && (forall f :: f in freqList ==> freqList[f].Valid())
    }

    /** The lists hold nodes of the map that know their frequency and their place. */
    ghost predicate Wired()
      reads `freqList, `items, `cells, freqList.Values, cells, items.Values
    {
      && Apart()
      && (forall k :: k in items ==> items[k].key == k)
      && (forall f :: f in freqList ==> Linked(freqList[f].chain, f, items))
    }

    ghost predicate Owned()
      reads `repr, `freqList, `items, `cells
    {
      && this in repr
      && (forall f :: f in freqList ==> freqList[f] in repr)
      && (forall x :: x in cells ==> x in repr)
      && (forall k :: k in items ==> items[k] in repr)
    }

    /** The buckets the lists stand for, and the cards the nodes stand for. */
    ghost function Shown(): Buckets
      reads `freqList, freqList.Values
    {
      map f | f in freqList :: KeysOf(freqList[f].chain)
    }

    ghost function Cards(): map<Key, Card>
      reads `items, items.Values
    {
      map k | k in items :: Said(items[k])
    }

    // ---------- against the definition ----------

    /** All of it but the minimum, which some steps leave for later. */
    ghost predicate Structured()
      reads this, freqList.Values, cells, items.Values
    {
      && Wired() && Owned()
      && LfuSpec.Valid(spec) && spec.capacity == capacity
      && Mirrors(Cards(), spec.entries)
      && Bucketed(Shown(), spec.entries)
      && bytesStored == TotalBytes(LfuSpec.Holds(spec))
    }

    ghost predicate Valid()
      reads this, freqList.Values, cells, items.Values
    {
      Structured() && MinFreqOk(minFreq, Shown(), spec)
    }

    constructor (capacity: int)
      ensures Valid() && fresh(repr) && spec == LfuSpec.Empty(if capacity <= 0 then 1 else capacity)
    {
      hide *;
      LfuSpec.StartsValid(if capacity <= 0 then 1 else capacity);
      this.capacity := if capacity <= 0 then 1 else capacity;
      minFreq, items, freqList, bytesStored := 0, map[], map[], 0;
      spec := LfuSpec.Empty(if capacity <= 0 then 1 else capacity);
      repr, cells := {this}, {};
      new;
      NothingYet();
    }

    lemma ChainsApart(f: int, g: int, x: Node<LfuNode>)
      requires Wired() && f in freqList && g in freqList && x in freqList[f].chain && x in freqList[g].chain
      ensures f == g
    {
      assert Linked(freqList[f].chain, f, items) && Linked(freqList[g].chain, g, items);
    }

    lemma BackPointer(n: LfuNode, i: nat)
      requires Wired() && n.group in freqList && i < |freqList[n.group].chain| && freqList[n.group].chain[i].value == n
      ensures n.listNode == freqList[n.group].chain[i] && Linked(freqList[n.group].chain, n.group, items)
    {
      assert Linked(freqList[n.group].chain, n.group, items);
    }

    /** Unlink a node from the list of its frequency, through its own list node. */
    method RemoveFromList(n: LfuNode, ghost i: nat)
      requires Wired() && n.group in freqList && i < |freqList[n.group].chain| && freqList[n.group].chain[i].value == n
      modifies freqList[n.group], freqList[n.group].chain
      ensures Wired()
      ensures freqList[n.group].chain == old(freqList[n.group].chain)[..i] + old(freqList[n.group].chain)[i + 1..]
      ensures forall g :: g in freqList && g != n.group ==> freqList[g].chain == old(freqList[g].chain)
    {
      hide Linked;
      var l := freqList[n.group];
      ghost var chain := l.chain;
      BackPointer(n, i);
      forall g, j | g in freqList && g != n.group && 0 <= j < |freqList[g].chain| ensures freqList[g].chain[j] !in chain {
        if freqList[g].chain[j] in chain {
          ChainsApart(g, n.group, freqList[g].chain[j]);
        }
      }
      l.Remove(n.listNode, i);
      assert forall x :: x in l.chain ==> x in chain && x in cells;
      forall g | g in freqList ensures freqList[g].Valid() && Linked(freqList[g].chain, g, items) {
        assert old(freqList[g].Valid() && Linked(freqList[g].chain, g, items));
        if g == n.group {
          LinkedCut(chain, i, g, items);
        }
      }
    }

    /** A new list node at the front of a list; the other lists are untouched. */
    method PushNode(n: LfuNode, f: int) returns (x: Node<LfuNode>)
      requires Wired() && f in freqList
      modifies `cells, freqList[f], freqList[f].chain
      ensures Apart() && cells == old(cells) + {x} && fresh(x) && x.value == n && freqList[f].chain == [x] + old(freqList[f].chain)
      ensures forall g :: g in freqList && g != f ==> freqList[g].chain == old(freqList[g].chain)
    {
      hide Linked;
      var l := freqList[f];
      ghost var chain := l.chain;
      forall g, j | g in freqList && g != f && 0 <= j < |freqList[g].chain| ensures freqList[g].chain[j] !in chain {
        if freqList[g].chain[j] in chain {
          ChainsApart(g, f, freqList[g].chain[j]);
        }
      }
      x := l.PushFront(n);
      cells := cells + {x};
      forall g | g in freqList ensures freqList[g].Valid() && (g != f ==> freqList[g].chain == old(freqList[g].chain)) {
        assert old(freqList[g].Valid());
      }
    }

    /** Point a node at its new list node `x`, which stands at the front of the list of `f`. */
    method Fill(n: LfuNode, f: int, x: Node<LfuNode>, ghost rest: Chain<int>)
      requires Apart() && n.key in items && items[n.key] == n && x.value == n && f in freqList
      requires forall k :: k in items ==> items[k].key == k
      requires freqList[f].chain == [x] + rest && Linked(rest, f, items) && NotIn(rest, n)
      requires forall g :: g in freqList && g != f ==> Linked(freqList[g].chain, g, items) && NotIn(freqList[g].chain, n)
      modifies n
      ensures Wired() && n.group == f && n.listNode == x && n.value == old(n.value) && n.expiresAt == old(n.expiresAt)
    {
      n.group, n.listNode := f, x;
      hide Points;
      forall g | g in freqList ensures Linked(freqList[g].chain, g, items) {
        var c := freqList[g].chain;
        forall i | 0 <= i < |c| ensures c[i].value.key in items && items[c[i].value.key] == c[i].value && Points(c[i].value, g, c[i]) {
          if g == f && i == 0 {
            PointsNow(n, x);
          } else if g == f {
            assert c[i] == rest[i - 1];
            assert old(Points(c[i].value, g, c[i]));
          } else {
            assert old(Points(c[i].value, g, c[i]));
          }
        }
      }
    }

    /** Link a node that is in no list at the front of the list of `f`. */
    method PushFront(n: LfuNode, f: int)
      requires Wired() && n.key in items && items[n.key] == n && f in freqList
      requires forall g :: g in freqList ==> NotIn(freqList[g].chain, n)
      modifies `cells, n, freqList[f], freqList[f].chain
      ensures Wired() && n.listNode != null && cells == old(cells) + {n.listNode} && n.group == f && n.value == old(n.value) && n.expiresAt == old(n.expiresAt)
      ensures n.listNode != null && fresh(n.listNode) && freqList[f].chain == [n.listNode] + old(freqList[f].chain)
      ensures n.listNode.value == n
      ensures forall g :: g in freqList && g != f ==> freqList[g].chain == old(freqList[g].chain)
    {
      ghost var rest := freqList[f].chain;
      var x := PushNode(n, f);
      Fill(n, f, x, rest);
    }

    /** A node stands at exactly one place of the list of its frequency. */
    lemma Standing(n: LfuNode) returns (i: nat)
      requires Wired() && n.key in items && items[n.key] == n && n.group in freqList && n.key in Shown()[n.group]
      ensures i < |freqList[n.group].chain| && freqList[n.group].chain[i].value == n
      ensures var chain := freqList[n.group].chain;
        var cut := chain[..i] + chain[i + 1..];
        KeysOf(cut) == Without(KeysOf(chain), n.key) && NotIn(cut, n)
    {
      var chain := freqList[n.group].chain;
      var s := KeysOf(chain);
      i :| 0 <= i < |s| && s[i] == n.key;
      assert Linked(chain, n.group, items) && freqList[n.group].Valid();
      KeysDistinct(chain, n.group, items);
      KeysCut(chain, i);
    }

    lemma NotElsewhere(n: LfuNode, f: int)
      requires Wired() && f in freqList && f != n.group
      ensures NotIn(freqList[f].chain, n)
    {
      assert Linked(freqList[f].chain, f, items);
    }

    /** Forget the list of a frequency that no node has. */
    method DropList(f: int)
      requires Wired() && Owned() && f in freqList && freqList[f].chain == []
      modifies `freqList
      ensures Wired() && Owned() && freqList == old(freqList) - {f} && Shown() == old(Shown()) - {f}
    {
      freqList := freqList - {f};
    }

    /** Take a node out of the list of its frequency. */
    method TakeOut(n: LfuNode)
      requires Wired() && Owned() && n.key in items && items[n.key] == n && n.group in freqList && n.key in Shown()[n.group]
      modifies freqList[n.group], freqList[n.group].chain
      ensures Wired() && Owned() && Cards() == old(Cards())
      ensures Shown() == old(Shown())[n.group := Without(old(Shown())[n.group], n.key)]
      ensures forall f :: f in freqList ==> NotIn(freqList[f].chain, n)
    {
      hide Wired, NotIn, KeysOf, Without;
      ghost var was := Shown();
      ghost var i := Standing(n);
      ghost var next := was[n.group := Without(was[n.group], n.key)];
      RemoveFromList(n, i);
      assert forall k :: k in items ==> Said(items[k]) == old(Said(items[k]));
      forall f | f in freqList ensures NotIn(freqList[f].chain, n) {
        if f != n.group {
          NotElsewhere(n, f);
        }
      }
      assert Shown().Keys == next.Keys;
      forall f | f in freqList ensures Shown()[f] == next[f] {
        assert f != n.group ==> freqList[f].chain == old(freqList[f].chain);
      }
    }

    /** And drop the list when that empties it. */
    method Unhook(n: LfuNode)
      requires Wired() && Owned() && n.key in items && items[n.key] == n && n.group in freqList && n.key in Shown()[n.group]
      modifies `freqList, freqList[n.group], freqList[n.group].chain
      ensures Wired() && Owned() && Cards() == old(Cards())
      ensures Shown() == Unlink(old(Shown()), n.group, n.key)
      ensures forall f :: f in freqList ==> NotIn(freqList[f].chain, n)
    {
      hide Wired, Owned, NotIn, KeysOf, Without;
      ghost var b := Shown();
      TakeOut(n);
      WellFormed(n.group);
      UnlinkIs(b, n.group, n.key);
      if freqList[n.group].len == 0 {
        DropList(n.group);
      }
    }

    /** Own one more object, perhaps a new node of one of the lists. */
    ghost method Own(o: object)
      requires Wired() && this in repr
      requires forall f :: f in freqList ==> freqList[f] in repr
      requires forall x :: x in cells ==> x in repr || x == o
      requires forall k :: k in items ==> items[k] in repr || items[k] == o
      modifies `repr
      ensures Wired() && Owned() && repr == old(repr) + {o} && Shown() == old(Shown()) && Cards() == old(Cards())
    {
      repr := repr + {o};
    }

    method NewList() returns (l: List<LfuNode>)
      requires Wired() && Owned()
      modifies `repr
      ensures Wired() && Owned() && fresh(l) && repr == old(repr) + {l} && l.Valid() && l.chain == []
      ensures Shown() == old(Shown()) && Cards() == old(Cards())
    {
      l := new List();
      Own(l);
    }

    /** Take in an empty list for a frequency that has none. */
    method AddList(f: int, l: List<LfuNode>, ghost n: LfuNode)
      requires Wired() && Owned() && f !in freqList && l.Valid() && l.chain == [] && l in repr
      requires forall g :: g in freqList ==> freqList[g] != l && NotIn(freqList[g].chain, n)
      modifies `freqList
      ensures Wired() && Owned() && freqList == old(freqList)[f := l] && Shown() == old(Shown())[f := []]
      ensures Cards() == old(Cards())
      ensures forall g :: g in freqList ==> NotIn(freqList[g].chain, n)
    {
      freqList := freqList[f := l];
    }

    /** Make sure that there is a list for a frequency. */
    method EnsureList(f: int, ghost n: LfuNode)
      requires Wired() && Owned() && forall g :: g in freqList ==> NotIn(freqList[g].chain, n)
      modifies `freqList, `repr
      ensures Wired() && Owned() && fresh(repr - old(repr)) && f in freqList
      ensures Shown() == old(Shown())[f := KeysAt(old(Shown()), f)] && Cards() == old(Cards())
      ensures forall g :: g in freqList ==> NotIn(freqList[g].chain, n)
    {
      hide Wired, NotIn, KeysOf;
      if f !in freqList {
        var l := NewList();
        assert forall g :: g in freqList ==> freqList[g] != l;
        AddList(f, l, n);
      } else {
        assert Shown()[f := Shown()[f]] == Shown();
      }
    }

    /** Put a node that is in no list at the front of the list of `f`. */
    method Hook(n: LfuNode, f: int)
      requires Wired() && Owned() && n.key in items && items[n.key] == n
      requires forall g :: g in freqList ==> NotIn(freqList[g].chain, n)
      modifies repr
      ensures Wired() && Owned() && fresh(repr - old(repr)) && items == old(items)
      ensures Shown() == Link(old(Shown()), f, n.key)
      ensures Cards() == old(Cards())[n.key := Said(n)] && Said(n) == old(Said(n)).(freq := f)
      ensures spec == old(spec) && minFreq == old(minFreq) && bytesStored == old(bytesStored)
    {
      hide *;
      LinkIs(Shown(), f, n.key);
      OwnedSelf();
      OwnedNode(n);
      EnsureList(f, n);
      OwnedList(f);
      Join(n, f);
    }

    /** The same, when that list is there. */
    method Join(n: LfuNode, f: int)
      requires Wired() && Owned() && n.key in items && items[n.key] == n && f in freqList
      requires forall g :: g in freqList ==> NotIn(freqList[g].chain, n)
      modifies `repr, `cells, n, freqList[f], freqList[f].chain
      ensures Wired() && Owned() && fresh(repr - old(repr))
      ensures Shown() == old(Shown())[f := [n.key] + old(Shown())[f]]
      ensures Cards() == old(Cards())[n.key := Said(n)] && Said(n) == old(Said(n)).(freq := f)
    {
      hide Wired, NotIn, KeysOf, Cards;
      PutFirst(n, f);
      Own(n.listNode);
    }

    method PutFirst(n: LfuNode, f: int)
      requires Wired() && n.key in items && items[n.key] == n && f in freqList
      requires forall g :: g in freqList ==> NotIn(freqList[g].chain, n)
      modifies `cells, n, freqList[f], freqList[f].chain
      ensures Wired() && n.listNode != null && fresh(n.listNode) && cells == old(cells) + {n.listNode}
      ensures Shown() == old(Shown())[f := [n.key] + old(Shown())[f]]
      ensures Cards() == old(Cards())[n.key := Said(n)] && Said(n) == old(Said(n)).(freq := f)
    {
      hide Wired, NotIn, KeysOf;
      ghost var chain, was := freqList[f].chain, Shown();
      ghost var next := was[f := [n.key] + was[f]];
      Keyed();
      PushFront(n, f);
      KeysPush(n.listNode, chain);
      assert Shown().Keys == next.Keys;
      forall g | g in freqList ensures Shown()[g] == next[g] {
        assert g != f ==> freqList[g].chain == old(freqList[g].chain);
      }
      assert forall k :: k in items && k != n.key ==> Said(items[k]) == old(Said(items[k]));
    }

    lemma Keyed()
      requires Wired()
      ensures forall k :: k in items ==> items[k].key == k
    {
    }

    /** Give a node another value and deadline. */
    method Refill(n: LfuNode, value: Bytes, expiresAt: Deadline)
      requires Wired() && Owned() && n.key in items && items[n.key] == n
      modifies n`value, n`expiresAt
      ensures Wired() && Owned() && Shown() == old(Shown()) && n.group == old(n.group)
      ensures Cards() == old(Cards())[n.key := Card(value, n.group, expiresAt)]
    {
      hide Shown, KeysOf, Owned, Cards;
      n.value, n.expiresAt := value, expiresAt;
      forall f | f in freqList ensures Linked(freqList[f].chain, f, items) {
        assert old(Linked(freqList[f].chain, f, items));
      }
      Refilled(n);
    }

    /** Only the card of one node has changed. */
    twostate lemma Refilled(n: LfuNode)
      requires items == old(items) && n.key in items && items[n.key] == n
      requires forall k :: k in items ==> items[k].key == k
      requires forall k :: k in items && items[k] != n ==> unchanged(items[k])
      ensures Cards() == old(Cards())[n.key := Said(n)] && Said(n) == Card(n.value, n.group, n.expiresAt)
    {
      assert forall k :: k in items && k != n.key ==> Said(items[k]) == old(Said(items[k]));
    }

    /** Put a new node into the map. */
    method Map(n: LfuNode)
      requires Wired() && Owned() && n.key !in items && n in repr
      modifies `items
      ensures Wired() && Owned() && items == old(items)[n.key := n] && Shown() == old(Shown())
      ensures Cards() == old(Cards())[n.key := Said(n)]
      ensures forall f :: f in freqList ==> NotIn(freqList[f].chain, n)
    {
      items := items[n.key := n];
      forall f | f in freqList ensures Linked(freqList[f].chain, f, items) && NotIn(freqList[f].chain, n) {
        assert old(Linked(freqList[f].chain, f, items));
      }
    }

    /** Forget a node that is in no list. */
    method Unmap(n: LfuNode)
      requires Wired() && Owned() && n.key in items && items[n.key] == n
      requires forall f :: f in freqList ==> NotIn(freqList[f].chain, n)
      modifies `items
      ensures Wired() && Owned() && items == old(items) - {n.key} && Shown() == old(Shown())
      ensures Cards() == old(Cards()) - {n.key}
    {
      items := items - {n.key};
      forall f | f in freqList ensures Linked(freqList[f].chain, f, items) {
        assert old(Linked(freqList[f].chain, f, items)) && NotIn(freqList[f].chain, n);
      }
    }

    // ---------- the calls ----------

    /** Set the minimum, the byte count and the state of the definition; nodes and lists stay as they are. */
    method Account(min: int, bytes: int, ghost s: LfuSpec.State)
      requires Wired() && Owned()
      modifies `minFreq, `bytesStored, `spec
      ensures Wired() && Owned() && Shown() == old(Shown()) && Cards() == old(Cards())
      ensures minFreq == min && bytesStored == bytes && spec == s
    {
      hide *;
      minFreq, bytesStored, spec := min, bytes, s;
    }

    lemma SameFrequencies()
      ensures Shown().Keys == freqList.Keys
    {
    }

    lemma OwnedList(f: int)
      requires Wired() && Owned() && f in freqList
      ensures this in repr && freqList[f] in repr && forall x :: x in freqList[f].chain ==> x in repr
    {
    }

    /** What a structured cache knows of a key it has. */
    lemma Here(k: Key)
      requires Structured() && k in items
      ensures Wired() && Owned() && LfuSpec.Valid(spec) && spec.capacity == capacity
      ensures Mirrors(Cards(), spec.entries) && Bucketed(Shown(), spec.entries) && bytesStored == TotalBytes(LfuSpec.Holds(spec))
      ensures items[k].key == k && k in spec.entries && Said(items[k]) == CardOf(spec.entries[k])
      ensures items[k].group == spec.entries[k].freq && items[k].value == spec.entries[k].item.value
      ensures items[k].expiresAt == spec.entries[k].item.deadline
    {
      hide Bucketed, LfuSpec.Valid, TotalBytes;
      assert Cards()[k] == CardOf(spec.entries[k]);
    }

    /** One more touch: up one bucket, to its front; the minimum follows when its bucket empties. */
    method IncrementFreq(n: LfuNode, ghost item: Item)
      requires Wired() && Owned() && LfuSpec.Valid(spec) && n.key in items && items[n.key] == n
      requires Bucketed(Shown(), spec.entries) && MinFreqOk(minFreq, Shown(), spec)
      requires n.key in spec.entries && n.group == spec.entries[n.key].freq
      modifies repr
      ensures Wired() && Owned() && fresh(repr - old(repr))
      ensures items == old(items) && spec == old(spec) && bytesStored == old(bytesStored)
      ensures Cards() == old(Cards())[n.key := old(Said(n)).(freq := old(n.group) + 1)]
      ensures Bucketed(Shown(), LfuSpec.Touch(spec, n.key, item).entries)
      ensures MinFreqOk(minFreq, Shown(), LfuSpec.Touch(spec, n.key, item))
    {
      hide *;
      AfterTouch(minFreq, Shown(), spec, n.key, item);
      InBucket(Shown(), spec.entries, n.key);
      SameFrequencies();
      OwnedList(n.group);
      EmptiesExactly(Shown(), n.group, n.key);
      CardFreq(n);
      var oldFreq := n.group;
      Unhook(n);
      SameFrequencies();
      if oldFreq !in freqList && oldFreq == minFreq {
        Account(oldFreq + 1, bytesStored, spec);
      }
      Hook(n, oldFreq + 1);
    }

    lemma CardFreq(n: LfuNode)
      ensures Said(n).freq == n.group
    {
    }

    /** A touch of a node whose card, frequency apart, is already that of `item`. */
    method Bump(n: LfuNode, ghost item: Item)
      requires Wired() && Owned() && LfuSpec.Valid(spec) && spec.capacity == capacity && n.key in items && items[n.key] == n
      requires Bucketed(Shown(), spec.entries) && MinFreqOk(minFreq, Shown(), spec)
      requires n.key in spec.entries && n.group == spec.entries[n.key].freq
      requires Mirrors(Cards(), spec.entries[n.key := spec.entries[n.key].(item := item)])
      requires bytesStored == TotalBytes(LfuSpec.Holds(LfuSpec.Touch(spec, n.key, item)))
      modifies repr
      ensures Valid() && fresh(repr - old(repr)) && spec == LfuSpec.Touch(old(spec), n.key, item)
    {
      hide *;
      OwnedSelf();
      LfuSpec.TouchKeeps(spec, n.key, item);
      LfuSpec.TouchCapacity(spec, n.key, item);
      CardHere(n);
      MirrorsTouch(Cards(), spec, n.key, item);
      IncrementFreq(n, item);
      Account(minFreq, bytesStored, LfuSpec.Touch(spec, n.key, item));
      IsValid();
    }

    lemma OwnedSelf()
      requires Owned()
      ensures this in repr
    {
    }

    lemma CardHere(n: LfuNode)
      requires n.key in items && items[n.key] == n
      ensures n.key in Cards() && Cards()[n.key] == Said(n) && Said(n) == Card(n.value, n.group, n.expiresAt)
    {
    }

    lemma IsValid()
      requires Wired() && Owned() && LfuSpec.Valid(spec) && spec.capacity == capacity
      requires Mirrors(Cards(), spec.entries) && Bucketed(Shown(), spec.entries)
      requires bytesStored == TotalBytes(LfuSpec.Holds(spec)) && MinFreqOk(minFreq, Shown(), spec)
      ensures Valid()
    {
    }

    lemma OfValid()
      requires Valid()
      ensures Structured() && MinFreqOk(minFreq, Shown(), spec) && this in repr
      ensures items.Keys == spec.entries.Keys
    {
      assert Cards().Keys == items.Keys;
    }

    /** Take a node out on request or on expiry; the minimum is left as it is. */
    method RemoveKey(n: LfuNode)
      requires Valid() && n.key in items && items[n.key] == n
      modifies repr
      ensures Valid() && repr == old(repr) && spec == LfuSpec.Remove(old(spec), n.key)
    {
      hide *;
      OfValid();
      Here(n.key);
      MinAfterRemove(minFreq, Shown(), spec, n.key);
      Discard(n);
      Settled();
    }

    lemma Settled()
      requires Structured() && MinFreqOk(minFreq, Shown(), spec)
      ensures Valid()
    {
    }

    /** Take a node out of its list and out of the map. */
    method Discard(n: LfuNode)
      requires Structured() && n.key in items && items[n.key] == n
      modifies repr
      ensures Structured() && repr == old(repr) && minFreq == old(minFreq)
      ensures spec == LfuSpec.Remove(old(spec), n.key) && Shown() == Unlink(old(Shown()), old(n.group), n.key)
    {
      hide *;
      Here(n.key);
      InBucket(Shown(), spec.entries, n.key);
      SameFrequencies();
      OwnedList(n.group);
      UnlinkKeeps(Shown(), spec.entries, n.key);
      LfuSpec.RemoveKeeps(spec, n.key);
      LfuSpec.RemoveBytes(spec, n.key);
      MirrorsRemove(Cards(), spec, n.key);
      Unhook(n);
      Unmap(n);
      Account(minFreq, bytesStored - |n.value|, LfuSpec.Remove(spec, n.key));
      IsStructured();
    }

    lemma IsStructured()
      requires Wired() && Owned() && LfuSpec.Valid(spec) && spec.capacity == capacity
      requires Mirrors(Cards(), spec.entries) && Bucketed(Shown(), spec.entries)
      requires bytesStored == TotalBytes(LfuSpec.Holds(spec))
      ensures Structured()
    {
    }

    method Get(key: Key, now: int) returns (answer: Option<Bytes>)
      requires Valid()
      modifies repr
      ensures Valid() && fresh(repr - old(repr))
      ensures spec == LfuSpec.Apply(old(spec), Call(Op.Get(key), now)).state
      ensures answer == LfuSpec.Apply(old(spec), Call(Op.Get(key), now)).answer
    {
      hide *;
      OfValid();
      ReadIs(spec, key, now);
      if key !in items {
        return None;
      }
      var n := items[key];
      Here(key);
      if Expired(n.expiresAt, now) {
        RemoveKey(n);
        return None;
      }
      ghost var item := spec.entries[key].item;
      LfuSpec.TouchBytes(spec, key, item);
      assert spec.entries[key := spec.entries[key].(item := item)] == spec.entries;
      answer := Some(n.value);
      Bump(n, item);
    }

    method Peek(key: Key, now: int) returns (answer: Option<Bytes>)
      requires Valid()
      modifies repr
      ensures Valid() && repr == old(repr)
      ensures spec == LfuSpec.Apply(old(spec), Call(Op.Peek(key), now)).state
      ensures answer == LfuSpec.Apply(old(spec), Call(Op.Peek(key), now)).answer
    {
      hide *;
      OfValid();
      ReadIs(spec, key, now);
      if key !in items {
        return None;
      }
      var n := items[key];
      Here(key);
      if Expired(n.expiresAt, now) {
        RemoveKey(n);
        return None;
      }
      return Some(n.value);
    }

    method Set(key: Key, value: Bytes, ttl: int, now: int) returns (evicted: seq<(Key, Bytes)>)
      requires Valid()
      modifies repr
      ensures Valid() && fresh(repr - old(repr))
      ensures spec == LfuSpec.Apply(old(spec), Call(Op.Set(key, value, ttl), now)).state
      ensures evicted == LfuSpec.Apply(old(spec), Call(Op.Set(key, value, ttl), now)).evicted
    {
      hide *;
      evicted := [];
      var expiresAt := DeadlineFor(now, ttl);
      OfValid();
      Sizes();
      WriteIs(spec, key, value, ttl, now);
      if key in items {
        Here(key);
        Update(items[key], value, expiresAt);
        return;
      }
      LfuSpec.RoomKeeps(spec);
      if |items| >= capacity {
        evicted := EvictOne();
        SameKeys();
      }
      Insert(key, value, expiresAt);
    }

    lemma SameKeys()
      requires Structured()
      ensures items.Keys == spec.entries.Keys
    {
      assert Cards().Keys == items.Keys;
    }

    /** The size the source compares with the capacity. */
    lemma Sizes()
      requires Structured()
      ensures |items| == |spec.entries| && LfuSpec.Valid(spec) && spec.capacity == capacity
    {
      assert Cards().Keys == items.Keys;
      assert |items| == |items.Keys| && |spec.entries| == |spec.entries.Keys|;
    }

    method Update(n: LfuNode, value: Bytes, expiresAt: Deadline)
      requires Valid() && n.key in items && items[n.key] == n
      modifies repr
      ensures Valid() && fresh(repr - old(repr)) && spec == LfuSpec.Touch(old(spec), n.key, Item(value, expiresAt))
    {
      hide *;
      ghost var item := Item(value, expiresAt);
      OfValid();
      Here(n.key);
      OwnedNode(n);
      LfuSpec.TouchBytes(spec, n.key, item);
      MirrorsRefill(Cards(), spec, n.key, item);
      Account(minFreq, bytesStored + |value| - |n.value|, spec);
      Refill(n, value, expiresAt);
      Bump(n, item);
    }

    lemma OwnedNode(n: LfuNode)
      requires Owned() && n.key in items && items[n.key] == n
      ensures n in repr
    {
    }

    /** Evict the last key of the lowest bucket: with a full cache it is there, and it is the coldest. */
    method EvictOne() returns (evicted: seq<(Key, Bytes)>)
      requires Valid() && |spec.entries| >= capacity
      modifies repr
      ensures Structured() && repr == old(repr) && spec == LfuSpec.Room(old(spec))
      ensures evicted == LfuSpec.Overflow(old(spec))
    {
      hide *;
      OfValid();
      Sizes();
      Lowest(Shown(), spec, minFreq);
      SameFrequencies();
      WellFormed(minFreq);
      var fl := freqList[minFreq];
      var n := Back(minFreq);
      Here(n.key);
      evicted := [(n.key, n.value)];
      Discard(n);
    }

    /** The node that stands last in a list. */
    method Back(f: int) returns (n: LfuNode)
      requires Wired() && f in freqList && freqList[f].chain != []
      ensures n.key in items && items[n.key] == n && f in Shown() && Shown()[f] != [] && n.key == Shown()[f][|Shown()[f]| - 1]
    {
      assert freqList[f].Valid() && Linked(freqList[f].chain, f, items);
      n := freqList[f].tail.value;
    }

    /** A new key starts at frequency 1, which is then the true minimum. */
    method Insert(key: Key, value: Bytes, expiresAt: Deadline)
      requires Structured() && key !in items && |spec.entries| < capacity
      modifies repr
      ensures Valid() && fresh(repr - old(repr)) && spec == LfuSpec.Insert(old(spec), key, Item(value, expiresAt))
      ensures minFreq == 1 && key in spec.entries && spec.entries[key].freq == 1
    {
      hide *;
      ghost var item := Item(value, expiresAt);
      Missing(key);
      AfterInsert(Shown(), spec, key, item);
      LfuSpec.InsertBytes(spec, key, item);
      MirrorsInsert(Cards(), spec, key, item);
      InsertedEntry(spec, key, item);
      ghost var cards := Cards();
      var n := NewNode(key, value, expiresAt);
      Hook(n, 1);
      assert Cards() == cards[key := Card(value, 1, expiresAt)];
      Account(1, bytesStored + |value|, LfuSpec.Insert(spec, key, item));
      IsValid();
    }

    lemma Missing(k: Key)
      requires Structured() && k !in items
      ensures Wired() && Owned() && this in repr && LfuSpec.Valid(spec) && spec.capacity == capacity && k !in spec.entries
      ensures Mirrors(Cards(), spec.entries) && Bucketed(Shown(), spec.entries) && bytesStored == TotalBytes(LfuSpec.Holds(spec))
    {
      hide Bucketed, LfuSpec.Valid, TotalBytes;
      assert Cards().Keys == items.Keys;
    }

    /** Make a node for a key that has none. */
    method NewNode(key: Key, value: Bytes, expiresAt: Deadline) returns (n: LfuNode)
      requires Wired() && Owned() && key !in items
      modifies `items, `repr
      ensures Wired() && Owned() && fresh(n) && repr == old(repr) + {n} && Shown() == old(Shown())
      ensures n.key == key && items == old(items)[key := n] && forall f :: f in freqList ==> NotIn(freqList[f].chain, n)
      ensures Said(n) == Card(value, 1, expiresAt) && Cards() == old(Cards())[key := Said(n)]
    {
      hide Linked, KeysOf, NotIn, Cards;
      n := new CacheNode(key, value, 1, expiresAt);
      Own(n);
      Map(n);
    }

    method Delete(key: Key) returns (found: bool)
      requires Valid()
      modifies repr
      ensures Valid() && repr == old(repr) && spec == LfuSpec.Remove(old(spec), key)
      ensures found <==> key in old(spec).entries
    {
      hide *;
      OfValid();
      Sizes();
      LfuSpec.RemoveKeeps(spec, key);
      found := key in items;
      if found {
        Here(key);
        RemoveKey(items[key]);
      }
    }

    method Purge()
      requires Valid()
      modifies this
      ensures Valid() && repr == old(repr) && spec == LfuSpec.Empty(capacity)
      ensures items == map[] && freqList == map[] && minFreq == 0 && bytesStored == 0
    {
      hide *;
      OfValid();
      Sizes();
      LfuSpec.EmptyKeeps(spec);
      minFreq, items, freqList, bytesStored := 0, map[], map[], 0;
      spec, cells := LfuSpec.Empty(capacity), {};
      NothingYet();
    }

    lemma NothingYet()
      requires items == map[] && freqList == map[] && cells == {} && minFreq == 0 && bytesStored == 0 && this in repr
      requires spec == LfuSpec.Empty(capacity) && LfuSpec.Valid(spec)
      ensures Valid()
    {
      hide LfuSpec.Valid, TotalBytes, Bucketed, MinFreqOk;
      NothingStored();
      EmptyBuckets(spec);
      assert Shown() == map[] && Cards() == map[];
    }

    lemma WellFormed(f: int)
      requires Wired() && f in freqList
      ensures freqList[f].Valid() && f in Shown() && freqList[f].len == |freqList[f].chain| == |Shown()[f]|
    {
    }
  }

  /** One more touch, seen from the cards and from the entries. */
  lemma MirrorsTouch(cards: map<Key, Card>, s: LfuSpec.State, k: Key, item: Item)
    requires k in cards && k in s.entries
    requires Mirrors(cards, s.entries[k := s.entries[k].(item := item)])
    ensures cards[k].freq == s.entries[k].freq
    ensures Mirrors(cards[k := cards[k].(freq := cards[k].freq + 1)], LfuSpec.Touch(s, k, item).entries)
  {
  }

  lemma MirrorsRefill(cards: map<Key, Card>, s: LfuSpec.State, k: Key, item: Item)
    requires Mirrors(cards, s.entries) && k in s.entries
    ensures Mirrors(cards[k := Card(item.value, s.entries[k].freq, item.deadline)], s.entries[k := s.entries[k].(item := item)])
  {
  }

  lemma MirrorsInsert(cards: map<Key, Card>, s: LfuSpec.State, k: Key, item: Item)
    requires Mirrors(cards, s.entries)
    ensures Mirrors(cards[k := Card(item.value, 1, item.deadline)], LfuSpec.Insert(s, k, item).entries)
  {
  }

  lemma InsertedEntry(s: LfuSpec.State, k: Key, item: Item)
    ensures LfuSpec.Insert(s, k, item).capacity == s.capacity
    ensures k in LfuSpec.Insert(s, k, item).entries && LfuSpec.Insert(s, k, item).entries[k].freq == 1
  {
  }

  /** What writing does: a touch, or an insertion after making room. */
  lemma WriteIs(s: LfuSpec.State, k: Key, value: Bytes, ttl: int, now: int)
    requires LfuSpec.Valid(s)
    ensures var o, item := LfuSpec.Apply(s, Call(Op.Set(k, value, ttl), now)), Item(value, DeadlineFor(now, ttl));
      if k in s.entries then o.state == LfuSpec.Touch(s, k, item) && o.evicted == []
      else
        && o.state == LfuSpec.Insert(LfuSpec.Room(s), k, item) && o.evicted == LfuSpec.Overflow(s)
        && (|s.entries| < s.capacity ==> LfuSpec.Room(s) == s && LfuSpec.Overflow(s) == [])
  {
    hide LfuSpec.Valid, LfuSpec.Coldest;
  }

  /** With a full cache the lowest bucket is there, and its last key is what must go. */
  lemma Lowest(b: Buckets, s: LfuSpec.State, minFreq: int)
    requires LfuSpec.Valid(s) && Bucketed(b, s.entries) && MinFreqOk(minFreq, b, s) && |s.entries| >= s.capacity
    ensures minFreq in b && b[minFreq] != []
    ensures var v := b[minFreq][|b[minFreq]| - 1];
      && v in s.entries
      && LfuSpec.Room(s) == LfuSpec.Remove(s, v) && LfuSpec.Overflow(s) == [(v, s.entries[v].item.value)]
  {
    hide Bucketed;
    BucketsFilled(b, s.entries, minFreq);
    LowestLastIsColdest(b, s.entries, minFreq);
    LfuSpec.NotEmpty(s);
    LfuSpec.ColdestUnique(s.entries, b[minFreq][|b[minFreq]| - 1], LfuSpec.Victim(s.entries));
  }

  lemma MirrorsRemove(cards: map<Key, Card>, s: LfuSpec.State, k: Key)
    requires Mirrors(cards, s.entries)
    ensures Mirrors(cards - {k}, LfuSpec.Remove(s, k).entries)
    ensures LfuSpec.Remove(s, k).entries == s.entries - {k} && LfuSpec.Remove(s, k).capacity == s.capacity
  {
  }

  /** What reading does, by the deadline the source looks at. */
  lemma ReadIs(s: LfuSpec.State, k: Key, now: int)
    requires LfuSpec.Valid(s)
    ensures var get, peek := LfuSpec.Apply(s, Call(Op.Get(k), now)), LfuSpec.Apply(s, Call(Op.Peek(k), now));
      if k !in s.entries then
        get.state == s && get.answer == None && peek.state == s && peek.answer == None
      else if Expired(s.entries[k].item.deadline, now) then
        get.state == LfuSpec.Remove(s, k) && get.answer == None && peek.state == LfuSpec.Remove(s, k) && peek.answer == None
      else
        && get.state == LfuSpec.Touch(s, k, s.entries[k].item) && get.answer == Some(s.entries[k].item.value)
        && peek.state == s && peek.answer == Some(s.entries[k].item.value)
  {
    hide LfuSpec.Valid;
  }

  lemma InBucket(b: Buckets, entries: map<Key, LfuSpec.Entry>, k: Key)
    requires Bucketed(b, entries) && k in entries
    ensures entries[k].freq in b && k in b[entries[k].freq]
  {
    assert Bucket(KeysAt(b, entries[k].freq), entries[k].freq, entries);
  }

  lemma LinkIs(b: Buckets, f: int, k: Key)
    ensures Link(b, f, k) == b[f := KeysAt(b, f)][f := [k] + KeysAt(b, f)]
  {
  }

  lemma EmptiesExactly(b: Buckets, f: int, k: Key)
    requires f in b
    ensures f !in Unlink(b, f, k) <==> Without(b[f], k) == []
  {
  }

  lemma UnlinkIs(b: Buckets, f: int, k: Key)
    requires f in b
    ensures Unlink(b, f, k) == if |Without(b[f], k)| == 0 then b[f := Without(b[f], k)] - {f} else b[f := Without(b[f], k)]
  {
    assert b[f := Without(b[f], k)] - {f} == b - {f};
  }

  lemma EmptyBuckets(s: LfuSpec.State)
    requires LfuSpec.Valid(s) && s.entries == map[]
    ensures Bucketed(map[], s.entries) && MinFreqOk(0, map[], s)
  {
  }

  lemma NothingStored()
    ensures forall capacity: nat :: TotalBytes(LfuSpec.Holds(LfuSpec.Empty(capacity))) == 0
  {
    forall capacity: nat ensures TotalBytes(LfuSpec.Holds(LfuSpec.Empty(capacity))) == 0 {
      assert LfuSpec.Holds(LfuSpec.Empty(capacity)) == map[];
    }
  }

  lemma BucketsFilled(b: Buckets, entries: map<Key, LfuSpec.Entry>, f: int)
    requires Bucketed(b, entries) && f in b
    ensures |b[f]| > 0
  {
  }

  lemma StampsBefore(s: LfuSpec.State, k: Key)
    requires LfuSpec.Valid(s)
    ensures forall j :: j in s.entries - {k} ==> (s.entries - {k})[j].stamp < s.tick
  {
  }

  /** The buckets and the minimum after one more touch of `k`. */
  lemma AfterTouch(minFreq: int, b: Buckets, s: LfuSpec.State, k: Key, item: Item)
    requires LfuSpec.Valid(s) && k in s.entries
    requires Bucketed(b, s.entries) && MinFreqOk(minFreq, b, s)
    ensures var f := s.entries[k].freq;
      && f in b
      && var min' := if Without(b[f], k) == [] && f == minFreq then f + 1 else minFreq;
         var b' := Link(Unlink(b, f, k), f + 1, k);
         Bucketed(b', LfuSpec.Touch(s, k, item).entries) && MinFreqOk(min', b', LfuSpec.Touch(s, k, item))
  {
    hide Bucketed, MinFreqOk, LfuSpec.Valid, Link, Unlink, LfuSpec.Touch;
    TouchBuckets(b, s, k, item);
    MinAfterTouch(minFreq, b, s, k, item);
  }

  lemma TouchEntries(s: LfuSpec.State, k: Key, item: Item)
    requires k in s.entries
    ensures LfuSpec.Touch(s, k, item).entries
         == s.entries[k := LfuSpec.Entry(item, s.entries[k].freq + 1, s.tick)]
  {
  }

  lemma TouchBuckets(b: Buckets, s: LfuSpec.State, k: Key, item: Item)
    requires LfuSpec.Valid(s) && k in s.entries && Bucketed(b, s.entries)
    ensures var f := s.entries[k].freq;
      Bucketed(Link(Unlink(b, f, k), f + 1, k), LfuSpec.Touch(s, k, item).entries)
  {
    StampsBefore(s, k);
    hide Bucketed, LfuSpec.Valid, Link, Unlink, LfuSpec.Touch;
    TouchEntries(s, k, item);
    var f, e := s.entries[k].freq, LfuSpec.Entry(item, s.entries[k].freq + 1, s.tick);
    UnlinkKeeps(b, s.entries, k);
    LinkKeeps(Unlink(b, f, k), s.entries - {k}, k, e);
    assert (s.entries - {k})[k := e] == s.entries[k := e];
  }

  /** When the bucket a key leaves was the minimum and is now empty, the next frequency is the minimum. */
  lemma MinAfterTouch(minFreq: int, b: Buckets, s: LfuSpec.State, k: Key, item: Item)
    requires LfuSpec.Valid(s) && k in s.entries
    requires Bucketed(b, s.entries) && MinFreqOk(minFreq, b, s)
    ensures var f := s.entries[k].freq;
      && f in b
      && var min' := if Without(b[f], k) == [] && f == minFreq then f + 1 else minFreq;
         MinFreqOk(min', Link(Unlink(b, f, k), f + 1, k), LfuSpec.Touch(s, k, item))
  {
    hide LfuSpec.Valid;
    var f := s.entries[k].freq;
    UnlinkKeeps(b, s.entries, k);
    LfuSpec.TouchKeeps(s, k, item);
    if Without(b[f], k) == [] && f == minFreq {
      forall j | j in s.entries && j != k ensures s.entries[j].freq >= f + 1 {
        OnlyOne(b, s.entries, k, j);
      }
    }
  }

  /** A bucket that one key's leaving empties held no other key. */
  lemma OnlyOne(b: Buckets, entries: map<Key, LfuSpec.Entry>, k: Key, j: Key)
    requires Bucketed(b, entries) && k in entries && j in entries && j != k
    requires Without(KeysAt(b, entries[k].freq), k) == []
    ensures entries[j].freq != entries[k].freq
  {
    var f := entries[k].freq;
    assert Bucket(KeysAt(b, f), f, entries);
    WithoutKeeps(KeysAt(b, f), k);
  }

  lemma MinAfterRemove(minFreq: int, b: Buckets, s: LfuSpec.State, k: Key)
    requires LfuSpec.Valid(s) && k in s.entries && MinFreqOk(minFreq, b, s)
    ensures MinFreqOk(minFreq, Unlink(b, s.entries[k].freq, k), LfuSpec.Remove(s, k))
  {
    LfuSpec.RemoveKeeps(s, k);
  }

  lemma AfterInsert(b: Buckets, s: LfuSpec.State, k: Key, item: Item)
    requires LfuSpec.Valid(s) && k !in s.entries && |s.entries| < s.capacity
    requires Bucketed(b, s.entries)
    ensures LfuSpec.Valid(LfuSpec.Insert(s, k, item))
    ensures Bucketed(Link(b, 1, k), LfuSpec.Insert(s, k, item).entries)
    ensures MinFreqOk(1, Link(b, 1, k), LfuSpec.Insert(s, k, item))
  {
    hide Bucketed;
    LfuSpec.InsertKeeps(s, k, item);
    LinkKeeps(b, s.entries, k, LfuSpec.Entry(item, 1, s.tick));
  }
}
