/** The linked structure of the LRU cache, proved to implement the recency sequence of `LruSpec`. */
module LruCache {
  import opened Basics
  import opened CacheContract
  import LruSpec

  class Node {
    const key: Key
    var value: Bytes
    var expiresAt: Deadline
    var prev: Node?
    var next: Node?

    constructor (key: Key, item: Item)
      ensures Entry() == LruSpec.Entry(key, item)
    {
      this.key, value, expiresAt := key, item.value, item.deadline;
      prev, next := null, null;
    }

    ghost function Entry(): LruSpec.Entry
      reads `value, `expiresAt
    {
      LruSpec.Entry(key, Item(value, expiresAt))
    }
  }

  class LruCache {
    const capacity: nat
    var items: map<Key, Node>
    var head: Node?
    var tail: Node?
    var bytesStored: int
    /** The nodes, most recent first, and what they say: the abstract value of the cache. */
    ghost var chain: seq<Node>
    ghost var entries: LruSpec.Recency
    /** Every node the cache ever made. */
    ghost var repr: set<Node>

    /** Links and ends agree with `chain`; acyclic because `chain` has no repeats. */
    ghost predicate Linked()
      reads `head, `tail, `chain, `repr, repr`prev, repr`next
    {
      && head == (if chain == [] then null else chain[0])
      && tail == (if chain == [] then null else chain[|chain| - 1])
      && (forall i :: 0 <= i < |chain| ==> chain[i] in repr)
      && (forall i, j :: 0 <= i < j < |chain| ==> chain[i] != chain[j])
      && (forall i {:trigger chain[i].prev} :: 0 <= i < |chain| ==>
            chain[i].prev == if i == 0 then null else chain[i - 1])
      && (forall i {:trigger chain[i].next} :: 0 <= i < |chain| ==>
            chain[i].next == if i == |chain| - 1 then null else chain[i + 1])
    }

    /** `entries` is what the nodes say, and `items` maps exactly their keys, each to its node. */
    ghost predicate Indexed()
      reads `items, `entries, `chain, `repr, repr`value, repr`expiresAt
    {
      && LruSpec.Unique(entries)
      && items.Keys == LruSpec.Keys(entries)
      && Stored(chain, entries, items)
    }

    /** Each node holds its entry and is found under its key. */
    ghost predicate Stored(nodes: seq<Node>, s: LruSpec.Recency, its: map<Key, Node>)
      reads `repr, repr`value, repr`expiresAt
    {
      && |nodes| == |s|
      && forall i {:trigger nodes[i]} {:trigger s[i]} :: 0 <= i < |s| ==>
           nodes[i] in repr && s[i].key in its && its[s[i].key] == nodes[i] && nodes[i].Entry() == s[i]
    }

    lemma StoredCut(nodes: seq<Node>, s: LruSpec.Recency, its: map<Key, Node>, i: nat)
      requires Stored(nodes, s, its) && LruSpec.Unique(s) && i < |s|
      ensures Stored(nodes[..i] + nodes[i + 1..], LruSpec.Cut(s, i), its - {s[i].key})
      ensures Stored(nodes[..i] + nodes[i + 1..], LruSpec.Cut(s, i), its)
    {
    }

    lemma StoredPush(n: Node, nodes: seq<Node>, s: LruSpec.Recency, its: map<Key, Node>)
      requires Stored(nodes, s, its) && n in repr
      requires n.key in its ==> its[n.key] == n
      ensures Stored([n] + nodes, [n.Entry()] + s, its[n.key := n])
    {
    }

    ghost predicate Valid()
      reads this, repr
    {
      && 0 < capacity
      && Linked() && Indexed()
      && |chain| <= capacity
      && bytesStored == LruSpec.SumBytes(entries)
    }

    constructor (capacity: int)
      ensures Valid() && entries == [] && repr == {}
      ensures this.capacity == if capacity <= 0 then 1 else capacity
    {
      this.capacity := if capacity <= 0 then 1 else capacity;
      items, head, tail, bytesStored, chain, entries, repr := map[], null, null, 0, [], [], {};
    }

    // ---------- chain surgery ----------

    method PushFront(n: Node)
      requires Linked() && n !in chain && n in repr
      modifies `head, `tail, `chain, repr`prev, repr`next
      ensures Linked() && chain == [n] + old(chain)
    {
      n.prev := null;
      n.next := head;
      if head != null {
        head.prev := n;
      }
      head := n;
      if tail == null {
        tail := n;
      }
      chain := [n] + chain;
    }

    method RemoveNode(n: Node, ghost i: nat)
      requires Linked() && i < |chain| && chain[i] == n
      modifies `head, `tail, `chain, repr`prev, repr`next
      ensures Linked() && chain == old(chain)[..i] + old(chain)[i + 1..]
    {
      if n.prev != null {
        n.prev.next := n.next;
      } else {
        head := n.next;
      }
      if n.next != null {
        n.next.prev := n.prev;
      } else {
        tail := n.prev;
      }
      n.prev := null;
      n.next := null;
      chain := chain[..i] + chain[i + 1..];
    }

    method MoveToFront(n: Node, ghost i: nat)
      requires Linked() && i < |chain| && chain[i] == n
      modifies `head, `tail, `chain, repr`prev, repr`next
      ensures Linked() && chain == [n] + (old(chain)[..i] + old(chain)[i + 1..])
    {
      if n == head {
        assert i == 0;
        assert chain == [n] + (chain[..0] + chain[1..]);
        return;
      }
      RemoveNode(n, i);
      PushFront(n);
    }

    // ---------- the structure against the sequence ----------

    /** A key found in the map stands at a definite place of the sequence. */
    lemma Located(k: Key) returns (i: nat)
      requires Indexed() && k in items
      ensures i < |chain| && chain[i] == items[k]
      ensures LruSpec.Find(entries, k) == Some(entries[i].item)
      ensures LruSpec.Without(entries, k) == LruSpec.Cut(entries, i)
    {
      i := LruSpec.KeyIndex(entries, k);
      LruSpec.FindAt(entries, i);
      LruSpec.WithoutAt(entries, i);
    }

    // ---------- the cache operations ----------

    method Get(key: Key, now: int) returns (answer: Option<Bytes>)
      requires Valid()
      modifies this, repr
      ensures Valid() && repr == old(repr)
      ensures entries == LruSpec.Apply(capacity, old(entries), Call(Op.Get(key), now)).state
      ensures answer == LruSpec.Apply(capacity, old(entries), Call(Op.Get(key), now)).answer
    {
      hide Linked, LruSpec.Unique, LruSpec.Keys, LruSpec.SumBytes;
      if key !in items {
        LruSpec.AbsentKey(entries, key);
        return None;
      }
      var n := items[key];
      ghost var i := Located(key);
      if Expired(n.expiresAt, now) {
        Drop(n, i);
        return None;
      }
      Touch(n, i);
      answer := Some(n.value);
    }

    /** Bring a node to the front; every entry stays as it was. */
    method Touch(n: Node, ghost i: nat)
      requires Linked() && Indexed() && i < |chain| && chain[i] == n
      modifies `head, `tail, `chain, `entries, repr`prev, repr`next
      ensures Linked() && Indexed() && |chain| == old(|chain|)
      ensures entries == [old(entries)[i]] + LruSpec.Cut(old(entries), i)
      ensures LruSpec.SumBytes(entries) == LruSpec.SumBytes(old(entries))
    {
      hide Linked, LruSpec.Unique, LruSpec.Keys, LruSpec.SumBytes;
      LruSpec.CutAt(entries, i);
      LruSpec.Pushed(entries[i], LruSpec.Cut(entries, i));
      StoredCut(chain, entries, items, i);
      StoredPush(n, chain[..i] + chain[i + 1..], LruSpec.Cut(entries, i), items);
      assert items[n.key := n] == items;
      entries := [entries[i]] + LruSpec.Cut(entries, i);
      MoveToFront(n, i);
    }

    /** Take a node out of the chain and the map, as expiry and deletion do. */
    method Drop(n: Node, ghost i: nat)
      requires Valid() && i < |chain| && chain[i] == n
      modifies this, repr`prev, repr`next
      ensures Valid() && |chain| == old(|chain|) - 1 && repr == old(repr)
      ensures items == old(items) - {n.key}
      ensures entries == LruSpec.Cut(old(entries), i)
    {
      hide Linked, LruSpec.Unique, LruSpec.Keys, LruSpec.SumBytes;
      LruSpec.CutAt(entries, i);
      StoredCut(chain, entries, items, i);
      bytesStored := bytesStored - |n.value|;
      items := items - {n.key};
      entries := LruSpec.Cut(entries, i);
      RemoveNode(n, i);
    }

    method Set(key: Key, value: Bytes, ttl: int, now: int) returns (evicted: seq<(Key, Bytes)>)
      requires Valid()
      modifies this, repr
      ensures Valid() && fresh(repr - old(repr))
      ensures entries == LruSpec.Apply(capacity, old(entries), Call(Op.Set(key, value, ttl), now)).state
      ensures evicted == LruSpec.Apply(capacity, old(entries), Call(Op.Set(key, value, ttl), now)).evicted
    {
      hide Linked, LruSpec.Unique, LruSpec.Keys, LruSpec.SumBytes;
      var expiresAt := DeadlineFor(now, ttl);
      if key in items {
        ghost var i := Located(key);
        Update(items[key], i, value, expiresAt);
        evicted := [];
      } else {
        LruSpec.AbsentKey(entries, key);
        evicted := Add(key, Item(value, expiresAt));
      }
    }

    /** A key that is not there yet: make room if need be, then chain a new node. */
    method Add(key: Key, item: Item) returns (evicted: seq<(Key, Bytes)>)
      requires Valid() && key !in items
      modifies this, repr`prev, repr`next
      ensures Valid() && fresh(repr - old(repr))
      ensures entries == [LruSpec.Entry(key, item)] + LruSpec.Room(capacity, old(entries))
      ensures evicted == LruSpec.Overflow(capacity, old(entries))
    {
      hide Linked, LruSpec.Unique, LruSpec.Keys, LruSpec.SumBytes;
      evicted := MakeRoom();
      var n := new Node(key, item);
      Insert(n);
    }

    /** When the cache is full, drop the tail, which is the least recently used entry. */
    method MakeRoom() returns (evicted: seq<(Key, Bytes)>)
      requires Valid()
      modifies this, repr`prev, repr`next
      ensures Valid() && repr == old(repr) && |chain| < capacity
      ensures items.Keys <= old(items.Keys)
      ensures entries == LruSpec.Room(capacity, old(entries))
      ensures evicted == LruSpec.Overflow(capacity, old(entries))
    {
      evicted := [];
      LruSpec.CountKeys(entries);
      assert |items| == |items.Keys|;
      if |items| >= capacity && tail != null {
        var lru := tail;
        ghost var s, last := entries, |chain| - 1;
        assert lru.Entry() == s[last];
        evicted := [(lru.key, lru.value)];
        Drop(lru, last);
        assert entries == s[..last];
      }
    }

    /** Overwrite a node's value and deadline and bring it to the front. */
    method Update(n: Node, ghost i: nat, value: Bytes, expiresAt: Deadline)
      requires Valid() && i < |chain| && chain[i] == n
      modifies this, repr
      ensures Valid() && repr == old(repr)
      ensures entries ==
        [LruSpec.Entry(n.key, Item(value, expiresAt))] + LruSpec.Cut(old(entries), i)
    {
      hide Linked, LruSpec.Unique, LruSpec.Keys, LruSpec.SumBytes;
      LruSpec.Replaced(entries, i, LruSpec.Entry(n.key, Item(value, expiresAt)));
      bytesStored := bytesStored + |value| - |n.value|;
      Overwrite(n, i, value, expiresAt);
      Touch(n, i);
    }

    method Overwrite(n: Node, ghost i: nat, value: Bytes, expiresAt: Deadline)
      requires Indexed() && i < |chain| && chain[i] == n
      modifies `entries, n`value, n`expiresAt
      ensures Indexed()
      ensures entries == old(entries)[i := LruSpec.Entry(n.key, Item(value, expiresAt))]
    {
      LruSpec.Replaced(entries, i, LruSpec.Entry(n.key, Item(value, expiresAt)));
      n.value := value;
      n.expiresAt := expiresAt;
      entries := entries[i := LruSpec.Entry(n.key, Item(value, expiresAt))];
    }

    /** Chain a new node at the front and enter it into the map. */
    method Insert(n: Node)
      requires Valid() && n.key !in items && n !in repr && |chain| < capacity
      modifies this, repr`prev, repr`next, n`prev, n`next
      ensures Valid() && repr == old(repr) + {n}
      ensures entries == [old(n.Entry())] + old(entries)
    {
      hide Linked, LruSpec.Unique, LruSpec.Keys, LruSpec.SumBytes;
      LruSpec.Pushed(n.Entry(), entries);
      Admit(n);
      bytesStored := bytesStored + |n.value|;
      PushFront(n);
    }

    /** Enter a node that is not chained yet into the map. */
    method Admit(n: Node)
      requires Linked() && Indexed() && n.key !in items && n !in repr
      modifies `items, `entries, `repr
      ensures Linked() && n !in chain
      ensures repr == old(repr) + {n} && items == old(items)[n.key := n]
      ensures entries == [n.Entry()] + old(entries) && Stored([n] + chain, entries, items)
    {
      hide LruSpec.Unique, LruSpec.Keys;
      repr := repr + {n};
      StoredPush(n, chain, entries, items);
      items, entries := items[n.key := n], [n.Entry()] + entries;
    }

    method Delete(key: Key) returns (found: bool)
      requires Valid()
      modifies this, repr
      ensures Valid() && repr == old(repr)
      ensures found <==> LruSpec.Find(old(entries), key).Some?
      ensures entries == LruSpec.Without(old(entries), key)
    {
      hide Linked, LruSpec.Unique, LruSpec.Keys, LruSpec.SumBytes;
      if key !in items {
        LruSpec.AbsentKey(entries, key);
        return false;
      }
      ghost var i := Located(key);
      Drop(items[key], i);
      return true;
    }

    method Peek(key: Key, now: int) returns (answer: Option<Bytes>)
      requires Valid()
      modifies this, repr
      ensures Valid() && repr == old(repr)
      ensures entries == LruSpec.Apply(capacity, old(entries), Call(Op.Peek(key), now)).state
      ensures answer == LruSpec.Apply(capacity, old(entries), Call(Op.Peek(key), now)).answer
    {
      hide Linked, LruSpec.Unique, LruSpec.Keys, LruSpec.SumBytes;
      if key !in items {
        LruSpec.AbsentKey(entries, key);
        return None;
      }
      var n := items[key];
      ghost var i := Located(key);
      if Expired(n.expiresAt, now) {
        Drop(n, i);
        return None;
      }
      return Some(n.value);
    }

    /** The keys of the entries whose deadline is still ahead, in recency order. */
    method Keys(now: int) returns (keys: seq<Key>)
      requires Valid()
      ensures keys == LruSpec.Upcoming(entries, now)
    {
      keys := [];
      var cur := head;
      ghost var i := 0;
      while cur != null
        invariant i <= |chain|
        invariant cur == (if i == |chain| then null else chain[i])
        invariant keys == LruSpec.Upcoming(entries[..i], now)
        decreases |chain| - i
      {
        assert entries[..i + 1] == entries[..i] + [entries[i]];
        if cur.expiresAt == Never || now < cur.expiresAt.t {
          keys := keys + [cur.key];
        }
        cur := cur.next;
        i := i + 1;
      }
      assert entries[..i] == entries;
    }

    method Purge()
      requires Valid()
      modifies this
      ensures Valid() && entries == [] && repr == old(repr)
      ensures items == map[] && chain == [] && bytesStored == 0
    {
      items, head, tail, bytesStored, chain, entries := map[], null, null, 0, [], [];
    }
  }
}
