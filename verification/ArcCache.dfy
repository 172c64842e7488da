/**
 The ARC cache as the source runs it: heap nodes that sit in four linked lists, point back at their
 list nodes and carry the name of their list, proved against `ArcSpec`.
 */
module ArcCache {
  import opened Basics
  import opened CacheContract
  import opened KeyLists
  import opened LinkedList
  import opened CacheNodes
  import opened ArcSpec
  import opened ArcTheorems
  import opened ArcContract

  type ArcNode = CacheNode<Tag>

  ghost function EntryOf(n: ArcNode): Entry
    reads n
  {
    Entry(n.value, n.group, n.expiresAt)
  }

  lemma SameView(a: State, b: State)
    requires a.capacity == b.capacity && a.p == b.p && a.items == b.items && forall g: Tag :: a.List(g) == b.List(g)
    ensures a == b
  {
    assert a.List(T1) == b.List(T1) && a.List(T2) == b.List(T2) && a.List(B1) == b.List(B1) && a.List(B2) == b.List(B2);
  }

  lemma DetachAt(st: State, k: Key, h: Tag)
    requires k in st.items
    ensures Detach(st, k).List(h) == if h == st.items[k].list then Without(st.List(h), k) else st.List(h)
    ensures Detach(st, k).capacity == st.capacity && Detach(st, k).p == st.p && Detach(st, k).items == st.items
  {
  }

  lemma AddFrontAt(st: State, k: Key, e: Entry, h: Tag)
    ensures AddFront(st, k, e).List(h) == if h == e.list then [k] + st.List(h) else st.List(h)
    ensures AddFront(st, k, e).capacity == st.capacity && AddFront(st, k, e).p == st.p
    ensures AddFront(st, k, e).items == st.items[k := e]
  {
  }

  lemma Listed(st: State, k: Key)
    requires Consistent(st) && k in st.items
    ensures k in st.List(st.items[k].list)
  {
  }

  method FourLists() returns (t1: List<ArcNode>, t2: List<ArcNode>, b1: List<ArcNode>, b2: List<ArcNode>)
    ensures fresh({t1, t2, b1, b2})
    ensures t1 != t2 && t1 != b1 && t1 != b2 && t2 != b1 && t2 != b2 && b1 != b2
    ensures t1.Valid() && t2.Valid() && b1.Valid() && b2.Valid()
    ensures t1.chain == t2.chain == b1.chain == b2.chain == []
  {
    t1 := new List();
    t2 := new List();
    b1 := new List();
    b2 := new List();
  }

  class ArcCache {
    const capacity: nat
    var p: int
    var T1: List<ArcNode>
    var T2: List<ArcNode>
    var B1: List<ArcNode>
    var B2: List<ArcNode>
    var itemMap: map<Key, ArcNode>
    var bytesStored: int
    /** All heap objects the cache may change. */
    ghost var repr: set<object>

    /** The list with a given name. */
    function ListOf(g: Tag): List<ArcNode>
      reads `T1, `T2, `B1, `B2
    {
      match g case T1 => T1 case T2 => T2 case B1 => B1 case B2 => B2
    }

    /** Four different well-formed lists. */
    ghost predicate Apart()
      reads `T1, `T2, `B1, `B2, T1, T2, B1, B2, T1.chain, T2.chain, B1.chain, B2.chain
    {
      && (forall g: Tag, h: Tag :: ListOf(g) == ListOf(h) ==> g == h)
      && (forall g: Tag :: ListOf(g).Valid())
    }

    /** Four well-formed lists of map nodes that know their list and their place in it. */
    ghost predicate Structured()
      reads `T1, `T2, `B1, `B2, `itemMap, T1, T2, B1, B2, T1.chain, T2.chain, B1.chain, B2.chain, itemMap.Values
    {
      && Apart()
      && (forall k :: k in itemMap ==> itemMap[k].key == k)
      && (forall g: Tag :: Linked(ListOf(g).chain, g, itemMap))
    }

    ghost function Items(): map<Key, Entry>
      reads `itemMap, itemMap.Values
    {
      map k | k in itemMap :: EntryOf(itemMap[k])
    }

    ghost function View(): State
      reads `p, `T1, `T2, `B1, `B2, `itemMap, T1, T2, B1, B2, itemMap.Values
    {
      State(capacity, p, KeysOf(T1.chain), KeysOf(T2.chain), KeysOf(B1.chain), KeysOf(B2.chain), Items())
    }

    ghost predicate Owned()
      reads `repr, `T1, `T2, `B1, `B2, `itemMap, T1, T2, B1, B2
    {
      && this in repr
      && (forall g: Tag :: ListOf(g) in repr)
      && (forall g: Tag, x :: x in ListOf(g).chain ==> x in repr)
      && (forall k :: k in itemMap ==> itemMap[k] in repr)
    }

    /** Stored bytes are those of the live entries. */
    ghost predicate Accounted()
      reads this, T1, T2, B1, B2, itemMap.Values
    {
      bytesStored == TotalBytes(Holds(View()))
    }

    /** Everything but the size bounds, which a write leaves and restores. */
    ghost predicate Ready()
      reads this, T1, T2, B1, B2, T1.chain, T2.chain, B1.chain, B2.chain, itemMap.Values
    {
      Structured() && Owned() && Consistent(View()) && Accounted()
    }

    ghost predicate Valid()
      reads this, T1, T2, B1, B2, T1.chain, T2.chain, B1.chain, B2.chain, itemMap.Values
    {
      Ready() && Bounded(View())
    }

    constructor (capacity: int)
      ensures Valid() && fresh(repr) && View() == Empty(if capacity <= 0 then 1 else capacity)
    {
      hide *;
      this.capacity := if capacity <= 0 then 1 else capacity;
      p, itemMap, bytesStored := 0, map[], 0;
      var t1, t2, b1, b2 := FourLists();
      T1, T2, B1, B2 := t1, t2, b1, b2;
      repr := {this, t1, t2, b1, b2};
      new;
      NothingYet();
    }

    /** Four empty lists and no node make an empty cache. */
    lemma NothingYet()
      requires T1.Valid() && T2.Valid() && B1.Valid() && B2.Valid()
      requires T1 != T2 && T1 != B1 && T1 != B2 && T2 != B1 && T2 != B2 && B1 != B2
      requires T1.chain == T2.chain == B1.chain == B2.chain == []
      requires itemMap == map[] && p == 0 && bytesStored == 0 && {this, T1, T2, B1, B2} <= repr && 0 < capacity
      ensures Valid() && View() == Empty(capacity)
    {
      forall g: Tag ensures ListOf(g).Valid() && ListOf(g).chain == [] && ListOf(g) in repr {
      }
      assert Structured() && Owned();
      assert Holds(View()) == map[];
    }

    /** Nodes of different lists are different. */
    lemma ChainsApart(g: Tag, h: Tag, x: Node<ArcNode>)
      requires Structured() && x in ListOf(g).chain && x in ListOf(h).chain
      ensures g == h
    {
      assert Linked(ListOf(g).chain, g, itemMap) && Linked(ListOf(h).chain, h, itemMap);
    }

    lemma BackPointer(n: ArcNode, i: nat)
      requires Structured() && i < |ListOf(n.group).chain| && ListOf(n.group).chain[i].value == n
      ensures n.listNode == ListOf(n.group).chain[i] && Linked(ListOf(n.group).chain, n.group, itemMap)
    {
      assert Linked(ListOf(n.group).chain, n.group, itemMap);
    }

    /** Cut a list node out of the list named `g`; the other lists are untouched. */
    method CutNode(x: Node<ArcNode>, g: Tag, ghost i: nat)
      requires Structured() && i < |ListOf(g).chain| && ListOf(g).chain[i] == x
      modifies ListOf(g), ListOf(g).chain
      ensures Apart() && ListOf(g).chain == old(ListOf(g).chain)[..i] + old(ListOf(g).chain)[i + 1..]
      ensures forall h: Tag :: h != g ==> ListOf(h).chain == old(ListOf(h).chain)
    {
      hide Linked;
      var l := ListOf(g);
      ghost var chain := l.chain;
      forall h: Tag, j | h != g && 0 <= j < |ListOf(h).chain| ensures ListOf(h).chain[j] !in chain {
        if ListOf(h).chain[j] in chain {
          ChainsApart(h, g, ListOf(h).chain[j]);
        }
      }
      l.Remove(x, i);
      forall h: Tag ensures ListOf(h).Valid() && (h != g ==> ListOf(h).chain == old(ListOf(h).chain)) {
        assert old(ListOf(h).Valid());
      }
    }

    /** Unlink a node from the list its tag names, through its own list node. */
    method RemoveFromList(n: ArcNode, ghost i: nat)
      requires Structured() && i < |ListOf(n.group).chain| && ListOf(n.group).chain[i].value == n
      modifies ListOf(n.group), ListOf(n.group).chain
      ensures Structured() && Items() == old(Items())
      ensures ListOf(n.group).chain == old(ListOf(n.group).chain)[..i] + old(ListOf(n.group).chain)[i + 1..]
      ensures forall g: Tag :: g != n.group ==> ListOf(g).chain == old(ListOf(g).chain)
    {
      hide Linked, Apart;
      ghost var chain := ListOf(n.group).chain;
      BackPointer(n, i);
      CutNode(n.listNode, n.group, i);
      forall g: Tag ensures Linked(ListOf(g).chain, g, itemMap) {
        assert old(Linked(ListOf(g).chain, g, itemMap));
        if g == n.group {
          LinkedCut(chain, i, g, itemMap);
        }
      }
      assert forall k :: k in itemMap ==> EntryOf(itemMap[k]) == old(EntryOf(itemMap[k]));
    }

    /** A new list node at the front of the list named `g`; the other lists are untouched. */
    method PushNode(n: ArcNode, g: Tag) returns (x: Node<ArcNode>)
      requires Structured()
      modifies ListOf(g), ListOf(g).chain
      ensures Apart() && fresh(x) && x.value == n && ListOf(g).chain == [x] + old(ListOf(g).chain)
      ensures forall h: Tag :: h != g ==> ListOf(h).chain == old(ListOf(h).chain)
    {
      hide Linked;
      var l := ListOf(g);
      ghost var chain := l.chain;
      forall h: Tag, j | h != g && 0 <= j < |ListOf(h).chain| ensures ListOf(h).chain[j] !in chain {
        if ListOf(h).chain[j] in chain {
          ChainsApart(h, g, ListOf(h).chain[j]);
        }
      }
      x := l.PushFront(n);
      forall h: Tag ensures ListOf(h).Valid() && (h != g ==> ListOf(h).chain == old(ListOf(h).chain)) {
        assert old(ListOf(h).Valid());
      }
    }

    /** Fill a node and point it at its new list node `x`, which stands at the front of the list named `g`. */
    method Fill(n: ArcNode, e: Entry, x: Node<ArcNode>, ghost rest: Chain<Tag>)
      requires Apart() && n.key in itemMap && itemMap[n.key] == n && x.value == n
      requires forall k :: k in itemMap ==> itemMap[k].key == k
      requires ListOf(e.list).chain == [x] + rest && Linked(rest, e.list, itemMap) && NotIn(rest, n)
      requires forall h: Tag :: h != e.list ==> Linked(ListOf(h).chain, h, itemMap) && NotIn(ListOf(h).chain, n)
      modifies n
      ensures Structured() && EntryOf(n) == e && n.listNode == x
    {
      n.value, n.group, n.expiresAt, n.listNode := e.value, e.list, e.expiresAt, x;
      hide Points;
      forall h: Tag ensures Linked(ListOf(h).chain, h, itemMap) {
        var c := ListOf(h).chain;
        forall i | 0 <= i < |c| ensures c[i].value.key in itemMap && itemMap[c[i].value.key] == c[i].value && Points(c[i].value, h, c[i]) {
          if h == e.list && i == 0 {
            PointsNow(n, x);
          } else if h == e.list {
            assert c[i] == rest[i - 1];
            assert old(Points(c[i].value, h, c[i]));
          } else {
            assert old(Points(c[i].value, h, c[i]));
          }
        }
      }
    }

    /** Link a node that is in no list at the front of the list its new entry names. */
    method PushFront(n: ArcNode, e: Entry)
      requires Structured() && n.key in itemMap && itemMap[n.key] == n
      requires forall h: Tag :: NotIn(ListOf(h).chain, n)
      modifies n, ListOf(e.list), ListOf(e.list).chain
      ensures Structured() && EntryOf(n) == e
      ensures KeysOf(ListOf(e.list).chain) == [n.key] + KeysOf(old(ListOf(e.list).chain))
      ensures n.listNode != null && fresh(n.listNode) && ListOf(e.list).chain == [n.listNode] + old(ListOf(e.list).chain)
      ensures forall h: Tag :: h != e.list ==> ListOf(h).chain == old(ListOf(h).chain)
    {
      ghost var rest := ListOf(e.list).chain;
      var x := PushNode(n, e.list);
      Fill(n, e, x, rest);
    }

    lemma Keyed()
      requires Structured()
      ensures forall k :: k in itemMap ==> itemMap[k].key == k
    {
    }

    lemma Shows(g: Tag)
      ensures View().List(g) == KeysOf(ListOf(g).chain)
    {
    }

    /** A node stands at exactly one place of the list its tag names. */
    lemma Standing(n: ArcNode) returns (i: nat)
      requires Structured() && Consistent(View()) && n.key in itemMap && itemMap[n.key] == n
      ensures i < |ListOf(n.group).chain| && ListOf(n.group).chain[i].value == n
      ensures var chain := ListOf(n.group).chain;
        var cut := chain[..i] + chain[i + 1..];
        KeysOf(cut) == Without(KeysOf(chain), n.key) && NotIn(cut, n)
    {
      var g, chain := n.group, ListOf(n.group).chain;
      Shows(g);
      Listed(View(), n.key);
      var s := KeysOf(chain);
      i :| 0 <= i < |s| && s[i] == n.key;
      assert Linked(chain, g, itemMap) && ListOf(g).Valid();
      KeysDistinct(chain, g, itemMap);
      KeysCut(chain, i);
    }

    /** And in no other list. */
    lemma NotElsewhere(n: ArcNode, h: Tag)
      requires Structured() && h != n.group
      ensures NotIn(ListOf(h).chain, n)
    {
      assert Linked(ListOf(h).chain, h, itemMap);
    }

    /** Unlinking a node takes its key out of its list and leaves it in none. */
    method Unlink(n: ArcNode)
      requires Structured() && Owned() && Consistent(View()) && n.key in itemMap && itemMap[n.key] == n
      modifies ListOf(n.group), ListOf(n.group).chain
      ensures Structured() && Owned() && View() == Detach(old(View()), n.key)
      ensures forall h: Tag :: NotIn(ListOf(h).chain, n)
    {
      hide *;
      ghost var st, chain := View(), ListOf(n.group).chain;
      ghost var i := Standing(n);
      Mapped(n);
      EntryIs(n);
      SameFields();
      DetachAt(st, n.key, n.group);
      forall h: Tag ensures st.List(h) == KeysOf(ListOf(h).chain) {
        Shows(h);
      }
      OwnedChains();
      RemoveFromList(n, i);
      CutSubset(chain, i);
      OwnedStill(n.group);
      SameFields();
      forall h: Tag ensures View().List(h) == Detach(st, n.key).List(h) && NotIn(ListOf(h).chain, n) {
        DetachAt(st, n.key, h);
        Shows(h);
        if h != n.group {
          NotElsewhere(n, h);
        }
      }
      SameView(View(), Detach(st, n.key));
    }

    lemma OwnedChains()
      requires Owned()
      ensures forall g: Tag, x :: x in ListOf(g).chain ==> x in repr
    {
    }

    /** What the view takes straight from the fields. */
    lemma SameFields()
      ensures View().capacity == capacity && View().p == p && View().items == Items()
    {
    }

    /** Taking list nodes away from one list leaves everything owned. */
    twostate lemma OwnedStill(g: Tag)
      requires old(Owned()) && repr == old(repr) && itemMap == old(itemMap)
      requires T1 == old(T1) && T2 == old(T2) && B1 == old(B1) && B2 == old(B2)
      requires forall x :: x in ListOf(g).chain ==> x in old(ListOf(g).chain)
      requires forall h: Tag :: h != g ==> ListOf(h).chain == old(ListOf(h).chain)
      ensures Owned()
    {
      forall h: Tag, x | x in ListOf(h).chain ensures x in repr {
        assert x in old(ListOf(h).chain);
      }
    }

    /** Linking a node puts its key at the front of that list. */
    method Link(n: ArcNode, e: Entry)
      requires Structured() && Owned() && n.key in itemMap && itemMap[n.key] == n
      requires forall h: Tag :: NotIn(ListOf(h).chain, n)
      modifies `repr, n, ListOf(e.list), ListOf(e.list).chain
      ensures Structured() && Owned() && fresh(repr - old(repr)) && View() == AddFront(old(View()), n.key, e)
    {
      hide Owned, Structured, NotIn, Linked, View, AddFront;
      PutFirst(n, e);
      Adopt(n.listNode);
    }

    method PutFirst(n: ArcNode, e: Entry)
      requires Structured() && Owned() && n.key in itemMap && itemMap[n.key] == n
      requires forall h: Tag :: NotIn(ListOf(h).chain, n)
      modifies n, ListOf(e.list), ListOf(e.list).chain
      ensures Structured() && View() == AddFront(old(View()), n.key, e)
      ensures n.listNode != null && fresh(n.listNode) && OwnedBut(n.listNode)
    {
      hide AddFront, Linked, NotIn, Structured, KeysOf;
      ghost var st := View();
      forall h: Tag ensures st.List(h) == KeysOf(ListOf(h).chain) {
        Shows(h);
      }
      Keyed();
      AddFrontAt(st, n.key, e, e.list);
      PushFront(n, e);
      assert forall k :: k in itemMap && k != n.key ==> EntryOf(itemMap[k]) == old(EntryOf(itemMap[k]));
      assert Items() == old(Items())[n.key := e];
      forall h: Tag ensures View().List(h) == AddFront(st, n.key, e).List(h) {
        AddFrontAt(st, n.key, e, h);
        Shows(h);
      }
      SameView(View(), AddFront(st, n.key, e));
    }

    /** Everything is owned but perhaps one new list node. */
    ghost predicate OwnedBut(o: object)
      reads `repr, `T1, `T2, `B1, `B2, `itemMap, T1, T2, B1, B2
    {
      && this in repr
      && (forall g: Tag :: ListOf(g) in repr)
      && (forall g: Tag, x :: x in ListOf(g).chain ==> x in repr || x == o)
      && (forall k :: k in itemMap ==> itemMap[k] in repr)
    }

    ghost method Adopt(o: object)
      requires Structured() && OwnedBut(o)
      modifies `repr
      ensures Structured() && Owned() && repr == old(repr) + {o} && View() == old(View())
    {
      hide Structured, View;
      repr := repr + {o};
    }

    lemma Lengths()
      requires Structured()
      ensures T1.len == |View().t1| && T2.len == |View().t2| && B1.len == |View().b1| && B2.len == |View().b2|
      ensures View().items.Keys == itemMap.Keys && View().p == p && View().capacity == capacity
    {
      assert ListOf(Tag.T1).Valid() && ListOf(Tag.T2).Valid() && ListOf(Tag.B1).Valid() && ListOf(Tag.B2).Valid();
    }

    /** The node that stands last in a list. */
    method Back(g: Tag) returns (n: ArcNode)
      requires Ready() && View().List(g) != []
      ensures n.key in itemMap && itemMap[n.key] == n && n.group == g && EntryOf(n) == View().items[n.key]
      ensures n.key == View().List(g)[|View().List(g)| - 1]
    {
      Shows(g);
      assert ListOf(g).Valid() && Linked(ListOf(g).chain, g, itemMap);
      var l := ListOf(g);
      n := l.tail.value;
    }

    /** Forget an unlinked node. */
    method Unmap(n: ArcNode)
      requires Structured() && n.key in itemMap && itemMap[n.key] == n
      requires forall h: Tag :: NotIn(ListOf(h).chain, n)
      modifies `itemMap
      ensures Structured() && itemMap == old(itemMap) - {n.key} && View() == old(View()).(items := old(View()).items - {n.key})
    {
      itemMap := itemMap - {n.key};
      forall h: Tag ensures Linked(ListOf(h).chain, h, itemMap) {
        assert old(Linked(ListOf(h).chain, h, itemMap)) && NotIn(ListOf(h).chain, n);
      }
      assert Items() == old(Items()) - {n.key};
    }

    /** Take a node out of its list and out of the map. */
    method Discard(n: ArcNode)
      requires Structured() && Owned() && Consistent(View()) && n.key in itemMap && itemMap[n.key] == n
      modifies `itemMap, ListOf(n.group), ListOf(n.group).chain
      ensures Structured() && Owned() && View() == Forget(old(View()), n.key)
    {
      hide Consistent, Structured, NotIn, Forget, Detach;
      ForgetIs(View(), n.key);
      Unlink(n);
      Unmap(n);
    }

    lemma Reaches(g: Tag)
      requires Owned()
      ensures this in repr && ListOf(g) in repr && forall x :: x in ListOf(g).chain ==> x in repr
    {
    }

    /** The same, with the stored bytes of a live node. */
    method Remove(n: ArcNode)
      requires Ready() && n.key in itemMap && itemMap[n.key] == n
      modifies repr
      ensures Ready() && repr == old(repr) && View() == Forget(old(View()), n.key)
    {
      hide Consistent, TotalBytes, Structured, NotIn, Holds, Forget, Owned;
      ForgetKeeps(View(), n.key);
      BytesWithout(View(), n.key);
      Mapped(n);
      Reaches(n.group);
      if n.group == Tag.T1 || n.group == Tag.T2 {
        bytesStored := bytesStored - |n.value|;
      }
      Discard(n);
    }

    /** Move a node to the front of the list its new entry names. */
    method Relocate(n: ArcNode, e: Entry)
      requires Structured() && Owned() && Consistent(View()) && n.key in itemMap && itemMap[n.key] == n
      modifies repr
      ensures Structured() && Owned() && fresh(repr - old(repr)) && View() == Place(old(View()), n.key, e)
      ensures bytesStored == old(bytesStored) && itemMap == old(itemMap)
    {
      hide Consistent, Structured, NotIn, Place, AddFront, Detach;
      PlaceIs(View(), n.key, e);
      Unlink(n);
      Link(n, e);
    }

    /** Put a new node into the map. */
    method Map(n: ArcNode)
      requires Structured() && Owned() && n.key !in itemMap && n in repr
      modifies `itemMap
      ensures Structured() && Owned() && itemMap == old(itemMap)[n.key := n]
      ensures View() == old(View()).(items := old(View()).items[n.key := EntryOf(n)])
      ensures forall h: Tag :: NotIn(ListOf(h).chain, n)
    {
      itemMap := itemMap[n.key := n];
      forall h: Tag ensures Linked(ListOf(h).chain, h, itemMap) && NotIn(ListOf(h).chain, n) {
        assert old(Linked(ListOf(h).chain, h, itemMap));
      }
      assert Items() == old(Items())[n.key := EntryOf(n)];
    }

    ghost method Own(o: object)
      requires Owned()
      modifies `repr
      ensures Owned() && repr == old(repr) + {o}
    {
      repr := repr + {o};
    }

    /** Make a node for a key that has none. */
    method NewNode(k: Key, e: Entry) returns (n: ArcNode)
      requires Structured() && Owned() && k !in itemMap
      modifies `itemMap, `repr
      ensures Structured() && Owned() && fresh(n) && repr == old(repr) + {n}
      ensures n.key == k && k in itemMap && itemMap[k] == n && forall h: Tag :: NotIn(ListOf(h).chain, n)
      ensures View() == old(View()).(items := old(View()).items[k := e])
    {
      hide *;
      n := new CacheNode(k, e.value, e.list, e.expiresAt);
      EntryIs(n);
      Own(n);
      Map(n);
    }

    /** And link it. */
    method Enter(k: Key, e: Entry)
      requires Structured() && Owned() && k !in itemMap
      modifies repr
      ensures Structured() && Owned() && fresh(repr - old(repr)) && View() == Place(old(View()), k, e)
      ensures bytesStored == old(bytesStored)
    {
      hide *;
      Mapless(k);
      NewFront(View(), k, e);
      AddFrontAgain(View(), k, e);
      Reaches(e.list);
      var n := NewNode(k, e);
      Link(n, e);
    }

    lemma Mapless(k: Key)
      requires k !in itemMap
      ensures k !in View().items
    {
    }

    /** Give a node a live entry at the front of its new list. */
    method Refresh(n: ArcNode, e: Entry)
      requires Ready() && n.key in itemMap && itemMap[n.key] == n && e.Live()
      modifies repr
      ensures Ready() && fresh(repr - old(repr)) && View() == Place(old(View()), n.key, e)
      ensures itemMap == old(itemMap)
    {
      hide Consistent, TotalBytes, Structured, Holds, Place, Owned;
      PlaceKeeps(View(), n.key, e);
      BytesPlaced(View(), n.key, e);
      Mapped(n);
      Reaches(e.list);
      bytesStored := bytesStored + |e.value| - (if n.group == Tag.T1 || n.group == Tag.T2 then |n.value| else 0);
      Relocate(n, e);
    }

    /** Turn a live node into a ghost. */
    method Displace(n: ArcNode, g: Tag)
      requires Ready() && n.key in itemMap && itemMap[n.key] == n && (n.group == Tag.T1 || n.group == Tag.T2)
      requires g == Tag.B1 || g == Tag.B2
      modifies repr
      ensures Ready() && fresh(repr - old(repr)) && View() == Place(old(View()), n.key, Entry([], g, old(n.expiresAt)))
      ensures itemMap == old(itemMap)
    {
      hide Consistent, TotalBytes, Structured, Holds, Place, Owned;
      ghost var e := Entry([], g, n.expiresAt);
      PlaceKeeps(View(), n.key, e);
      BytesPlaced(View(), n.key, e);
      Mapped(n);
      Reaches(g);
      bytesStored := bytesStored - |n.value|;
      Relocate(n, Entry([], g, n.expiresAt));
    }

    /** Add a live entry for a key that has no node. */
    method Insert(k: Key, e: Entry)
      requires Ready() && k !in itemMap && e.Live()
      modifies repr
      ensures Ready() && fresh(repr - old(repr)) && View() == Place(old(View()), k, e)
    {
      hide Consistent, TotalBytes, Structured, Holds, Place, Owned;
      PlaceKeeps(View(), k, e);
      BytesPlaced(View(), k, e);
      Mapless(k);
      Reaches(e.list);
      Enter(k, e);
      bytesStored := bytesStored + |e.value|;
    }

    /** Turn the last node of T1 or T2 into a ghost of its side; an empty value is not reported. */
    method Evict(g: Tag) returns (evicted: seq<(Key, Bytes)>)
      requires Ready() && (g == Tag.T1 || g == Tag.T2) && View().List(g) != []
      modifies repr
      ensures Ready() && fresh(repr - old(repr))
      ensures View() == Ghosted(old(View()), g) && evicted == GhostReport(old(View()), g)
      ensures itemMap == old(itemMap)
    {
      hide Consistent, Structured, Owned, Accounted, Place;
      var n := Back(g);
      evicted := if n.value != [] then [(n.key, n.value)] else [];
      Displace(n, if g == Tag.T1 then Tag.B1 else Tag.B2);
    }

    /** Evict the least recent entry of T1 or T2 and keep its key as a ghost. */
    method Replace(preferT2: bool) returns (evicted: seq<(Key, Bytes)>)
      requires Ready()
      modifies repr
      ensures Ready() && fresh(repr - old(repr))
      ensures View() == ArcSpec.Replace(old(View()), preferT2)
      ensures evicted == ReplaceReport(old(View()), preferT2)
      ensures itemMap == old(itemMap)
    {
      hide *;
      OfReady();
      Lengths();
      ReplaceIs(View(), preferT2);
      evicted := [];
      if T1.len > 0 && (T1.len > p || (preferT2 && T1.len == p)) {
        evicted := Evict(Tag.T1);
      } else if T2.len > 0 {
        evicted := Evict(Tag.T2);
      }
    }

    /** Drop the last node of a list, if there is one. */
    method DropLast(g: Tag)
      requires Ready()
      modifies repr
      ensures Ready() && repr == old(repr) && View() == ForgetLast(old(View()), old(View()).List(g))
    {
      hide *;
      OfReady();
      LengthOf(g);
      ForgetLastIs(View(), g);
      if ListOf(g).len > 0 {
        var n := Back(g);
        Remove(n);
      }
    }

    lemma LengthOf(g: Tag)
      requires Structured()
      ensures ListOf(g).len == |View().List(g)|
    {
      assert ListOf(g).Valid();
    }

    /** What a new key pushes out: a ghost, the last of T1, or a replacement. */
    method MakeRoom() returns (evicted: seq<(Key, Bytes)>)
      requires Valid()
      modifies repr
      ensures Ready() && fresh(repr - old(repr))
      ensures View() == ArcSpec.MakeRoom(old(View())) && evicted == RoomReport(old(View()))
    {
      hide *;
      OfValid();
      OfReady();
      Lengths();
      RoomIs(View());
      evicted := [];
      if T1.len + B1.len == capacity {
        if T1.len < capacity {
          DropLast(Tag.B1);
          evicted := Replace(false);
        } else if T1.len > 0 {
          var n := Back(Tag.T1);
          Mapped(n);
          EntryIs(n);
          evicted := [(n.key, n.value)];
          Remove(n);
        }
      } else if T1.len + T2.len >= capacity {
        if T1.len + T2.len + B1.len + B2.len >= 2 * capacity {
          DropLast(Tag.B2);
        }
        evicted := Replace(false);
      }
    }

    lemma OfValid()
      requires Valid()
      ensures Ready() && Bounded(View())
    {
    }

    /** Move the target size of T1. */
    method Aim(target: int)
      requires Ready()
      modifies `p
      ensures Ready() && View() == old(View()).(p := target)
    {
      hide Structured, Owned, Holds, TotalBytes, Consistent, KeysOf, Items;
      AimKeeps(View(), target);
      p := target;
    }

    method Get(key: Key, now: int) returns (answer: Option<Bytes>)
      requires Valid()
      modifies repr
      ensures Valid() && fresh(repr - old(repr))
      ensures View() == Apply(old(View()), Call(Op.Get(key), now)).state
      ensures answer == Apply(old(View()), Call(Op.Get(key), now)).answer
    {
      hide *;
      Begin(Call(Op.Get(key), now));
      ReadIs(View(), key, now);
      answer := None;
      if key in itemMap {
        var n := itemMap[key];
        Here(key);
        if n.group != Tag.B1 && n.group != Tag.B2 {
          if Expired(n.expiresAt, now) {
            Remove(n);
          } else {
            answer := Some(n.value);
            Alive(n.value, n.expiresAt);
            Refresh(n, Entry(n.value, Tag.T2, n.expiresAt));
          }
        }
      }
      Done();
    }

    method Peek(key: Key, now: int) returns (answer: Option<Bytes>)
      requires Valid()
      modifies repr
      ensures Valid() && fresh(repr - old(repr))
      ensures View() == Apply(old(View()), Call(Op.Peek(key), now)).state
      ensures answer == Apply(old(View()), Call(Op.Peek(key), now)).answer
    {
      hide *;
      Begin(Call(Op.Peek(key), now));
      ReadIs(View(), key, now);
      answer := None;
      if key in itemMap {
        var n := itemMap[key];
        Here(key);
        if n.group != Tag.B1 && n.group != Tag.B2 {
          if Expired(n.expiresAt, now) {
            Remove(n);
          } else {
            answer := Some(n.value);
          }
        }
      }
      Done();
    }

    /** The four cases of a write, in the source's order. */
    method Set(key: Key, value: Bytes, ttl: int, now: int) returns (evicted: seq<(Key, Bytes)>)
      requires Valid()
      modifies repr
      ensures Valid() && fresh(repr - old(repr))
      ensures View() == Apply(old(View()), Call(Op.Set(key, value, ttl), now)).state
      ensures evicted == Apply(old(View()), Call(Op.Set(key, value, ttl), now)).evicted
    {
      hide *;
      var exp := DeadlineFor(now, ttl);
      ghost var st := View();
      Begin(Call(Op.Set(key, value, ttl), now));
      AppliesWrite(st, Call(Op.Set(key, value, ttl), now));
      WriteIs(st, key, Item(value, exp));
      Alive(value, exp);
      if key !in itemMap {
        evicted := MakeRoom();
        NoNewKeys(st, key);
        OfReady();
        Lengths();
        Insert(key, Entry(value, Tag.T1, exp));
      } else {
        var n := itemMap[key];
        Here(key);
        if n.group == Tag.T1 || n.group == Tag.T2 {
          evicted := [];
          Refresh(n, Entry(value, Tag.T2, exp));
        } else {
          evicted := Revive(n, Entry(value, Tag.T2, exp));
        }
      }
      Done();
    }

    /** A write to a ghost: the target adapts, a live entry may be displaced, the ghost comes back to life in T2. */
    method Revive(n: ArcNode, e: Entry) returns (evicted: seq<(Key, Bytes)>)
      requires Valid() && n.key in itemMap && itemMap[n.key] == n && (n.group == Tag.B1 || n.group == Tag.B2) && e.list == Tag.T2
      modifies repr
      ensures Ready() && fresh(repr - old(repr))
      ensures var st, k := old(View()), n.key;
        && k in st.items
        && View() == Place(ArcSpec.Replace(Adapt(st, k), st.items[k].list == Tag.B2), k, e)
        && evicted == ReplaceReport(Adapt(st, k), st.items[k].list == Tag.B2)
    {
      hide *;
      ghost var st := View();
      OfValid();
      OfReady();
      Lengths();
      Here(n.key);
      AdaptIs(st, n.key);
      AliveEntry(e);
      var wasB2 := n.group == Tag.B2;
      if wasB2 {
        var delta := if B2.len > 0 && B1.len > B2.len then B1.len / B2.len else 1;
        Aim(Max(p - delta, 0));
      } else {
        var delta := if B1.len > 0 && B2.len > B1.len then B2.len / B1.len else 1;
        Aim(Min(p + delta, capacity));
      }
      evicted := Replace(wasB2);
      Refresh(n, e);
    }

    /** A ghost counts as found, although it holds nothing. */
    method Delete(key: Key) returns (found: bool)
      requires Valid()
      modifies repr
      ensures Valid() && fresh(repr - old(repr))
      ensures found <==> key in old(View()).items
      ensures View() == Apply(old(View()), Call(Op.Delete(key), 0)).state
    {
      hide *;
      Begin(Call(Op.Delete(key), 0));
      DeleteIs(View(), key);
      found := key in itemMap;
      if found {
        Here(key);
        Remove(itemMap[key]);
      }
      Done();
    }

    method Purge()
      requires Valid()
      modifies repr
      ensures Valid() && fresh(repr - old(repr)) && View() == Empty(capacity)
    {
      hide *;
      OfValid();
      OfReady();
      Lengths();
      Positive(View());
      var t1, t2, b1, b2 := FourLists();
      T1, T2, B1, B2 := t1, t2, b1, b2;
      itemMap, p, bytesStored := map[], 0, 0;
      repr := repr + {T1, T2, B1, B2};
      NothingYet();
    }

    lemma Begin(call: Call)
      requires Valid()
      ensures Ready() && Bounded(View()) && Structured() && Consistent(View()) && this in repr
      ensures Bounded(Apply(View(), call).state)
      ensures View().items.Keys == itemMap.Keys
    {
      hide Structured, Consistent, Bounded, Owned, Accounted, Apply;
      OfReady();
      ApplyKeepsBounds(View(), call);
      Lengths();
    }

    lemma Done()
      requires Ready() && Bounded(View())
      ensures Valid()
    {
    }

    lemma Here(k: Key)
      requires Structured() && k in itemMap
      ensures itemMap[k].key == k && k in View().items
      ensures View().items[k] == Entry(itemMap[k].value, itemMap[k].group, itemMap[k].expiresAt)
    {
    }

    lemma OfReady()
      requires Ready()
      ensures Structured() && Owned() && Consistent(View()) && this in repr
      ensures View().List(Tag.T1) == View().t1 && View().List(Tag.T2) == View().t2
    {
    }

    lemma Mapped(n: ArcNode)
      requires n.key in itemMap && itemMap[n.key] == n
      ensures n.key in View().items && View().items[n.key] == EntryOf(n)
    {
    }
  }

  lemma PlaceIs(st: State, k: Key, e: Entry)
    requires k in st.items
    ensures Place(st, k, e) == AddFront(Detach(st, k), k, e)
  {
    assert (st.items - {k})[k := e] == st.items[k := e];
  }

  lemma AddFrontAgain(st: State, k: Key, e: Entry)
    ensures AddFront(st.(items := st.items[k := e]), k, e)
         == st.WithList(e.list, [k] + st.List(e.list)).(items := st.items[k := e])
  {
  }

  lemma EntryIs(n: ArcNode)
    ensures EntryOf(n) == Entry(n.value, n.group, n.expiresAt)
  {
  }

  lemma ForgetIs(st: State, k: Key)
    ensures Forget(st, k) == Detach(st, k).(items := Detach(st, k).items - {k})
  {
  }

  /** The last key of a live list, moved to the ghosts of its side, and what the callback hears of it. */
  function Ghosted(st: State, g: Tag): State {
    var s := st.List(g);
    if s != [] && s[|s| - 1] in st.items then
      Place(st, s[|s| - 1], Entry([], if g == T1 then B1 else B2, st.items[s[|s| - 1]].expiresAt))
    else st
  }

  function GhostReport(st: State, g: Tag): seq<(Key, Bytes)> {
    var s := st.List(g);
    if s != [] && s[|s| - 1] in st.items && st.items[s[|s| - 1]].value != [] then
      [(s[|s| - 1], st.items[s[|s| - 1]].value)]
    else []
  }

  lemma ReplaceIs(st: State, preferT2: bool)
    requires Consistent(st)
    ensures if |st.t1| > 0 && (|st.t1| > st.p || (preferT2 && |st.t1| == st.p)) then
        Replace(st, preferT2) == Ghosted(st, T1) && ReplaceReport(st, preferT2) == GhostReport(st, T1)
      else if |st.t2| > 0 then
        Replace(st, preferT2) == Ghosted(st, T2) && ReplaceReport(st, preferT2) == GhostReport(st, T2)
      else Replace(st, preferT2) == st && ReplaceReport(st, preferT2) == []
  {
    hide Place, Consistent, Without;
    if |st.t1| > 0 {
      Tagged(st, T1, |st.t1| - 1);
    }
    if |st.t2| > 0 {
      Tagged(st, T2, |st.t2| - 1);
    }
  }

  lemma ForgetLastIs(st: State, g: Tag)
    ensures ForgetLast(st, st.List(g)) == if |st.List(g)| > 0 then Forget(st, st.List(g)[|st.List(g)| - 1]) else st
  {
  }

  /** The four ways of making room, by the lengths the source compares. */
  lemma RoomIs(st: State)
    requires Consistent(st)
    ensures if |st.t1| + |st.b1| == st.capacity then
        if |st.t1| < st.capacity then
          MakeRoom(st) == Replace(ForgetLast(st, st.List(B1)), false)
          && RoomReport(st) == ReplaceReport(ForgetLast(st, st.List(B1)), false)
        else if |st.t1| > 0 then
          && st.List(T1) == st.t1 && st.t1[|st.t1| - 1] in st.items
          && MakeRoom(st) == Forget(st, st.t1[|st.t1| - 1])
          && RoomReport(st) == [(st.t1[|st.t1| - 1], st.items[st.t1[|st.t1| - 1]].value)]
        else MakeRoom(st) == st && RoomReport(st) == []
      else if |st.t1| + |st.t2| >= st.capacity then
        var trimmed := if |st.t1| + |st.t2| + |st.b1| + |st.b2| >= 2 * st.capacity then ForgetLast(st, st.List(B2)) else st;
        MakeRoom(st) == Replace(trimmed, false) && RoomReport(st) == ReplaceReport(trimmed, false)
      else MakeRoom(st) == st && RoomReport(st) == []
  {
    hide Replace, ReplaceReport, Forget;
  }

  lemma AimKeeps(st: State, target: int)
    ensures Consistent(st) <==> Consistent(st.(p := target))
    ensures Holds(st.(p := target)) == Holds(st)
  {
  }

  /** What reading does, by the tags and the deadline the source looks at. */
  lemma ReadIs(st: State, k: Key, now: int)
    ensures var get, peek := Apply(st, Call(Get(k), now)), Apply(st, Call(Peek(k), now));
      if k !in st.items || st.items[k].list == B1 || st.items[k].list == B2 then
        get.state == st && get.answer == None && peek.state == st && peek.answer == None
      else if Expired(st.items[k].expiresAt, now) then
        get.state == Forget(st, k) && get.answer == None && peek.state == Forget(st, k) && peek.answer == None
      else
        && get.state == Place(st, k, Entry(st.items[k].value, T2, st.items[k].expiresAt))
        && get.answer == Some(st.items[k].value)
        && peek.state == st && peek.answer == Some(st.items[k].value)
  {
    hide Place, Forget;
  }

  /** What writing does, case by case. */
  lemma WriteIs(st: State, k: Key, item: Item)
    ensures var o, e := Write(st, k, item), Entry(item.value, T2, item.deadline);
      if k !in st.items then
        o.state == Place(MakeRoom(st), k, Entry(item.value, T1, item.deadline)) && o.evicted == RoomReport(st)
      else if st.items[k].list == T1 || st.items[k].list == T2 then
        o.state == Place(st, k, e) && o.evicted == []
      else
        && o.state == Place(Replace(Adapt(st, k), st.items[k].list == B2), k, e)
        && o.evicted == ReplaceReport(Adapt(st, k), st.items[k].list == B2)
  {
    hide Place, Replace, MakeRoom, Adapt, ReplaceReport, RoomReport;
  }

  lemma AdaptIs(st: State, k: Key)
    requires k in st.items
    ensures st.items[k].list == B1 ==>
      Adapt(st, k) == st.(p := Min(st.p + (if |st.b1| > 0 && |st.b2| > |st.b1| then |st.b2| / |st.b1| else 1), st.capacity))
    ensures st.items[k].list == B2 ==>
      Adapt(st, k) == st.(p := Max(st.p - (if |st.b2| > 0 && |st.b1| > |st.b2| then |st.b1| / |st.b2| else 1), 0))
  {
  }

  lemma DeleteIs(st: State, k: Key)
    ensures Apply(st, Call(Delete(k), 0)).state == if k in st.items then Forget(st, k) else st
  {
    hide Forget;
  }

  lemma Alive(value: Bytes, d: Deadline)
    ensures Entry(value, T1, d).Live() && Entry(value, T2, d).Live()
  {
  }

  lemma AliveEntry(e: Entry)
    requires e.list == T2
    ensures e.Live()
  {
  }

  /** Making room brings in no key. */
  lemma NoNewKeys(st: State, k: Key)
    requires Consistent(st) && Bounded(st) && k !in st.items
    ensures k !in MakeRoom(st).items
  {
    hide Consistent, Bounded, MakeRoom;
    MakeRoomEffect(st);
  }

  lemma Positive(st: State)
    requires Bounded(st)
    ensures 0 < st.capacity
  {
  }

  /** The live bytes lost with a node. */
  lemma BytesWithout(st: State, k: Key)
    ensures TotalBytes(Holds(Forget(st, k))) == TotalBytes(Holds(st)) - LiveBytes(st, k)
  {
    hide TotalBytes;
    HoldsForget(st, k);
    if k in Holds(st) {
      TotalBytesWithout(Holds(st), k);
    } else {
      assert Holds(st) - {k} == Holds(st);
    }
  }

  function LiveBytes(st: State, k: Key): nat {
    if k in st.items && st.items[k].Live() then |st.items[k].value| else 0
  }

  /** And gained with another entry for its key. */
  lemma BytesPlaced(st: State, k: Key, e: Entry)
    ensures TotalBytes(Holds(Place(st, k, e))) == TotalBytes(Holds(st)) - LiveBytes(st, k) + (if e.Live() then |e.value| else 0)
  {
    hide TotalBytes, Place;
    HoldsPlace(st, k, e);
    HoldsForget(st, k);
    BytesWithout(st, k);
    TotalBytesWith(Holds(st), k, AsItem(e));
  }
}
