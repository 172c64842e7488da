/**
 The TTL wheel's data structure: a binary min-heap of deadlines whose entries know their own
 position, beside a map from keys to entries. Proved against a plain map of deadlines.
 */
module TtlHeap {
  import opened Basics

  class Entry {
    const key: Key
    const expAt: int
    var index: int

    constructor (key: Key, expAt: int)
      ensures this.key == key && this.expAt == expAt
    {
      this.key, this.expAt, index := key, expAt, 0;
    }
  }

  // ---------- heap order ----------

  function Parent(i: int): int {
    (i - 1) / 2
  }

  /** Every place below `n` but those excused is not due before its parent. */
  predicate OrderedAt(h: seq<Entry>, i: int) {
    0 < i < |h| ==> h[Parent(i)].expAt <= h[i].expAt
  }

  predicate Ordered(h: seq<Entry>, n: nat) {
    n <= |h| && forall i :: 0 < i < n ==> OrderedAt(h, i)
  }

  /** Ordered but for the edge above `j`; below `j` the order holds across it. */
  predicate OrderedButAbove(h: seq<Entry>, n: nat, j: nat) {
    && j < n <= |h|
    && (forall i :: 0 < i < n && i != j ==> OrderedAt(h, i))
    && (forall i :: 0 < i < n && Parent(i) == j && 0 < j ==> h[Parent(j)].expAt <= h[i].expAt)
  }

  /** Ordered but for the edges below `j`, and above it too if `top`. */
  predicate OrderedButBelow(h: seq<Entry>, n: nat, j: nat, top: bool) {
    && j < n <= |h|
    && (forall i :: 0 < i < n && Parent(i) != j && !(top && i == j) ==> OrderedAt(h, i))
    && (forall i :: 0 < i < n && Parent(i) == j && 0 < j ==> h[Parent(j)].expAt <= h[i].expAt)
  }

  /** The first entry of an ordered heap is due first. */
  lemma {:induction false} RootIsEarliest(h: seq<Entry>, i: nat)
    requires Ordered(h, |h|) && i < |h|
    ensures h[0].expAt <= h[i].expAt
    decreases i
  {
    if i > 0 {
      assert OrderedAt(h, i);
      RootIsEarliest(h, Parent(i));
    }
  }

  function Swapped(h: seq<Entry>, i: nat, j: nat): seq<Entry>
    requires i < |h| && j < |h|
  {
    h[i := h[j]][j := h[i]]
  }

  lemma SwappedTail(h: seq<Entry>, i: nat, j: nat, n: nat)
    requires i < n && j < n <= |h|
    ensures |Swapped(h, i, j)| == |h| && Swapped(h, i, j)[n..] == h[n..]
  {
  }

  /** One step of `up`: an entry due before its parent changes places with it. */
  lemma UpStep(h: seq<Entry>, n: nat, j: nat)
    requires OrderedButAbove(h, n, j) && 0 < j && h[j].expAt < h[Parent(j)].expAt
    ensures OrderedButAbove(Swapped(h, Parent(j), j), n, Parent(j))
  {
    var i := Parent(j);
    var s := Swapped(h, i, j);
    forall m | 0 < m < n && m != i ensures OrderedAt(s, m) {
      if m != j {
        assert OrderedAt(h, m);
      }
    }
    forall m | 0 < m < n && Parent(m) == i && 0 < i ensures s[Parent(i)].expAt <= s[m].expAt {
      assert OrderedAt(h, i);
      if m != j {
        assert OrderedAt(h, m);
      }
    }
  }

  /** One step of `down`: an entry due after its earlier child changes places with it. */
  lemma DownStep(h: seq<Entry>, n: nat, i: nat, c: nat, top: bool)
    requires OrderedButBelow(h, n, i, top) && c < n && (c == 2 * i + 1 || c == 2 * i + 2)
    requires 2 * i + 1 < n ==> h[c].expAt <= h[2 * i + 1].expAt
    requires 2 * i + 2 < n ==> h[c].expAt <= h[2 * i + 2].expAt
    requires h[c].expAt < h[i].expAt
    ensures OrderedButBelow(Swapped(h, i, c), n, c, false)
  {
    var s := Swapped(h, i, c);
    forall m | 0 < m < n && Parent(m) != c ensures OrderedAt(s, m) {
      if m != i && Parent(m) != i {
        assert OrderedAt(h, m);
      } else if m != i {
        assert m == 2 * i + 1 || m == 2 * i + 2;
      }
    }
    forall m | 0 < m < n && Parent(m) == c ensures s[i].expAt <= s[m].expAt {
      assert OrderedAt(h, m);
    }
  }

  // ---------- the wheel ----------

  class Wheel {
    var h: seq<Entry>
    var index: map<Key, Entry>
    /** Every entry the wheel ever made. */
    ghost var repr: set<Entry>

    /** Each entry's index is its position, and the key index is in bijection with the heap. */
    ghost predicate Filed()
      reads `h, `index, `repr, repr`index
    {
      && (forall i {:trigger h[i]} :: 0 <= i < |h| ==>
            h[i] in repr && h[i].index == i && h[i].key in index && index[h[i].key] == h[i])
      && (forall k {:trigger index[k]} :: k in index ==>
            index[k] in repr && index[k].key == k && 0 <= index[k].index < |h| && h[index[k].index] == index[k])
    }

    ghost predicate Valid()
      reads this, repr`index
    {
      Filed() && Ordered(h, |h|)
    }

    /** What is scheduled: the deadline of every key. */
    ghost function Deadlines(): map<Key, int>
      reads this
    {
      map k | k in index :: index[k].expAt
    }

    constructor ()
      ensures Valid() && Deadlines() == map[] && repr == {}
    {
      h, index, repr := [], map[], {};
    }

    method Swap(i: nat, j: nat)
      requires Filed() && i < |h| && j < |h|
      modifies `h, repr`index
      ensures Filed() && h == Swapped(old(h), i, j)
    {
      var a, b := h[i], h[j];
      h := h[i := b][j := a];
      b.index := i;
      a.index := j;
    }

    method Up(j0: nat, ghost n: nat)
      requires Filed() && OrderedButAbove(h, n, j0)
      modifies `h, repr`index
      ensures Filed() && |h| == old(|h|) && Ordered(h, n)
      ensures h[n..] == old(h[n..])
    {
      hide Filed;
      var j: nat := j0;
      while true
        invariant Filed() && |h| == old(|h|) && OrderedButAbove(h, n, j)
        invariant h[n..] == old(h[n..])
        decreases j
      {
        var i: nat := if j == 0 then 0 else (j - 1) / 2;
        if i == j || !(h[j].expAt < h[i].expAt) {
          break;
        }
        UpStep(h, n, j);
        SwappedTail(h, i, j, n);
        Swap(i, j);
        j := i;
      }
    }

    /** The child of `i` that must change places with it, or `i` itself if neither is due earlier. */
    method EarlierChild(i: nat, n: nat) returns (j: nat)
      requires i < n <= |h|
      ensures j == i || (j < n && (j == 2 * i + 1 || j == 2 * i + 2) && h[j].expAt < h[i].expAt)
      ensures 2 * i + 1 < n ==> h[j].expAt <= h[2 * i + 1].expAt
      ensures 2 * i + 2 < n ==> h[j].expAt <= h[2 * i + 2].expAt
    {
      var j1 := 2 * i + 1;
      if j1 >= n {
        return i;
      }
      j := j1;
      if j1 + 1 < n && h[j1 + 1].expAt < h[j1].expAt {
        j := j1 + 1;
      }
      if !(h[j].expAt < h[i].expAt) {
        return i;
      }
    }

    /** Sift down from `i0` among the first `n`. If nothing moved, only the edge above `i0` may be wrong. */
    method Down(i0: nat, n: nat) returns (moved: bool)
      requires Filed() && OrderedButBelow(h, n, i0, true)
      modifies `h, repr`index
      ensures Filed() && |h| == old(|h|) && n <= |h|
      ensures h[n..] == old(h[n..])
      ensures if moved then Ordered(h, n) else OrderedButAbove(h, n, i0)
    {
      assert i0 < n <= |h|;
      hide Filed, OrderedButBelow, Ordered, OrderedButAbove, Swapped;
      var i: nat := i0;
      while true
        invariant Filed() && |h| == old(|h|) && i0 <= i < n <= |h| && OrderedButBelow(h, n, i, i == i0)
        invariant h[n..] == old(h[n..])
        decreases n - i
      {
        var j := EarlierChild(i, n);
        if j == i {
          break;
        }
        DownStep(h, n, i, j, i == i0);
        SwappedTail(h, i, j, n);
        Swap(i, j);
        i := j;
      }
      DownDone(h, n, i, i == i0);
      return i > i0;
    }

    /** Take out the entry at a position; the rest is a heap again. */
    method RemoveAt(i: nat) returns (e: Entry)
      requires Valid() && i < |h|
      modifies this, repr`index
      ensures Valid() && repr == old(repr)
      ensures e == old(h)[i] && e.key in old(index)
      ensures index == old(index) - {e.key} && |h| == old(|h|) - 1
    {
      hide OrderedButBelow, OrderedButAbove;
      var n := |h| - 1;
      e := h[i];
      if n != i {
        Swap(i, n);
        MovedIn(old(h), i);
        var moved := Down(i, n);
        if !moved {
          Up(i, n);
        }
        assert h[n..] == [e];
      }
      DropLast();
    }

    /** Cut off the last entry and forget its key. */
    method DropLast()
      requires Filed() && |h| > 0 && Ordered(h, |h| - 1)
      modifies `h, `index, repr`index
      ensures Valid() && h == old(h)[..|old(h)| - 1]
      ensures index == old(index) - {old(h)[|old(h)| - 1].key}
    {
      var n := |h| - 1;
      var e := h[n];
      assert forall i :: 0 < i < n ==> OrderedAt(h, i);
      h := h[..n];
      e.index := -1;
      index := index - {e.key};
      forall i | 0 < i < n ensures OrderedAt(h, i) {
        assert OrderedAt(old(h), i);
      }
    }

    /** Add or move a key's deadline. A time to live of zero or less is ignored. */
    method Schedule(key: Key, ttl: int, now: int)
      requires Valid()
      modifies this, repr`index
      ensures Valid() && fresh(repr - old(repr))
      ensures Deadlines() == if ttl <= 0 then old(Deadlines()) else old(Deadlines())[key := now + ttl]
    {
      if ttl <= 0 {
        return;
      }
      if key in index {
        var _ := RemoveAt(index[key].index);
      }
      var e := new Entry(key, now + ttl);
      Push(e);
    }

    method Push(e: Entry)
      requires Valid() && e.key !in index && e !in repr
      modifies this, repr`index, e`index
      ensures Valid() && repr == old(repr) + {e} && index == old(index)[e.key := e]
    {
      e.index := |h|;
      h := h + [e];
      index := index[e.key := e];
      repr := repr + {e};
      Appended(old(h), e);
      hide OrderedButAbove;
      Up(|h| - 1, |h|);
    }

    method Cancel(key: Key)
      requires Valid()
      modifies this, repr`index
      ensures Valid() && repr == old(repr)
      ensures Deadlines() == old(Deadlines()) - {key}
    {
      if key in index {
        var _ := RemoveAt(index[key].index);
      }
    }

    /**
     What the run loop does when its timer fires: take out exactly the entries due at `now`, each
     once, earliest deadline first.
     */
    method ExpireDue(now: int) returns (expired: seq<Key>)
      requires Valid()
      modifies this, repr`index
      ensures Valid() && repr == old(repr)
      ensures forall k :: k in expired <==> k in old(Deadlines()) && old(Deadlines())[k] <= now
      ensures forall i, j :: 0 <= i < j < |expired| ==> expired[i] != expired[j]
      ensures forall i, j :: 0 <= i < j < |expired| ==> old(Deadlines())[expired[i]] <= old(Deadlines())[expired[j]]
      ensures Deadlines() == map k | k in old(Deadlines()) && old(Deadlines())[k] > now :: old(Deadlines())[k]
    {
      hide Ordered;
      expired := [];
      while |h| > 0 && h[0].expAt <= now
        invariant Valid() && repr == old(repr)
        invariant forall k :: k in index ==> k in old(index) && index[k] == old(index)[k]
        invariant forall k :: k in old(index) ==> k in index || k in expired
        invariant forall i :: 0 <= i < |expired| ==>
          expired[i] in old(index) && expired[i] !in index && old(index)[expired[i]].expAt <= now
        invariant forall i, j :: 0 <= i < j < |expired| ==> expired[i] != expired[j]
        invariant forall i, j :: 0 <= i < j < |expired| ==> old(index)[expired[i]].expAt <= old(index)[expired[j]].expAt
        invariant forall i, k :: 0 <= i < |expired| && k in index ==> old(index)[expired[i]].expAt <= index[k].expAt
        decreases |h|
      {
        forall k | k in index ensures h[0].expAt <= index[k].expAt {
          RootIsEarliest(h, index[k].index);
        }
        var e := RemoveAt(0);
        expired := expired + [e.key];
      }
      forall k | k in index ensures index[k].expAt > now {
        RootIsEarliest(h, index[k].index);
      }
    }
  }

  lemma Appended(h: seq<Entry>, e: Entry)
    requires Ordered(h, |h|)
    ensures OrderedButAbove(h + [e], |h| + 1, |h|)
  {
    var s := h + [e];
    forall i | 0 < i < |h| ensures OrderedAt(s, i) {
      assert OrderedAt(h, i);
    }
  }

  /** When no child is due earlier, the sift is over. */
  lemma DownDone(h: seq<Entry>, n: nat, i: nat, top: bool)
    requires OrderedButBelow(h, n, i, top)
    requires 2 * i + 1 < n ==> h[i].expAt <= h[2 * i + 1].expAt
    requires 2 * i + 2 < n ==> h[i].expAt <= h[2 * i + 2].expAt
    ensures if top then OrderedButAbove(h, n, i) else Ordered(h, n)
  {
    forall m | 0 < m < n && !(top && m == i) ensures OrderedAt(h, m) {
      if Parent(m) == i {
        assert m == 2 * i + 1 || m == 2 * i + 2;
      }
    }
  }

  /** Moving the last entry into a hole disturbs the order only around the hole. */
  lemma MovedIn(h: seq<Entry>, i: nat)
    requires Ordered(h, |h|) && i < |h| - 1
    ensures OrderedButBelow(Swapped(h, i, |h| - 1), |h| - 1, i, true)
  {
    var s, n := Swapped(h, i, |h| - 1), |h| - 1;
    forall m | 0 < m < n && Parent(m) != i && m != i ensures OrderedAt(s, m) {
      assert OrderedAt(h, m);
    }
    forall m | 0 < m < n && Parent(m) == i && 0 < i ensures s[Parent(i)].expAt <= s[m].expAt {
      assert OrderedAt(h, m) && OrderedAt(h, i);
    }
  }
}
