/** The frequency buckets of the LFU cache: one list per frequency, most recently touched first. */
module LfuBuckets {
  import opened Basics
  import opened KeyLists
  import opened LfuSpec

  type Buckets = map<int, seq<Key>>

  function KeysAt(b: Buckets, f: int): seq<Key> {
    if f in b then b[f] else []
  }

  /** `s` lists, latest touch first, exactly the keys of frequency `f`. */
  predicate Bucket(s: seq<Key>, f: int, entries: map<Key, Entry>) {
    && (forall i :: 0 <= i < |s| ==> s[i] in entries && entries[s[i]].freq == f)
    && (forall i, j :: 0 <= i < j < |s| ==> s[i] != s[j] && entries[s[i]].stamp > entries[s[j]].stamp)
    && (forall k :: k in entries && entries[k].freq == f ==> k in s)
  }

  /** Every frequency's list is right, and no empty list is kept. */
  ghost predicate Bucketed(b: Buckets, entries: map<Key, Entry>) {
    && (forall f :: Bucket(KeysAt(b, f), f, entries))
    && (forall f :: f in b ==> b[f] != [])
  }

  /** Take a key out of one bucket, dropping the bucket when that empties it. */
  function Unlink(b: Buckets, f: int, k: Key): Buckets {
    if f !in b then b
    else
      var rest := Without(b[f], k);
      if rest == [] then b - {f} else b[f := rest]
  }

  function Link(b: Buckets, f: int, k: Key): Buckets {
    b[f := [k] + KeysAt(b, f)]
  }

  lemma BucketWithout(s: seq<Key>, f: int, entries: map<Key, Entry>, k: Key)
    requires Bucket(s, f, entries)
    ensures Bucket(Without(s, k), f, entries - {k})
    ensures k in entries && entries[k].freq != f ==> Without(s, k) == s
  {
    WithoutKeeps(s, k);
    var w := Without(s, k);
    forall i | 0 <= i < |w| ensures w[i] in s && w[i] != k {
      assert w[i] in w;
    }
    forall i, j | 0 <= i < j < |w| ensures entries[w[i]].stamp > entries[w[j]].stamp {
      var i', j' := WithoutPositions(s, k, i, j);
    }
    if k in entries && entries[k].freq != f {
      WithoutAbsent(s, k);
    }
  }

  /** Two elements that survive stand in the same order as before. */
  lemma {:induction false} WithoutPositions(s: seq<Key>, k: Key, i: nat, j: nat) returns (i': nat, j': nat)
    requires i < j < |Without(s, k)|
    ensures i' < j' < |s| && s[i'] == Without(s, k)[i] && s[j'] == Without(s, k)[j]
  {
    if s[0] == k {
      i', j' := WithoutPositions(s[1..], k, i, j);
      i', j' := i' + 1, j' + 1;
    } else if i > 0 {
      i', j' := WithoutPositions(s[1..], k, i - 1, j - 1);
      i', j' := i' + 1, j' + 1;
    } else {
      i' := 0;
      j' := WithoutPosition(s[1..], k, j - 1);
      j' := j' + 1;
    }
  }

  lemma {:induction false} WithoutPosition(s: seq<Key>, k: Key, j: nat) returns (j': nat)
    requires j < |Without(s, k)|
    ensures j' < |s| && s[j'] == Without(s, k)[j]
  {
    if s[0] == k {
      j' := WithoutPosition(s[1..], k, j);
      j' := j' + 1;
    } else if j > 0 {
      j' := WithoutPosition(s[1..], k, j - 1);
      j' := j' + 1;
    } else {
      j' := 0;
    }
  }

  lemma UnlinkKeeps(b: Buckets, entries: map<Key, Entry>, k: Key)
    requires Bucketed(b, entries) && k in entries
    ensures Bucketed(Unlink(b, entries[k].freq, k), entries - {k})
    ensures entries[k].freq in b
  {
    var f := entries[k].freq;
    assert Bucket(KeysAt(b, f), f, entries);
    assert k in KeysAt(b, f);
    var u := Unlink(b, f, k);
    forall g ensures Bucket(KeysAt(u, g), g, entries - {k}) {
      assert Bucket(KeysAt(b, g), g, entries);
      BucketWithout(KeysAt(b, g), g, entries, k);
      assert KeysAt(u, g) == Without(KeysAt(b, g), k);
    }
  }

  lemma BucketPush(s: seq<Key>, f: int, entries: map<Key, Entry>, k: Key, e: Entry)
    requires Bucket(s, f, entries) && k !in entries
    requires forall j :: j in entries ==> entries[j].stamp < e.stamp
    ensures e.freq == f ==> Bucket([k] + s, f, entries[k := e])
    ensures e.freq != f ==> Bucket(s, f, entries[k := e])
  {
    assert forall j :: j in [k] + s <==> j == k || j in s;
  }

  lemma LinkKeeps(b: Buckets, entries: map<Key, Entry>, k: Key, e: Entry)
    requires Bucketed(b, entries) && k !in entries
    requires forall j :: j in entries ==> entries[j].stamp < e.stamp
    ensures Bucketed(Link(b, e.freq, k), entries[k := e])
  {
    hide Bucket;
    var l := Link(b, e.freq, k);
    forall g ensures Bucket(KeysAt(l, g), g, entries[k := e]) {
      BucketPush(KeysAt(b, g), g, entries, k, e);
    }
  }

  /** The last key of the lowest non-empty bucket is the coldest of all. */
  lemma LowestLastIsColdest(b: Buckets, entries: map<Key, Entry>, f: int)
    requires Bucketed(b, entries) && f in b
    requires forall k :: k in entries ==> f <= entries[k].freq
    ensures Coldest(entries, b[f][|b[f]| - 1])
  {
    var s := KeysAt(b, f);
    assert Bucket(s, f, entries);
    var v := s[|s| - 1];
    forall j | j in entries && j != v ensures Colder(entries[v], entries[j]) {
      if entries[j].freq == f {
        assert j in s;
        var i :| 0 <= i < |s| && s[i] == j;
      }
    }
  }
}
