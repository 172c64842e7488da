/**
 The write-back policy: writes are acknowledged once cached and reach the store later, when a key
 is flushed or evicted. Each public call and each per-key flush is one atomic step. Every method is
 proved to do to each key exactly what one event of `WriteBackCell` does.
 */
module WriteBack {
  import opened Basics
  import opened CacheContract
  import opened InnerCache
  import opened Codec
  import opened WriteBackCell

  /**
   A key that another key's write may push out: it stays, or leaves and meets the eviction callback,
   or, from a cache that is not exact, vanishes if its value is empty.
   */
  predicate Bystander(before: Cell, after: Cell, now: int, storeUp: bool, exact: bool, json: OtherJson) {
    || after == before
    || (before.cached.Some? && after == Next(before, Evict(now, storeUp), json))
    || (!exact && before.cached.Some? && before.cached.value.value == [] && after == Next(before, Vanish(now), json))
  }

  /** A round of the flusher, and a purge, as seen from key `k`; keys in `down` cannot be written. */
  function FlushOf(c: Cell, k: Key, now: int, down: set<Key>, json: OtherJson): Cell {
    Next(c, Flush(now, k !in down), json)
  }

  function ClearOf(c: Cell, k: Key, now: int, down: set<Key>, json: OtherJson): Cell {
    Next(c, Clear(now, k !in down), json)
  }

  class WriteBackCache {
    const inner: InnerCache
    const json: OtherJson
    var store: map<Key, Bytes>
    /** Keys whose latest write has not reached the store, with the deadline it must carry. */
    var dirty: map<Key, Deadline>
    var dirtyCount: int
    /** The last acknowledged write of every key. Only a write, or a delete that reaches the store, changes it. */
    ghost var spec: Contents

    ghost function At(k: Key): Cell
      reads this, inner
    {
      Cell(Lookup(inner.contents, k), Lookup(store, k), Lookup(dirty, k), Lookup(spec, k))
    }

    ghost predicate Valid()
      reads this
    {
      dirtyCount == |dirty|
    }

    /** Every key is accounted for: read back as last written, from the cache or from the store. */
    ghost predicate AllInSync(clock: int)
      reads this, inner
    {
      forall k :: InSync(At(k), clock, json)
    }

    constructor (inner: InnerCache, json: OtherJson)
      requires inner.contents == map[]
      ensures Valid() && spec == map[] && this.inner == inner && this.json == json
      ensures forall k :: At(k) == FRESH
    {
      this.inner, this.json := inner, json;
      store, dirty, dirtyCount, spec := map[], map[], 0, map[];
    }

    /** The store write or delete behind every flush. */
    method FlushValue(key: Key, value: Bytes, pw: Deadline, now: int, storeUp: bool) returns (ok: bool)
      modifies `store
      ensures ok == storeUp
      ensures Lookup(store, key) == if storeUp then Flushed(value, pw, now) else Lookup(old(store), key)
      ensures forall k :: k != key ==> Lookup(store, k) == Lookup(old(store), k)
    {
      hide Encode;
      if storeUp {
        if TtlFromExpiry(pw, now).1 {
          store := store - {key};
        } else {
          store := store[key := Encode(value, pw)];
        }
      }
      return storeUp;
    }

    method DropStored(key: Key, storeUp: bool)
      modifies `store
      ensures Lookup(store, key) == if storeUp then None else Lookup(old(store), key)
      ensures forall k :: k != key ==> Lookup(store, k) == Lookup(old(store), k)
    {
      if storeUp {
        store := store - {key};
      }
    }

    /** Unmark a key that may be dirty. */
    method TakeDirty(key: Key) returns (was: bool)
      requires Valid()
      modifies `dirty, `dirtyCount
      ensures Valid() && was == (key in old(dirty)) && dirty == old(dirty) - {key}
    {
      was := key in dirty;
      if was {
        RemoveShrinks(dirty, key);
        dirty := dirty - {key};
        dirtyCount := dirtyCount - 1;
      } else {
        assert dirty - {key} == dirty;
      }
    }

    /** Mark a key dirty, overwriting an older mark. */
    method MarkDirty(key: Key, pw: Deadline)
      requires Valid()
      modifies `dirty, `dirtyCount
      ensures Valid() && dirty == old(dirty)[key := pw]
    {
      if key !in dirty {
        dirtyCount := dirtyCount + 1;
        assert dirty[key := pw] - {key} == dirty;
        RemoveShrinks(dirty[key := pw], key);
      } else {
        assert dirty[key := pw].Keys == dirty.Keys;
        assert |dirty[key := pw]| == |dirty[key := pw].Keys| && |dirty| == |dirty.Keys|;
      }
      dirty := dirty[key := pw];
    }

    /** The eviction callback: a dirty victim is flushed on the spot. */
    method OnEvict(key: Key, value: Bytes, now: int, storeUp: bool)
      requires Valid() && key !in inner.contents
      modifies `store, `dirty, `dirtyCount
      ensures Valid()
      ensures forall item: Item :: item.value == value ==>
        At(key) == EvictCell(old(At(key)).(cached := Some(item)), now, storeUp)
      ensures forall k :: k != key ==> At(k) == old(At(k))
    {
      hide Encode;
      if key in dirty {
        var pw := dirty[key];
        var _ := TakeDirty(key);
        var _ := FlushValue(key, value, pw, now, storeUp);
      }
    }

    /** The callbacks of one write of the inner cache, in order. */
    method RunCallbacks(evicted: seq<(Key, Bytes)>, now: int, storeUp: bool)
      requires Valid()
      requires forall i, j :: 0 <= i < j < |evicted| ==> evicted[i].0 != evicted[j].0
      requires forall i :: 0 <= i < |evicted| ==> evicted[i].0 !in inner.contents
      modifies `store, `dirty, `dirtyCount
      ensures Valid()
      ensures forall i, item: Item :: 0 <= i < |evicted| && item.value == evicted[i].1 ==>
        At(evicted[i].0) == EvictCell(old(At(evicted[i].0)).(cached := Some(item)), now, storeUp)
      ensures forall k :: !Among(evicted, k) ==> At(k) == old(At(k))
    {
      hide EvictCell;
      for n := 0 to |evicted|
        invariant Valid()
        invariant forall i, item: Item :: 0 <= i < n && item.value == evicted[i].1 ==>
          At(evicted[i].0) == EvictCell(old(At(evicted[i].0)).(cached := Some(item)), now, storeUp)
        invariant forall i :: n <= i < |evicted| ==> At(evicted[i].0) == old(At(evicted[i].0))
        invariant forall k :: !Among(evicted, k) ==> At(k) == old(At(k))
      {
        OnEvict(evicted[n].0, evicted[n].1, now, storeUp);
      }
    }

    /** A write of the inner cache with its callbacks. */
    method Admit(key: Key, value: Bytes, ttl: int, now: int, storeUp: bool)
      requires Valid()
      modifies `store, `dirty, `dirtyCount, inner
      ensures Valid()
      ensures At(key) == old(At(key)).(cached := Some(Item(value, DeadlineFor(now, ttl))))
      ensures forall k :: k != key ==> Bystander(old(At(k)), At(k), now, storeUp, inner.exact, json)
    {
      hide EvictCell;
      ghost var call := Call(Op.Set(key, value, ttl), now);
      var evicted := inner.Set(key, value, ttl, now);
      label Cached:
      RunCallbacks(evicted, now, storeUp);
      forall k | k != key ensures Bystander(old(At(k)), At(k), now, storeUp, inner.exact, json) {
        if Among(evicted, k) {
          var i :| 0 <= i < |evicted| && evicted[i].0 == k;
          var item := old(inner.contents)[k];
          assert old@Cached(At(k)).(cached := Some(item)) == old(At(k));
          assert At(evicted[i].0) == EvictCell(old@Cached(At(evicted[i].0)).(cached := Some(item)), now, storeUp);
        } else if k in Victims(old(inner.contents), call, inner.contents) {
          assert At(k) == old(At(k)).(cached := None);
        } else {
          assert At(k) == old(At(k));
        }
      }
      assert !Among(evicted, key);
    }

    /** A write is acknowledged once it is cached and marked. */
    method Set(key: Key, value: Bytes, ttl: int, now: int, storeUp: bool)
      requires Valid()
      modifies this, inner
      ensures Valid() && spec == old(spec)[key := Item(value, DeadlineFor(now, ttl))]
      ensures At(key) == Next(old(At(key)), Wrote(now, Item(value, DeadlineFor(now, ttl))), json)
      ensures forall k :: k != key ==> Bystander(old(At(k)), At(k), now, storeUp, inner.exact, json)
    {
      hide Bystander;
      Admit(key, value, ttl, now, storeUp);
      label Cached:
      var expiresAt := DeadlineFor(now, ttl);
      spec := spec[key := Item(value, expiresAt)];
      MarkDirty(key, expiresAt);
      forall k | k != key ensures Bystander(old(At(k)), At(k), now, storeUp, inner.exact, json) {
        assert At(k) == old@Cached(At(k));
      }
    }

    /** A read answers the live copy, else what the store has, which it then caches or deletes. */
    method Get(key: Key, now: int, storeUp: bool, deleteUp: bool, evictUp: bool) returns (answer: Option<Bytes>)
      requires Valid()
      modifies this, inner
      ensures Valid() && spec == old(spec)
      ensures answer == Answer(old(At(key)), now, storeUp, json)
      ensures At(key) == Next(old(At(key)), WasRead(now, storeUp, deleteUp), json)
      ensures forall k :: k != key ==> Bystander(old(At(k)), At(k), now, evictUp, inner.exact, json)
    {
      hide Decode, EvictCell;
      answer := inner.Get(key, now);
      forall k | k != key ensures At(k) == old(At(k)) && Bystander(At(k), At(k), now, evictUp, inner.exact, json) {
      }
      if answer.Some? || !storeUp || key !in store {
        return;
      }
      var decoded := Decode(store[key], json);
      if decoded == Corrupt {
        return None;
      }
      var (ttl, expired) := TtlFromExpiry(decoded.deadline, now);
      if expired {
        if deleteUp {
          store := store - {key};
        }
        return None;
      }
      label Missed:
      Admit(key, decoded.value, ttl, now, evictUp);
      forall k | k != key ensures Bystander(old(At(k)), At(k), now, evictUp, inner.exact, json) {
        assert old@Missed(At(k)) == old(At(k));
      }
      return Some(decoded.value);
    }

    /** A delete takes away the mark and the copy, and the stored value if the store can be reached. */
    method Delete(key: Key, now: int, storeUp: bool) returns (found: bool)
      requires Valid()
      modifies this, inner
      ensures Valid() && spec == if storeUp then old(spec) - {key} else old(spec)
      ensures At(key) == Next(old(At(key)), Erase(now, storeUp), json)
      ensures forall k :: k != key ==> At(k) == old(At(k))
      ensures key in old(inner.contents) ==> found
      ensures inner.exact && found ==> key in old(inner.contents)
    {
      hide Next;
      EraseIs(At(key), now, storeUp, json);
      var _ := TakeDirty(key);
      DropStored(key, storeUp);
      found := inner.Delete(key);
      if storeUp {
        spec := spec - {key};
      }
    }

    /** The background flush of one key. On failure it is marked dirty again, for the next attempt. */
    method FlushKey(key: Key, now: int, storeUp: bool)
      requires Valid()
      modifies `store, `dirty, `dirtyCount, inner
      ensures Valid()
      ensures At(key) == Next(old(At(key)), Flush(now, storeUp), json)
      ensures forall k :: k != key ==> At(k) == old(At(k))
    {
      hide Encode;
      if key !in dirty {
        return;
      }
      var pw := dirty[key];
      var _ := TakeDirty(key);
      var value := inner.Peek(key, now);
      if value == None {
        if TtlFromExpiry(pw, now).1 {
          DropStored(key, storeUp);
        }
      } else {
        var ok := FlushValue(key, value.value, pw, now, storeUp);
        if !ok {
          MarkDirty(key, pw);
        }
      }
    }

    /** One round of the flusher over every dirty key; keys in `down` cannot be written. */
    method FlushAll(now: int, down: set<Key>)
      requires Valid()
      modifies `store, `dirty, `dirtyCount, inner
      ensures Valid()
      ensures forall k :: At(k) == FlushOf(old(At(k)), k, now, down, json)
    {
      hide FlushCell;
      var todo := dirty.Keys;
      forall k | k !in todo ensures FlushOf(old(At(k)), k, now, down, json) == old(At(k)) {
        CleanStays(old(At(k)), k, now, down, json);
      }
      while todo != {}
        invariant Valid()
        invariant forall k :: At(k) == if k in todo then old(At(k)) else FlushOf(old(At(k)), k, now, down, json)
        decreases todo
      {
        var key :| key in todo;
        label Before:
        FlushKey(key, now, key !in down);
        todo := todo - {key};
        forall k
          ensures At(k) == if k in todo then old(At(k)) else FlushOf(old(At(k)), k, now, down, json)
        {
          if k != key {
            assert At(k) == old@Before(At(k));
          } else {
            assert old@Before(At(k)) == old(At(k));
          }
        }
      }
    }

    /** Closing flushes once more. If every write succeeds, nothing is dirty and every live write of a key in sync is stored. */
    method Close(now: int, down: set<Key>)
      requires Valid()
      modifies `store, `dirty, `dirtyCount, inner
      ensures Valid()
      ensures forall k :: At(k) == FlushOf(old(At(k)), k, now, down, json)
      ensures down == {} ==> dirty == map[]
      ensures down == {} ==> forall k :: InSync(old(At(k)), now, json) && k in spec && Ahead(spec[k].deadline, now) ==>
        k in store && store[k] == Encode(spec[k].value, spec[k].deadline)
    {
      hide FlushCell, InSync, Encode;
      FlushAll(now, down);
      if down == {} {
        forall k
          ensures k !in dirty
          ensures InSync(old(At(k)), now, json) && k in spec && Ahead(spec[k].deadline, now) ==>
            k in store && store[k] == Encode(spec[k].value, spec[k].deadline)
        {
          assert At(k) == FlushCell(old(At(k)), now, true);
          FlushStores(old(At(k)), now, json);
        }
      }
    }

    /** Flush, then drop every cached copy. */
    method Purge(now: int, down: set<Key>)
      requires Valid()
      modifies `store, `dirty, `dirtyCount, inner
      ensures Valid() && inner.contents == map[]
      ensures forall k :: At(k) == ClearOf(old(At(k)), k, now, down, json)
    {
      hide FlushCell;
      FlushAll(now, down);
      label Flushed:
      inner.Purge();
      forall k ensures At(k) == ClearOf(old(At(k)), k, now, down, json) {
        assert At(k) == old@Flushed(At(k)).(cached := None);
        assert old@Flushed(At(k)) == FlushOf(old(At(k)), k, now, down, json);
      }
    }
  }

  lemma EraseIs(c: Cell, now: int, storeUp: bool, json: OtherJson)
    ensures Next(c, Erase(now, storeUp), json) == if storeUp then FRESH else c.(cached := None, mark := None)
  {
  }

  lemma CleanStays(c: Cell, k: Key, now: int, down: set<Key>, json: OtherJson)
    requires c.mark.None?
    ensures FlushOf(c, k, now, down, json) == c
  {
  }

  /**
   A flush that reaches the store unmarks the key and, in sync, leaves its live last write there. A
   dirty key at or past its deadline is deleted there, whether it is flushed or evicted.
   */
  lemma FlushStores(c: Cell, now: int, json: OtherJson)
    ensures FlushCell(c, now, true).mark == None
    ensures c.mark.Some? && !Ahead(c.mark.value, now) ==> FlushCell(c, now, true).stored == None
    ensures c.mark.Some? && !Ahead(c.mark.value, now) && c.cached.Some? ==> EvictCell(c, now, true).stored == None
    ensures InSync(c, now, json) && c.last.Some? && Ahead(c.last.value.deadline, now) ==>
      FlushCell(c, now, true).stored == Some(Encode(c.last.value.value, c.last.value.deadline))
  {
    hide Encode, Storable;
  }
}
