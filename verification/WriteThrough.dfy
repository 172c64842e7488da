/**
 The write-through policy: every write goes to the store first. Whatever the inner cache evicts
 and whenever it is purged, reads see the last acknowledged write until its deadline.
 */
module WriteThrough {
  import opened Basics
  import opened CacheContract
  import opened InnerCache
  import opened Codec
  import opened WriteBackCell

  /** One key: a copy and a stored value are of the last write, and that write is stored before its deadline. */
  predicate Tidy(c: Cell, clock: int, json: OtherJson) {
    && (c.cached.Some? ==> c.cached == c.last)
    && (c.stored.Some? ==> c.last.Some? && c.stored.value == Encode(c.last.value.value, c.last.value.deadline))
    && (c.last.Some? ==> Storable(c.last.value.value, c.last.value.deadline, json))
    && (c.last.Some? && Ahead(c.last.value.deadline, clock) ==> c.stored.Some?)
  }

  /**
   Reads keep a key tidy. A hit is the last acknowledged value and is never past its deadline; a
   value strictly before its deadline is found, unless it is not cached and the store is down.
   */
  lemma TidyReads(c: Cell, clock: int, now: int, storeUp: bool, deleteUp: bool, json: OtherJson)
    requires Tidy(c, clock, json) && clock <= now
    ensures Tidy(ReadCell(c, now, storeUp, deleteUp, json), now, json)
    ensures var answer := Answer(c, now, storeUp, json);
      && (answer.Some? ==> c.last.Some? && answer.value == c.last.value.value && !Expired(c.last.value.deadline, now))
      && (c.last.Some? && Ahead(c.last.value.deadline, now) && (storeUp || c.cached.Some?) ==> answer.Some?)
  {
    hide Encode, Decode, Storable;
    OlderIsLast(c, json);
  }

  lemma TidyLater(c: Cell, clock: int, now: int, json: OtherJson)
    requires Tidy(c, clock, json) && clock <= now
    ensures Tidy(c, now, json)
  {
  }

  /** A value that was found is found again up to the deadline of its write, even if the store is then down. */
  lemma TidyReadsTwice(c: Cell, clock: int, now: int, storeUp: bool, deleteUp: bool, later: int, readUp: bool, json: OtherJson)
    requires Tidy(c, clock, json) && clock <= now && Answer(c, now, storeUp, json).Some?
    ensures c.last.Some?
    ensures !Expired(c.last.value.deadline, later) ==>
      Answer(ReadCell(c, now, storeUp, deleteUp, json), later, readUp, json) == Answer(c, now, storeUp, json)
  {
    hide Answer, ReadCell, Encode, Storable;
    TidyReads(c, clock, now, storeUp, deleteUp, json);
    FoundIsKept(c, now, storeUp, deleteUp, later, readUp, json);
    SameLast(c, now, storeUp, deleteUp, json);
  }

  lemma SameLast(c: Cell, now: int, storeUp: bool, deleteUp: bool, json: OtherJson)
    ensures ReadCell(c, now, storeUp, deleteUp, json).last == c.last
  {
  }

  class WriteThroughCache {
    const inner: InnerCache
    const json: OtherJson
    var store: map<Key, Bytes>
    /** The last acknowledged write of every key, and the latest clock reading. */
    ghost var spec: Contents
    ghost var clock: int

    /** One key as a read sees it. Nothing is ever dirty here, and reads are those of write-back. */
    ghost function At(k: Key): Cell
      reads this, inner
    {
      Cell(Lookup(inner.contents, k), Lookup(store, k), None, Lookup(spec, k))
    }

    ghost predicate Valid()
      reads this, inner
    {
      forall k :: Tidy(At(k), clock, json)
    }

    /** The other keys keep their stored value and last write, and at most lose their copy. */
    twostate predicate OthersStay(key: Key)
      reads this, inner
    {
      forall k :: k != key ==> At(k) == old(At(k)) || At(k) == old(At(k)).(cached := None)
    }

    constructor (inner: InnerCache, json: OtherJson)
      requires inner.contents == map[]
      ensures Valid() && spec == map[] && this.inner == inner && this.json == json
    {
      this.inner, this.json := inner, json;
      store, spec, clock := map[], map[], 0;
    }

    /**
     A failed store write changes nothing at all. A successful one is stored and cached, and is what
     reads see from then on.
     */
    method Set(key: Key, value: Bytes, ttl: int, now: int, storeUp: bool) returns (ok: bool)
      requires clock <= now
      modifies this, inner
      ensures ok == storeUp && clock == now
      ensures !ok ==> spec == old(spec) && store == old(store) && inner.contents == old(inner.contents)
      ensures ok ==>
        var item := Item(value, DeadlineFor(now, ttl));
        && At(key) == Cell(Some(item), Some(Encode(value, item.deadline)), None, Some(item))
        && spec == old(spec)[key := item]
      ensures OthersStay(key)
      ensures old(Valid()) && (ok ==> Storable(value, DeadlineFor(now, ttl), json)) ==> Valid()
    {
      hide Encode, Storable, Reported, ReportedBarEmpty;
      clock := now;
      var encoded := Encode(value, DeadlineFor(now, ttl));
      if !storeUp {
        if old(Valid()) {
          TidyLater(old(At(key)), old(clock), now, json);
          StillValid(key);
        }
        return false;
      }
      store := store[key := encoded];
      spec := spec[key := Item(value, DeadlineFor(now, ttl))];
      var _ := inner.Set(key, value, ttl, now);
      if old(Valid()) && Storable(value, DeadlineFor(now, ttl), json) {
        StillValid(key);
      }
      return true;
    }

    /**
     In every state, a read answers the live copy, else what the store has and does not regard as
     expired, which is then cached. Once writes are storable, a hit is the last acknowledged value
     and is never past its deadline, and a value strictly before its deadline is found, unless it is
     not cached and the store cannot be read.
     */
    method Get(key: Key, now: int, storeUp: bool, deleteUp: bool) returns (answer: Option<Bytes>)
      requires clock <= now
      modifies this, inner
      ensures answer == Answer(old(At(key)), now, storeUp, json)
      ensures At(key) == ReadCell(old(At(key)), now, storeUp, deleteUp, json) && OthersStay(key)
      ensures spec == old(spec) && clock == now
      ensures old(Valid()) ==> Valid()
      ensures old(Valid()) && answer.Some? ==>
        key in spec && answer == Some(spec[key].value) && !Expired(spec[key].deadline, now)
      ensures old(Valid()) && key in spec && Ahead(spec[key].deadline, now) && (storeUp || key in old(inner.contents)) ==>
        answer == Some(spec[key].value)
    {
      hide Encode, Decode, Tidy, Reported, ReportedBarEmpty;
      clock := now;
      answer := inner.Get(key, now);
      if answer == None && storeUp && key in store {
        var decoded := Decode(store[key], json);
        if decoded != Corrupt {
          var (ttl, expired) := TtlFromExpiry(decoded.deadline, now);
          if !expired {
            var _ := inner.Set(key, decoded.value, ttl, now);
            answer := Some(decoded.value);
          } else if deleteUp {
            store := store - {key};
          }
        }
      }
      if old(Valid()) {
        TidyReads(old(At(key)), old(clock), now, storeUp, deleteUp, json);
        StillValid(key);
      }
    }

    /** A step that touches one key, and may drop copies of others, keeps the invariant if it does so for that key. */
    twostate lemma StillValid(key: Key)
      requires old(Valid()) && old(clock) <= clock && OthersStay(key) && Tidy(At(key), clock, json)
      ensures Valid()
    {
      hide Encode, Storable;
      forall k ensures Tidy(At(k), clock, json) {
        assert Tidy(old(At(k)), old(clock), json);
      }
    }

    /** A delete that reaches the store is final; one that does not leaves the stored value to be read. */
    method Delete(key: Key, storeUp: bool) returns (found: bool)
      modifies this, inner
      ensures At(key) == if storeUp then FRESH else old(At(key)).(cached := None)
      ensures forall k :: k != key ==> At(k) == old(At(k))
      ensures clock == old(clock) && spec == if storeUp then old(spec) - {key} else old(spec)
      ensures key in old(inner.contents) ==> found
      ensures inner.exact && found ==> key in old(inner.contents)
      ensures old(Valid()) ==> Valid()
    {
      hide Encode, Storable;
      if storeUp {
        store := store - {key};
        spec := spec - {key};
      }
      found := inner.Delete(key);
      if old(Valid()) {
        assert Tidy(old(At(key)), clock, json);
        StillValid(key);
      }
    }

    /** Dropping every cached copy loses nothing. */
    method Purge()
      modifies this, inner
      ensures inner.contents == map[] && store == old(store) && spec == old(spec) && clock == old(clock)
      ensures old(Valid()) ==> Valid()
    {
      hide Encode, Storable;
      inner.Purge();
      if old(Valid()) {
        forall k ensures Tidy(At(k), clock, json) {
          assert Tidy(old(At(k)), clock, json);
        }
      }
    }

    /**
     An acknowledged write is answered up to its deadline by the next read of the key, whether or
     not the store can then be reached.
     */
    method SetThenGet(key: Key, value: Bytes, ttl: int, now: int, storeUp: bool, later: int, readUp: bool, deleteUp: bool)
      returns (ok: bool, answer: Option<Bytes>)
      requires clock <= now <= later
      modifies this, inner
      ensures ok == storeUp
      ensures ok && (ttl <= 0 || later - now <= ttl) ==> answer == Some(value)
    {
      ok := Set(key, value, ttl, now, storeUp);
      answer := Get(key, later, readUp, deleteUp);
    }

    /** What a read has found, the next read finds up to the deadline of the last write, even if the store is then down. */
    method GetThenGet(key: Key, now: int, storeUp: bool, later: int, readUp: bool, deleteUp: bool)
      returns (first: Option<Bytes>, second: Option<Bytes>)
      requires Valid() && clock <= now <= later
      modifies this, inner
      ensures first.Some? ==> key in spec && (!Expired(spec[key].deadline, later) ==> second == first)
    {
      hide *;
      ghost var c := At(key);
      TidyHere(key);
      first := Get(key, now, storeUp, deleteUp);
      second := Get(key, later, readUp, deleteUp);
      if first.Some? {
        TidyReadsTwice(c, old(clock), now, storeUp, deleteUp, later, readUp, json);
      }
    }

    lemma TidyHere(key: Key)
      requires Valid()
      ensures Tidy(At(key), clock, json) && At(key).last == if key in spec then Some(spec[key]) else None
    {
    }
  }
}
