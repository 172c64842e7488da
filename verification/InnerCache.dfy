/**
 A cache about which nothing is known but the contract: any write may evict any other entries,
 in any order. An `exact` one tells the callback of each of them and finds nothing but what it
 holds, as LRU and LFU do; another may, like ARC, stay silent about empty values and find ghosts.
 */
module InnerCache {
  import opened Basics
  import opened CacheContract

  predicate AllEmpty(c: Contents, keys: set<Key>) {
    forall k :: k in keys ==> k in c && c[k].value == []
  }

  class InnerCache {
    const exact: bool
    var contents: Contents

    constructor (exact: bool)
      ensures contents == map[] && this.exact == exact
    {
      this.exact, contents := exact, map[];
    }

    method Get(key: Key, now: int) returns (answer: Option<Bytes>)
      modifies this
      ensures ReadStep(old(contents), key, now, contents, answer)
    {
      answer := Peek(key, now);
    }

    method Peek(key: Key, now: int) returns (answer: Option<Bytes>)
      modifies this
      ensures ReadStep(old(contents), key, now, contents, answer)
    {
      if key in contents && !Expired(contents[key].deadline, now) {
        return Some(contents[key].value);
      }
      contents := contents - {key};
      return None;
    }

    method Set(key: Key, value: Bytes, ttl: int, now: int) returns (evicted: seq<(Key, Bytes)>)
      modifies this
      ensures ContentsStep(old(contents), Call(Op.Set(key, value, ttl), now), contents, None)
      ensures ReportedBarEmpty(old(contents), Call(Op.Set(key, value, ttl), now), contents, evicted)
      ensures exact ==> Reported(old(contents), Call(Op.Set(key, value, ttl), now), contents, evicted)
    {
      var victims :| victims <= contents.Keys - {key};
      assert AllEmpty(contents, {});
      var silent :| silent <= victims && (exact ==> silent == {}) && AllEmpty(contents, silent);
      evicted := Listed(victims - silent);
      assert AllEmpty(contents, silent);
      assert forall k :: k in victims && contents[k].value != [] ==> k in victims - silent;
      contents := (contents - victims)[key := Item(value, DeadlineFor(now, ttl))];
      assert Victims(old(contents), Call(Op.Set(key, value, ttl), now), contents) == victims;
    }

    /** Keys with their values, in some order. */
    method Listed(keys: set<Key>) returns (listed: seq<(Key, Bytes)>)
      requires keys <= contents.Keys
      ensures forall i, j :: 0 <= i < j < |listed| ==> listed[i].0 != listed[j].0
      ensures forall i :: 0 <= i < |listed| ==> listed[i].0 in keys && listed[i].1 == contents[listed[i].0].value
      ensures forall k :: k in keys ==> Among(listed, k)
    {
      listed := [];
      var left := keys;
      while left != {}
        invariant left <= keys
        invariant forall i, j :: 0 <= i < j < |listed| ==> listed[i].0 != listed[j].0
        invariant forall i :: 0 <= i < |listed| ==>
          listed[i].0 in keys - left && listed[i].1 == contents[listed[i].0].value
        invariant forall k :: k in keys && k !in left ==> Among(listed, k)
        decreases left
      {
        var v :| v in left;
        ghost var said := listed;
        listed := listed + [(v, contents[v].value)];
        left := left - {v};
        assert listed[|listed| - 1].0 == v;
        forall k | Among(said, k) ensures Among(listed, k) {
          var i :| 0 <= i < |said| && said[i].0 == k;
          assert listed[i].0 == k;
        }
      }
    }

    method Delete(key: Key) returns (found: bool)
      modifies this
      ensures contents == old(contents) - {key}
      ensures key in old(contents) ==> found
      ensures exact && found ==> key in old(contents)
    {
      var ghostly: bool :| exact ==> !ghostly;
      found := key in contents || ghostly;
      contents := contents - {key};
    }

    method Purge()
      modifies this
      ensures contents == map[]
    {
      contents := map[];
    }
  }
}
