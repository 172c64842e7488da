/** The sharded cache itself, over shards that a factory of any sound policy makes. */
module ShardedCache {
  import opened Basics
  import opened CacheContract
  import opened Policies
  import opened Sharded
  import opened ShardedContract

  /** Every reachable sequence of shards is good. */
  lemma RunIsGood<S(!new)>(p: Policy<S>, capacity: nat, calls: seq<Call>)
    requires Sound(p, capacity)
    ensures Good(p, RunAll(p, calls))
  {
    hide RunAll, Sound, ShardFor;
    var shards := RunAll(p, calls);
    forall i | 0 <= i < SHARDS ensures p.ok(shards[i]) {
      ShardIsSized(p, capacity, calls, i);
    }
    forall i, k | 0 <= i < SHARDS && k in p.holds(shards[i]) ensures ShardFor(k) == i {
      KeyAtHome(p, capacity, calls, i, k);
    }
  }

  lemma RunSnoc<S>(p: Policy<S>, calls: seq<Call>, call: Call)
    ensures RunAll(p, calls + [call]) == Next(p, RunAll(p, calls), call)
  {
    assert (calls + [call])[..|calls|] == calls;
  }

  lemma NextIs<S>(p: Policy<S>, shards: seq<S>, call: Call)
    requires |shards| == SHARDS && !call.op.Purge?
    ensures var i := ShardFor(call.op.key);
      Next(p, shards, call) == shards[i := p.step(shards[i], call).state]
  {
    hide ShardFor;
    var i, next := ShardFor(call.op.key), Next(p, shards, call);
    forall j | 0 <= j < SHARDS ensures next[j] == shards[i := p.step(shards[i], call).state][j] {
      NextAt(p, shards, call, j);
    }
  }

  class ShardedCache<S(!new)> {
    const policy: Policy<S>
    const capacity: int
    var shards: seq<S>
    /** Every call so far. */
    ghost var calls: seq<Call>

    ghost predicate Valid()
      reads this
    {
      Sound(policy, PerShard(capacity)) && shards == RunAll(policy, calls)
    }

    ghost function Contents(): Contents
      reads this
    {
      Together(policy, shards)
    }

    constructor (total: int, factory: nat -> Policy<S>)
      requires Sound(factory(PerShard(total)), PerShard(total))
      ensures Valid() && capacity == total && policy == factory(PerShard(total)) && calls == []
    {
      capacity, calls := total, [];
      policy := factory(PerShard(total));
      var start := factory(PerShard(total)).start;
      shards := seq(SHARDS, _ => start);
      new;
      assert shards == Fresh(policy);
    }

    /** A keyed call goes to the shard of its key and to no other; seen from outside it is one call on the whole. */
    method Dispatch(call: Call) returns (answer: Option<Bytes>, evicted: seq<(Key, Bytes)>)
      requires Valid() && !call.op.Purge?
      modifies this
      ensures Valid() && calls == old(calls) + [call]
      ensures ContentsStep(old(Contents()), call, Contents(), answer)
      ensures ReportedBarEmpty(old(Contents()), call, Contents(), evicted)
      ensures Exact(policy) ==> Reported(old(Contents()), call, Contents(), evicted)
      ensures forall i :: 0 <= i < SHARDS && i != ShardFor(call.op.key) ==> shards[i] == old(shards)[i]
    {
      hide ShardFor, Sound, RunAll, Next, Together, ContentsStep, Reported, ReportedBarEmpty, Exact, Good;
      RunIsGood(policy, PerShard(capacity), calls);
      MeetsContract(policy, PerShard(capacity), shards, call);
      NextIs(policy, shards, call);
      RunSnoc(policy, calls, call);
      var i := ShardFor(call.op.key);
      var o := policy.step(shards[i], call);
      answer, evicted := o.answer, o.evicted;
      shards := shards[i := o.state];
      calls := calls + [call];
    }

    /** Whatever the whole holds is found; an exact policy finds nothing else. */
    method Delete(key: Key, now: int) returns (found: bool)
      requires Valid()
      modifies this
      ensures Valid() && calls == old(calls) + [Call(Op.Delete(key), now)]
      ensures Contents() == old(Contents()) - {key}
      ensures key in old(Contents()) ==> found
      ensures Exact(policy) && found ==> key in old(Contents())
    {
      hide Sound, ShardFor, Together, Reported, ReportedBarEmpty, RunAll;
      RunIsGood(policy, PerShard(capacity), calls);
      GoodIsSized(policy, PerShard(capacity), shards);
      found := policy.found(shards[ShardFor(key)], key);
      var _, _ := Dispatch(Call(Op.Delete(key), now));
    }

    /** Every shard is emptied, one after the other. */
    method Purge(now: int)
      requires Valid()
      modifies this
      ensures Valid() && calls == old(calls) + [Call(Op.Purge, now)]
      ensures Contents() == map[]
    {
      hide Sound, ShardFor, Together, RunAll;
      ghost var call := Call(Op.Purge, now);
      RunIsGood(policy, PerShard(capacity), calls);
      PurgeCall(policy, PerShard(capacity), shards, call);
      RunSnoc(policy, calls, call);
      for i := 0 to SHARDS
        invariant |shards| == SHARDS && calls == old(calls)
        invariant forall j :: 0 <= j < SHARDS ==>
          shards[j] == if j < i then policy.step(old(shards)[j], call).state else old(shards)[j]
      {
        shards := shards[i := policy.step(shards[i], Call(Op.Purge, now)).state];
      }
      calls := calls + [call];
      assert shards == Next(policy, old(shards), call);
    }

    /** The summed size of the shards: the number of entries of the whole, within capacity when that is at least 256. */
    method Len() returns (total: nat)
      requires Valid()
      ensures total == |Contents()|
      ensures capacity >= SHARDS ==> total <= capacity
    {
      hide Sound, ShardFor, Together, RunAll;
      total := 0;
      for i := 0 to SHARDS
        invariant total == SumLen(policy, shards[..i])
      {
        assert shards[..i + 1][..i] == shards[..i];
        total := total + |policy.holds(shards[i])|;
      }
      assert shards[..SHARDS] == shards;
      RunIsGood(policy, PerShard(capacity), calls);
      SumsAreWhole(policy, PerShard(capacity), shards);
      LenBound(policy, capacity, calls);
    }

    /** The stored bytes that Stats aggregates: the sum over the shards is the total of all values held. */
    method BytesStored() returns (total: nat)
      requires Valid()
      ensures total == TotalBytes(Contents())
    {
      hide Sound, ShardFor, Together, RunAll, TotalBytes;
      total := 0;
      for i := 0 to SHARDS
        invariant total == SumBytes(policy, shards[..i])
      {
        assert shards[..i + 1][..i] == shards[..i];
        total := total + policy.bytes(shards[i]);
      }
      assert shards[..SHARDS] == shards;
      RunIsGood(policy, PerShard(capacity), calls);
      SumsAreWhole(policy, PerShard(capacity), shards);
    }
  }
}
