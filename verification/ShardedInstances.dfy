/** The policies that the engine offers sharded: LRU, LFU and ARC. */
module ShardedInstances {
  import opened Basics
  import opened CacheContract
  import opened Policies
  import opened Sharded
  import ShardedContract
  import LruSpec
  import LfuSpec
  import ArcContract

  /** All three can be sharded; the whole is a policy of the summed capacity, and exact for LRU and LFU. */
  lemma AllCanBeSharded(capacity: nat)
    requires 0 < capacity
    ensures Sound(ShardedContract.AsPolicy(LruSpec.AsPolicy(capacity)), SHARDS * capacity)
    ensures Exact(ShardedContract.AsPolicy(LruSpec.AsPolicy(capacity)))
    ensures Sound(ShardedContract.AsPolicy(LfuSpec.AsPolicy(capacity)), SHARDS * capacity)
    ensures Exact(ShardedContract.AsPolicy(LfuSpec.AsPolicy(capacity)))
    ensures Sound(ShardedContract.AsPolicy(ArcContract.AsPolicy(capacity)), SHARDS * capacity)
  {
    hide Sound, Exact, ShardedContract.AsPolicy, LruSpec.AsPolicy, LfuSpec.AsPolicy, ArcContract.AsPolicy;
    LruSpec.IsPolicy(capacity);
    LfuSpec.IsPolicy(capacity);
    ArcContract.IsPolicy(capacity);
    ShardedContract.IsPolicy(LruSpec.AsPolicy(capacity), capacity);
    ShardedContract.IsPolicy(LfuSpec.AsPolicy(capacity), capacity);
    ShardedContract.IsPolicy(ArcContract.AsPolicy(capacity), capacity);
  }

  /** And each keeps to its advertised capacity in all runs exactly when that is at least 256. */
  lemma CapacityOfEach(total: int, now: int)
    ensures (forall calls :: SumLen(LruSpec.AsPolicy(PerShard(total)), RunAll(LruSpec.AsPolicy(PerShard(total)), calls)) <= total)
       <==> total >= SHARDS
    ensures (forall calls :: SumLen(LfuSpec.AsPolicy(PerShard(total)), RunAll(LfuSpec.AsPolicy(PerShard(total)), calls)) <= total)
       <==> total >= SHARDS
    ensures (forall calls :: SumLen(ArcContract.AsPolicy(PerShard(total)), RunAll(ArcContract.AsPolicy(PerShard(total)), calls)) <= total)
       <==> total >= SHARDS
  {
    hide Sound, Exact, LruSpec.AsPolicy, LfuSpec.AsPolicy, ArcContract.AsPolicy, SumLen, RunAll;
    LruSpec.IsPolicy(PerShard(total));
    LfuSpec.IsPolicy(PerShard(total));
    ArcContract.IsPolicy(PerShard(total));
    CapacityRespectedExactly(LruSpec.AsPolicy(PerShard(total)), total, now);
    CapacityRespectedExactly(LfuSpec.AsPolicy(PerShard(total)), total, now);
    CapacityRespectedExactly(ArcContract.AsPolicy(PerShard(total)), total, now);
  }
}
