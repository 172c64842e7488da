/**
 The sharded cache as a whole: it holds what its shards hold together, its size and its stored bytes
 are the sums of theirs, and it is itself a sound policy, so it can stand under a write policy.
 */
module ShardedContract {
  import opened Basics
  import opened CacheContract
  import opened Policies
  import opened Sharded

  // ---------- what the shards hold together ----------

  /** The contents of the first `n` shards. */
  function Union<S>(p: Policy<S>, shards: seq<S>, n: nat): Contents
    requires n <= |shards|
  {
    if n == 0 then map[] else Union(p, shards, n - 1) + p.holds(shards[n - 1])
  }

  function Together<S>(p: Policy<S>, shards: seq<S>): Contents {
    Union(p, shards, |shards|)
  }

  /** Every shard is in a state of its policy and holds only keys that hash to it. */
  ghost predicate Good<S>(p: Policy<S>, shards: seq<S>) {
    && |shards| == SHARDS
    && (forall i :: 0 <= i < SHARDS ==> p.ok(shards[i]))
    && AtHome(p, shards)
  }

  ghost predicate AtHome<S>(p: Policy<S>, shards: seq<S>) {
    forall i, k :: 0 <= i < |shards| && k in p.holds(shards[i]) ==> ShardFor(k) == i
  }

  lemma {:induction false} UnionAt<S>(p: Policy<S>, shards: seq<S>, n: nat, k: Key)
    requires AtHome(p, shards) && n <= |shards| <= SHARDS
    ensures k in Union(p, shards, n) <==> ShardFor(k) < n && k in p.holds(shards[ShardFor(k)])
    ensures k in Union(p, shards, n) ==> Union(p, shards, n)[k] == p.holds(shards[ShardFor(k)])[k]
  {
    hide ShardFor;
    if n > 0 {
      UnionAt(p, shards, n - 1, k);
    }
  }

  lemma TogetherAt<S>(p: Policy<S>, shards: seq<S>, k: Key)
    requires Good(p, shards)
    ensures Lookup(Together(p, shards), k) == Lookup(p.holds(shards[ShardFor(k)]), k)
  {
    UnionAt(p, shards, SHARDS, k);
  }

  lemma {:induction false} MergeBytes(a: Contents, b: Contents)
    requires a.Keys !! b.Keys
    ensures TotalBytes(a + b) == TotalBytes(a) + TotalBytes(b)
    decreases |b|
  {
    hide TotalBytes;
    if b.Keys == {} {
      assert b == map[] && a + b == a;
      NoBytes();
    } else {
      var k :| k in b.Keys;
      var rest := b - {k};
      RemoveShrinks(b, k);
      WithoutOne(a, b, k);
      MergeBytes(a, rest);
      TotalBytesWithout(a + b, k);
      TotalBytesWithout(b, k);
    }
  }

  lemma WithoutOne(a: Contents, b: Contents, k: Key)
    requires a.Keys !! b.Keys && k in b
    ensures (a + b) - {k} == a + (b - {k}) && k in a + b && (a + b)[k] == b[k]
    ensures a.Keys !! (b - {k}).Keys
  {
  }

  function SumBytes<S>(p: Policy<S>, shards: seq<S>): nat {
    if shards == [] then 0 else SumBytes(p, shards[..|shards| - 1]) + p.bytes(shards[|shards| - 1])
  }

  /** Nothing is counted twice: the sums over the shards are the size and the bytes of the whole. */
  lemma {:induction false} SumsUpTo<S(!new)>(p: Policy<S>, capacity: nat, shards: seq<S>, n: nat)
    requires Sound(p, capacity) && Good(p, shards) && n <= SHARDS
    ensures |Union(p, shards, n)| == SumLen(p, shards[..n])
    ensures TotalBytes(Union(p, shards, n)) == SumBytes(p, shards[..n])
  {
    hide TotalBytes, ShardFor, Sound, Good;
    if n == 0 {
      NoBytes();
    } else {
      SumsUpTo(p, capacity, shards, n - 1);
      GoodSize(p, shards);
      assert shards[..n][..n - 1] == shards[..n - 1];
      var a, b := Union(p, shards, n - 1), p.holds(shards[n - 1]);
      NextApart(p, shards, n - 1);
      MergeSize(a, b);
      MergeBytes(a, b);
      BytesOf(p, capacity, shards, n - 1);
      assert Union(p, shards, n) == a + b;
      assert SumBytes(p, shards[..n]) == SumBytes(p, shards[..n - 1]) + p.bytes(shards[n - 1]);
    }
  }

  /** A shard has no key in common with those before it. */
  lemma NextApart<S>(p: Policy<S>, shards: seq<S>, n: nat)
    requires Good(p, shards) && n < SHARDS
    ensures Union(p, shards, n).Keys !! p.holds(shards[n]).Keys
  {
    hide ShardFor, Union;
    forall k | k in Union(p, shards, n) ensures k !in p.holds(shards[n]) {
      UnionAt(p, shards, n, k);
    }
  }

  lemma MergeSize(a: Contents, b: Contents)
    requires a.Keys !! b.Keys
    ensures |a + b| == |a| + |b|
  {
    assert (a + b).Keys == a.Keys + b.Keys;
    assert |a + b| == |(a + b).Keys| && |a| == |a.Keys| && |b| == |b.Keys|;
  }

  lemma BytesOf<S(!new)>(p: Policy<S>, capacity: nat, shards: seq<S>, i: nat)
    requires Sound(p, capacity) && Good(p, shards) && i < SHARDS
    ensures p.bytes(shards[i]) == TotalBytes(p.holds(shards[i]))
  {
    hide TotalBytes, Kept;
    assert Sized(p, capacity, shards[i]);
  }

  lemma NoBytes()
    ensures TotalBytes(map[]) == 0
  {
  }

  lemma SumsAreWhole<S(!new)>(p: Policy<S>, capacity: nat, shards: seq<S>)
    requires Sound(p, capacity) && Good(p, shards)
    ensures |Together(p, shards)| == SumLen(p, shards)
    ensures TotalBytes(Together(p, shards)) == SumBytes(p, shards)
  {
    SumsUpTo(p, capacity, shards, SHARDS);
    assert shards[..SHARDS] == shards;
  }

  // ---------- one call ----------

  function AnswerOf<S>(p: Policy<S>, shards: seq<S>, call: Call): Option<Bytes>
    requires |shards| == SHARDS
  {
    if call.op.Purge? then None else p.step(shards[ShardFor(call.op.key)], call).answer
  }

  function ReportOf<S>(p: Policy<S>, shards: seq<S>, call: Call): seq<(Key, Bytes)>
    requires |shards| == SHARDS
  {
    if call.op.Purge? then [] else p.step(shards[ShardFor(call.op.key)], call).evicted
  }

  /** Only entries of one shard change: there as the shard says, elsewhere not at all. */
  ghost predicate OneShardChanged(before: Contents, after: Contents, i: nat, local: Contents, local': Contents) {
    && (forall k :: Lookup(before, k) == if ShardFor(k) == i then Lookup(local, k) else Lookup(after, k))
    && (forall k :: ShardFor(k) == i ==> Lookup(after, k) == Lookup(local', k))
    && (forall k :: ShardFor(k) != i ==> k !in local && k !in local')
  }

  lemma SameContents(a: Contents, b: Contents)
    requires forall k :: Lookup(a, k) == Lookup(b, k)
    ensures a == b
  {
    forall k ensures k in a <==> k in b {
      assert Lookup(a, k) == Lookup(b, k);
    }
    forall k | k in a ensures a[k] == b[k] {
      assert Lookup(a, k) == Lookup(b, k);
    }
  }

  /** A step of one shard is a step of the whole, with the same victims. */
  lemma LiftStep(before: Contents, after: Contents, i: nat, local: Contents, local': Contents,
                 call: Call, answer: Option<Bytes>)
    requires OneShardChanged(before, after, i, local, local')
    requires !call.op.Purge? && ShardFor(call.op.key) == i
    requires ContentsStep(local, call, local', answer)
    ensures ContentsStep(before, call, after, answer)
    ensures Victims(before, call, after) == Victims(local, call, local')
    ensures forall k :: k in Victims(local, call, local') ==> before[k] == local[k]
  {
    hide ShardFor;
    LiftKeys(before, after, i, local, local');
    match call.op {
      case Get(k) => LiftRead(before, after, i, local, local', k, call.now, answer);
      case Peek(k) => LiftRead(before, after, i, local, local', k, call.now, answer);
      case Delete(k) => assert after == before - {k};
      case Set(k, v, ttl) =>
    }
  }

  lemma LiftKeys(before: Contents, after: Contents, i: nat, local: Contents, local': Contents)
    requires OneShardChanged(before, after, i, local, local')
    ensures forall k :: ShardFor(k) == i ==> (k in before <==> k in local) && (k in after <==> k in local')
    ensures forall k :: k in local ==> ShardFor(k) == i && k in before && before[k] == local[k]
    ensures forall k :: k in local' ==> ShardFor(k) == i && k in after && after[k] == local'[k]
    ensures forall k :: ShardFor(k) != i ==> (k in before <==> k in after)
    ensures forall k :: ShardFor(k) != i && k in before ==> after[k] == before[k]
  {
    hide ShardFor;
    forall k
      ensures ShardFor(k) == i ==> (k in before <==> k in local) && (k in after <==> k in local')
      ensures k in local ==> ShardFor(k) == i && k in before && before[k] == local[k]
      ensures k in local' ==> ShardFor(k) == i && k in after && after[k] == local'[k]
      ensures ShardFor(k) != i ==> (k in before <==> k in after)
      ensures ShardFor(k) != i && k in before ==> after[k] == before[k]
    {
      assert Lookup(before, k) == if ShardFor(k) == i then Lookup(local, k) else Lookup(after, k);
      assert ShardFor(k) == i ==> Lookup(after, k) == Lookup(local', k);
    }
  }

  lemma LiftRead(before: Contents, after: Contents, i: nat, local: Contents, local': Contents,
                 k: Key, now: int, answer: Option<Bytes>)
    requires OneShardChanged(before, after, i, local, local')
    requires ShardFor(k) == i && ReadStep(local, k, now, local', answer)
    ensures ReadStep(before, k, now, after, answer)
  {
    hide ShardFor;
    LiftKeys(before, after, i, local, local');
    if Live(before, k, now) {
      assert after == before;
    } else {
      assert after == before - {k};
    }
  }

  /** A keyed call changes the shard of its key and keeps every shard good. */
  lemma KeyedCall<S(!new)>(p: Policy<S>, capacity: nat, shards: seq<S>, call: Call)
    requires Sound(p, capacity) && Good(p, shards) && !call.op.Purge?
    ensures var i, after := ShardFor(call.op.key), Next(p, shards, call);
      && Good(p, after)
      && Kept(p, shards[i], call) && after[i] == p.step(shards[i], call).state
      && OneShardChanged(Together(p, shards), Together(p, after), i, p.holds(shards[i]), p.holds(after[i]))
  {
    hide ShardFor, Sized, Reported, ReportedBarEmpty, ContentsStep, Together;
    var i, after := ShardFor(call.op.key), Next(p, shards, call);
    assert Kept(p, shards[i], call);
    forall j | 0 <= j < SHARDS ensures after[j] == if j == i then p.step(shards[i], call).state else shards[j] {
      NextAt(p, shards, call, j);
    }
    forall j, k | 0 <= j < SHARDS && k in p.holds(after[j]) ensures ShardFor(k) == j {
      if j == i && k !in p.holds(shards[i]) {
        NewKey(p.holds(shards[i]), call, p.holds(after[i]), p.step(shards[i], call).answer, k);
      }
    }
    assert Good(p, after);
    forall k
      ensures Lookup(Together(p, after), k) == Lookup(p.holds(after[ShardFor(k)]), k)
      ensures Lookup(Together(p, shards), k) == Lookup(p.holds(shards[ShardFor(k)]), k)
    {
      TogetherAt(p, after, k);
      TogetherAt(p, shards, k);
    }
  }

  lemma NextAt<S>(p: Policy<S>, shards: seq<S>, call: Call, j: nat)
    requires |shards| == SHARDS && j < SHARDS && !call.op.Purge?
    ensures Next(p, shards, call)[j] == if j == ShardFor(call.op.key) then p.step(shards[j], call).state else shards[j]
  {
    assert Sees(j, call) <==> j == ShardFor(call.op.key);
    assert Next(p, shards, call)[j] == if Sees(j, call) then p.step(shards[j], call).state else shards[j];
  }

  lemma NewKey(before: Contents, call: Call, after: Contents, answer: Option<Bytes>, k: Key)
    requires ContentsStep(before, call, after, answer) && k in after && k !in before
    ensures call.op.Set? && k == call.op.key
  {
  }

  lemma PurgeCall<S(!new)>(p: Policy<S>, capacity: nat, shards: seq<S>, call: Call)
    requires Sound(p, capacity) && Good(p, shards) && call.op.Purge?
    ensures Good(p, Next(p, shards, call)) && Together(p, Next(p, shards, call)) == map[]
  {
    hide ShardFor, Sized, ReportedBarEmpty;
    var after := Next(p, shards, call);
    forall j | 0 <= j < SHARDS ensures p.ok(after[j]) && p.holds(after[j]) == map[] {
      assert Kept(p, shards[j], call);
    }
    forall k ensures Lookup(Together(p, after), k) == Lookup(map[], k) {
      TogetherAt(p, after, k);
    }
    SameContents(Together(p, after), map[]);
  }

  /** A call on the sharded cache answers, changes contents and reports as the contract says. */
  lemma MeetsContract<S(!new)>(p: Policy<S>, capacity: nat, shards: seq<S>, call: Call)
    requires Sound(p, capacity) && Good(p, shards)
    ensures var before, after := Together(p, shards), Together(p, Next(p, shards, call));
      && Good(p, Next(p, shards, call))
      && ContentsStep(before, call, after, AnswerOf(p, shards, call))
      && ReportedBarEmpty(before, call, after, ReportOf(p, shards, call))
      && (Exact(p) ==> Reported(before, call, after, ReportOf(p, shards, call)))
  {
    if call.op.Purge? {
      hide Sound, Good, Exact, Next;
      PurgeCall(p, capacity, shards, call);
    } else {
      hide ShardFor, Next, ContentsStep, OneShardChanged, Victims, Together, Sized, Reported, ReportedBarEmpty;
      var i, after := ShardFor(call.op.key), Next(p, shards, call);
      var o := p.step(shards[i], call);
      KeyedCall(p, capacity, shards, call);
      LiftStep(Together(p, shards), Together(p, after), i, p.holds(shards[i]), p.holds(after[i]), call, o.answer);
      LiftReport(Together(p, shards), Together(p, after), p.holds(shards[i]), p.holds(after[i]), call, o.evicted);
    }
  }

  lemma LiftReport(before: Contents, after: Contents, local: Contents, local': Contents, call: Call, evicted: seq<(Key, Bytes)>)
    requires Victims(before, call, after) == Victims(local, call, local')
    requires forall k :: k in Victims(local, call, local') ==> before[k] == local[k]
    ensures ReportedBarEmpty(local, call, local', evicted) ==> ReportedBarEmpty(before, call, after, evicted)
    ensures Reported(local, call, local', evicted) ==> Reported(before, call, after, evicted)
  {
  }

  // ---------- as a policy ----------

  ghost function AsPolicy<S>(p: Policy<S>): Policy<seq<S>> {
    Policy(Fresh(p),
           (shards: seq<S>, call: Call) =>
             if |shards| == SHARDS then Outcome(Next(p, shards, call), AnswerOf(p, shards, call), ReportOf(p, shards, call))
             else Outcome(shards, None, []),
           (shards: seq<S>) => Good(p, shards),
           (shards: seq<S>) => Together(p, shards),
           (shards: seq<S>, k: Key) => |shards| == SHARDS && p.found(shards[ShardFor(k)], k),
           (shards: seq<S>) => SumBytes(p, shards))
  }

  /**
   Sharding any sound policy gives a sound policy of 256 times the capacity, and sharding an exact
   one an exact one. So all runs of the sharded cache are runs of the contract.
   */
  lemma IsPolicy<S(!new)>(p: Policy<S>, capacity: nat)
    requires Sound(p, capacity)
    ensures Sound(AsPolicy(p), SHARDS * capacity)
    ensures Exact(p) ==> Exact(AsPolicy(p))
  {
    hide Sound, ShardFor, Good, Next, AnswerOf, ReportOf, Together, SumBytes, TotalBytes, ContentsStep, Reported, ReportedBarEmpty;
    var q := AsPolicy(p);
    StartsGood(p, capacity);
    forall shards | q.ok(shards)
      ensures Sized(q, SHARDS * capacity, shards)
      ensures Exact(p) ==> forall k :: q.found(shards, k) ==> k in q.holds(shards)
    {
      GoodSize(p, shards);
      GoodIsSized(p, capacity, shards);
    }
    forall shards, call | q.ok(shards)
      ensures Kept(q, shards, call)
      ensures Exact(p) ==> Reported(q.holds(shards), call, q.holds(q.step(shards, call).state), q.step(shards, call).evicted)
    {
      GoodSize(p, shards);
      MeetsContract(p, capacity, shards, call);
    }
    SoundBy(q, SHARDS * capacity);
  }

  lemma SoundBy<S(!new)>(q: Policy<S>, capacity: nat)
    requires q.ok(q.start) && q.holds(q.start) == map[]
    requires forall s :: q.ok(s) ==> Sized(q, capacity, s)
    requires forall s, call :: q.ok(s) ==> Kept(q, s, call)
    ensures Sound(q, capacity)
  {
  }

  lemma GoodSize<S>(p: Policy<S>, shards: seq<S>)
    requires Good(p, shards)
    ensures |shards| == SHARDS
  {
  }

  lemma StartsGood<S(!new)>(p: Policy<S>, capacity: nat)
    requires Sound(p, capacity)
    ensures Good(p, Fresh(p)) && Together(p, Fresh(p)) == map[]
  {
    hide ShardFor, Together;
    forall k ensures Lookup(Together(p, Fresh(p)), k) == Lookup(map[], k) {
      TogetherAt(p, Fresh(p), k);
    }
    SameContents(Together(p, Fresh(p)), map[]);
  }

  lemma GoodIsSized<S(!new)>(p: Policy<S>, capacity: nat, shards: seq<S>)
    requires Sound(p, capacity) && Good(p, shards)
    ensures |Together(p, shards)| <= SHARDS * capacity
    ensures TotalBytes(Together(p, shards)) == SumBytes(p, shards)
    ensures forall k :: k in Together(p, shards) ==> p.found(shards[ShardFor(k)], k)
    ensures Exact(p) ==> forall k :: p.found(shards[ShardFor(k)], k) ==> k in Together(p, shards)
  {
    hide ShardFor, Together, Kept, SumLen, SumBytes, TotalBytes;
    SumsAreWhole(p, capacity, shards);
    forall i | 0 <= i < SHARDS ensures Sized(p, capacity, shards[i]) {
      assert p.ok(shards[i]);
    }
    SumBounds(p, shards, SHARDS, 0, capacity);
    assert shards[..SHARDS] == shards;
    forall k
      ensures k in Together(p, shards) ==> p.found(shards[ShardFor(k)], k)
      ensures Exact(p) && p.found(shards[ShardFor(k)], k) ==> k in Together(p, shards)
    {
      TogetherAt(p, shards, k);
      assert Sized(p, capacity, shards[ShardFor(k)]);
    }
  }

  /** The run of the policy is the run of the shards. */
  lemma {:induction false} RunIsAfter<S>(p: Policy<S>, calls: seq<Call>)
    ensures After(AsPolicy(p), calls) == RunAll(p, calls)
  {
    if calls != [] {
      RunIsAfter(p, calls[..|calls| - 1]);
    }
  }
}
