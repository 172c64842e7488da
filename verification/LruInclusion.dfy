/**
 The inclusion property of least-recently-used: the same calls on a larger cache never
 lose a hit. With deletions and lazy expiry the smaller cache is not a prefix of the larger
 one, only a subsequence, and a second fact about free slots has to travel along.
 */
module LruInclusion {
  import opened Basics
  import opened CacheContract
  import opened LruSpec

  /** `a` is a subsequence of `b`. */
  predicate Subsequence(a: Recency, b: Recency) {
    if a == [] then true
    else if b == [] then false
    else if a[0] == b[0] then Subsequence(a[1..], b[1..])
    else Subsequence(a, b[1..])
  }

  lemma {:induction false} DropFirst(a: Recency, b: Recency)
    requires Subsequence(a, b) && a != []
    ensures Subsequence(a[1..], b)
    decreases |b|
  {
    if a[0] == b[0] {
      AddFirst(a[1..], b[0], b[1..]);
      assert b == [b[0]] + b[1..];
    } else {
      DropFirst(a, b[1..]);
      AddFirst(a[1..], b[0], b[1..]);
      assert b == [b[0]] + b[1..];
    }
  }

  lemma {:induction false} AddFirst(a: Recency, e: Entry, b: Recency)
    requires Subsequence(a, b)
    ensures Subsequence(a, [e] + b)
    decreases |b|, 0
  {
    assert ([e] + b)[1..] == b;
    if a != [] && a[0] == e {
      if a[0] == b[0] {
        AddFirst(a[1..], b[0], b[1..]);
        assert b == [b[0]] + b[1..];
      } else {
        DropFirst(a, b[1..]);
        AddFirst(a[1..], b[0], b[1..]);
        assert b == [b[0]] + b[1..];
      }
    }
  }

  lemma {:induction false} SubsequenceWithout(a: Recency, b: Recency, k: Key)
    requires Subsequence(a, b)
    ensures Subsequence(Without(a, k), Without(b, k))
    decreases |b|
  {
    if a == [] || b == [] {
    } else if a[0] == b[0] {
      SubsequenceWithout(a[1..], b[1..], k);
      if a[0].key != k {
        assert Without(a, k)[1..] == Without(a[1..], k);
        assert Without(b, k)[1..] == Without(b[1..], k);
      }
    } else {
      SubsequenceWithout(a, b[1..], k);
      if b[0].key != k {
        AddFirst(Without(a, k), b[0], Without(b[1..], k));
      }
    }
  }

  lemma {:induction false} SubsequenceFind(a: Recency, b: Recency, k: Key)
    requires Subsequence(a, b) && Unique(b)
    requires Find(a, k).Some?
    ensures Find(b, k) == Find(a, k)
    decreases |b|
  {
    if a[0] == b[0] {
      if a[0].key != k {
        SubsequenceFind(a[1..], b[1..], k);
      }
    } else {
      SubsequenceFind(a, b[1..], k);
      var i :| 0 <= i < |b[1..]| && b[1..][i] == Entry(k, Find(a, k).value);
      assert b[i + 1].key == k;
    }
  }

  function Init(s: Recency): Recency
    requires s != []
  {
    s[..|s| - 1]
  }

  /** Dropping the last element of the longer one costs the shorter one at most its own last. */
  lemma {:induction false} SubsequenceInit(a: Recency, b: Recency)
    requires Subsequence(a, b) && b != []
    ensures Subsequence(a, Init(b)) || (a != [] && Subsequence(Init(a), Init(b)) && a[|a| - 1] == b[|b| - 1])
    decreases |b|
  {
    if a == [] || |b| == 1 {
      if a != [] && a[0] == b[0] {
        assert a[1..] == [];
      }
    } else {
      assert Init(b)[1..] == Init(b[1..]);
      if a[0] == b[0] {
        SubsequenceInit(a[1..], b[1..]);
        if |a| > 1 {
          assert Init(a)[1..] == Init(a[1..]);
        }
      } else {
        SubsequenceInit(a, b[1..]);
        if a != [] && Subsequence(Init(a), Init(b[1..])) {
          AddFirst(Init(a), b[0], Init(b[1..]));
          assert Init(b) == [b[0]] + Init(b[1..]);
        }
      }
    }
  }

  lemma {:induction false} DropLast(a: Recency, b: Recency)
    requires Subsequence(a, b) && a != []
    ensures Subsequence(Init(a), b)
    decreases |b|
  {
    if a[0] == b[0] {
      if |a| > 1 {
        DropLast(a[1..], b[1..]);
        assert Init(a)[1..] == Init(a[1..]);
      }
    } else {
      DropLast(a, b[1..]);
      AddFirst(Init(a), b[0], b[1..]);
      assert b == [b[0]] + b[1..];
    }
  }

  /** What relates the two caches: contents and order, bounds, and at least as many free slots. */
  predicate Included(k: nat, large: nat, s: Recency, l: Recency) {
    && Unique(s) && |s| <= k
    && Unique(l) && |l| <= large
    && Subsequence(s, l)
    && large - |l| >= k - |s|
  }

  lemma WriteIncluded(k: nat, large: nat, s: Recency, l: Recency, key: Key, item: Item)
    requires 0 < k <= large && Included(k, large, s, l)
    ensures Subsequence(Write(k, s, key, item).state, Write(large, l, key, item).state)
    ensures large - |Write(large, l, key, item).state| >= k - |Write(k, s, key, item).state|
  {
    var e := Entry(key, item);
    WithoutKeeps(s, key);
    WithoutKeeps(l, key);
    if Find(s, key).Some? {
      SubsequenceFind(s, l, key);
      SubsequenceWithout(s, l, key);
      PushBoth(e, Without(s, key), Without(l, key));
    } else {
      var s' := if |s| >= k then Init(s) else s;
      if Find(l, key).Some? {
        SubsequenceWithout(s, l, key);
        WithoutAbsent(s, key);
        if |s| >= k {
          DropLast(s, Without(l, key));
        }
        PushBoth(e, s', Without(l, key));
      } else if |l| >= large {
        SubsequenceInit(s, l);
        if Subsequence(s, Init(l)) {
          DropLast(s, Init(l));
        }
        PushBoth(e, Init(s), Init(l));
      } else {
        if |s| >= k {
          DropLast(s, l);
        }
        PushBoth(e, s', l);
      }
    }
  }

  lemma PushBoth(e: Entry, s: Recency, l: Recency)
    requires Subsequence(s, l)
    ensures Subsequence([e] + s, [e] + l)
  {
    assert ([e] + s)[1..] == s;
    assert ([e] + l)[1..] == l;
  }

  /** One call keeps the relation, and the larger cache answers whenever the smaller does. */
  lemma StepIncluded(k: nat, large: nat, s: Recency, l: Recency, call: Call)
    requires 0 < k <= large && Included(k, large, s, l)
    ensures Included(k, large, Apply(k, s, call).state, Apply(large, l, call).state)
    ensures Apply(k, s, call).answer.Some? ==> Apply(large, l, call).answer == Apply(k, s, call).answer
  {
    ApplyKeepsShape(k, s, call);
    ApplyKeepsShape(large, l, call);
    match call.op {
      case Set(key, v, ttl) => WriteIncluded(k, large, s, l, key, Item(v, DeadlineFor(call.now, ttl)));
      case Get(key) => ReadIncluded(k, large, s, l, key, call.now, true);
      case Peek(key) => ReadIncluded(k, large, s, l, key, call.now, false);
      case Delete(key) =>
        SubsequenceWithout(s, l, key);
        SizesWithout(s, l, key);
      case Purge =>
    }
  }

  lemma SizesWithout(s: Recency, l: Recency, key: Key)
    requires Unique(s) && Unique(l) && Subsequence(s, l)
    ensures |l| - |Without(l, key)| >= |s| - |Without(s, key)|
  {
    WithoutKeeps(s, key);
    WithoutKeeps(l, key);
    if Find(s, key).Some? {
      SubsequenceFind(s, l, key);
    }
  }

  lemma ReadIncluded(k: nat, large: nat, s: Recency, l: Recency, key: Key, now: int, touch: bool)
    requires Included(k, large, s, l)
    ensures Subsequence(Read(s, key, now, touch).state, Read(l, key, now, touch).state)
    ensures large - |Read(l, key, now, touch).state| >= k - |Read(s, key, now, touch).state|
    ensures Read(s, key, now, touch).answer.Some? ==> Read(l, key, now, touch).answer == Read(s, key, now, touch).answer
  {
    SubsequenceWithout(s, l, key);
    WithoutKeeps(s, key);
    WithoutKeeps(l, key);
    if Find(s, key).Some? {
      SubsequenceFind(s, l, key);
      var e := Entry(key, Find(s, key).value);
      PushBoth(e, Without(s, key), Without(l, key));
    } else {
      WithoutAbsent(s, key);
      if Find(l, key).Some? {
        AddFirst(s, Entry(key, Find(l, key).value), Without(l, key));
      }
    }
  }

  /**
   Inclusion over whole runs: after the same calls with the same clock, the recency sequence
   of the smaller cache is a subsequence of the larger one's, values and deadlines included.
   */
  lemma {:induction false} RunIncluded(k: nat, large: nat, calls: seq<Call>)
    requires 0 < k <= large
    ensures Included(k, large, Run(k, [], calls), Run(large, [], calls))
  {
    if calls != [] {
      var before := calls[..|calls| - 1];
      RunIncluded(k, large, before);
      StepIncluded(k, large, Run(k, [], before), Run(large, [], before), calls[|calls| - 1]);
    }
  }

  /** So every hit of the smaller cache is the same hit of the larger one. */
  lemma HitsIncluded(k: nat, large: nat, calls: seq<Call>, next: Call)
    requires 0 < k <= large
    requires Apply(k, Run(k, [], calls), next).answer.Some?
    ensures Apply(large, Run(large, [], calls), next).answer == Apply(k, Run(k, [], calls), next).answer
  {
    RunIncluded(k, large, calls);
    StepIncluded(k, large, Run(k, [], calls), Run(large, [], calls), next);
  }
}
