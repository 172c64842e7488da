/**
 The contract of the cache interface, stated over what a cache holds and not over how it is
 built: which answers a call may give, which contents it may leave behind, and what the
 eviction callback must be told. LRU, LFU and sharded caches of them meet all of it. ARC meets all
 but one clause: it may evict an empty value without a word, which `ReportedBarEmpty` allows.
 */
module CacheContract {
  import opened Basics

  type Contents = map<Key, Item>

  datatype Op =
    | Get(key: Key)
    | Peek(key: Key)
    | Set(key: Key, value: Bytes, ttl: int)
    | Delete(key: Key)
    | Purge

  /** One call, with the single clock reading it makes. */
  datatype Call = Call(op: Op, now: int)

  /** What one call did: the new state, the answer, and the callback's arguments in order. */
  datatype Outcome<S> = Outcome(state: S, answer: Option<Bytes>, evicted: seq<(Key, Bytes)>)

  predicate Live(c: Contents, k: Key, now: int) {
    k in c && !Expired(c[k].deadline, now)
  }

  /** Reads answer exactly the live entries and drop an expired one; a write may evict others. */
  predicate ContentsStep(before: Contents, call: Call, after: Contents, answer: Option<Bytes>) {
    match call.op
    case Get(k) => ReadStep(before, k, call.now, after, answer)
    case Peek(k) => ReadStep(before, k, call.now, after, answer)
    case Set(k, v, ttl) =>
      && answer == None
      && k in after
      && after[k] == Item(v, DeadlineFor(call.now, ttl))
      && (forall j :: j in after && j != k ==> j in before && after[j] == before[j])
    case Delete(k) => answer == None && after == before - {k}
    case Purge => answer == None && after == map[]
  }

  predicate ReadStep(before: Contents, k: Key, now: int, after: Contents, answer: Option<Bytes>) {
    if Live(before, k, now) then
      answer == Some(before[k].value) && after == before
    else
      answer == None && after == before - {k}
  }

  /** The keys a call evicted. Only a write evicts; removal on request or on expiry does not count. */
  function Victims(before: Contents, call: Call, after: Contents): set<Key> {
    if call.op.Set? then before.Keys - after.Keys else {}
  }

  predicate Among(evicted: seq<(Key, Bytes)>, k: Key) {
    exists i :: 0 <= i < |evicted| && evicted[i].0 == k
  }

  /** The callback was told of victims only, each at most once and with the value it had. */
  predicate Truthful(before: Contents, call: Call, after: Contents, evicted: seq<(Key, Bytes)>) {
    && (forall i, j :: 0 <= i < j < |evicted| ==> evicted[i].0 != evicted[j].0)
    && (forall i :: 0 <= i < |evicted| ==>
          evicted[i].0 in Victims(before, call, after) && evicted[i].1 == before[evicted[i].0].value)
  }

  /** And it was told of every victim. */
  predicate Reported(before: Contents, call: Call, after: Contents, evicted: seq<(Key, Bytes)>) {
    && Truthful(before, call, after, evicted)
    && (forall k :: k in Victims(before, call, after) ==> Among(evicted, k))
  }

  /** Or of every victim whose value was not empty. */
  predicate ReportedBarEmpty(before: Contents, call: Call, after: Contents, evicted: seq<(Key, Bytes)>) {
    && Truthful(before, call, after, evicted)
    && (forall k :: k in Victims(before, call, after) && before[k].value != [] ==> Among(evicted, k))
  }

  predicate Step(before: Contents, call: Call, after: Contents, answer: Option<Bytes>, evicted: seq<(Key, Bytes)>) {
    ContentsStep(before, call, after, answer) && Reported(before, call, after, evicted)
  }

  lemma ReportedAll(before: Contents, call: Call, after: Contents, evicted: seq<(Key, Bytes)>)
    requires Reported(before, call, after, evicted)
    ensures ReportedBarEmpty(before, call, after, evicted)
  {
  }

  /** A write that evicts nothing and reports nothing keeps the contract. */
  lemma QuietWrite(before: Contents, call: Call, after: Contents)
    requires call.op.Set?
    requires after == before[call.op.key := Item(call.op.value, DeadlineFor(call.now, call.op.ttl))]
    ensures Step(before, call, after, None, [])
  {
  }

  /** So does one that evicts a single entry under another key and reports it. */
  lemma EvictingWrite(before: Contents, call: Call, after: Contents, victim: Key)
    requires call.op.Set? && victim != call.op.key && victim in before
    requires after == (before - {victim})[call.op.key := Item(call.op.value, DeadlineFor(call.now, call.op.ttl))]
    ensures Victims(before, call, after) == {victim}
    ensures ContentsStep(before, call, after, None)
    ensures Reported(before, call, after, [(victim, before[victim].value)])
  {
    var evicted := [(victim, before[victim].value)];
    assert Victims(before, call, after) == {victim};
    assert evicted[0].0 == victim;
  }

  // ---------- runs ----------

  /** A run of a cache that starts empty: one state before and after each call. */
  predicate IsRun(states: seq<Contents>, calls: seq<Call>, answers: seq<Option<Bytes>>) {
    && |states| == |calls| + 1
    && |answers| == |calls|
    && states[0] == map[]
    && forall i :: 0 <= i < |calls| ==> ContentsStep(states[i], calls[i], states[i + 1], answers[i])
  }

  /** What the calls alone say about `k`: its latest Set, unless a Delete or a Purge came later. */
  function Latest(calls: seq<Call>, k: Key): Option<Item> {
    if calls == [] then None else
      var last := calls[|calls| - 1];
      match last.op
      case Set(j, v, ttl) =>
        if j == k then Some(Item(v, DeadlineFor(last.now, ttl))) else Latest(calls[..|calls| - 1], k)
      case Delete(j) => if j == k then None else Latest(calls[..|calls| - 1], k)
      case Purge => None
      case _ => Latest(calls[..|calls| - 1], k)
  }

  /** In every run, whatever is held for a key is what the calls last put there. */
  lemma {:induction false} HeldIsLatest(states: seq<Contents>, calls: seq<Call>, answers: seq<Option<Bytes>>, k: Key)
    requires IsRun(states, calls, answers)
    requires k in states[|calls|]
    ensures Latest(calls, k) == Some(states[|calls|][k])
    decreases |calls|
  {
    if calls != [] {
      var n := |calls| - 1;
      var call := calls[n];
      assert ContentsStep(states[n], calls[n], states[n + 1], answers[n]);
      if !(call.op.Set? && call.op.key == k) {
        assert k in states[n] && states[n][k] == states[n + 1][k];
        assert calls[..n] == calls[..|calls| - 1];
        HeldIsLatest(states[..n + 1], calls[..n], answers[..n], k);
      }
    }
  }

  /**
   Every hit, in every run, returns the value of the latest Set of its key since any Delete
   or Purge, and never past the deadline that Set gave it.
   */
  lemma HitsAreLatest(states: seq<Contents>, calls: seq<Call>, answers: seq<Option<Bytes>>, i: nat, k: Key)
    requires IsRun(states, calls, answers)
    requires i < |calls|
    requires calls[i].op == Get(k) || calls[i].op == Peek(k)
    requires answers[i].Some?
    ensures Latest(calls[..i], k).Some?
    ensures Latest(calls[..i], k).value.value == answers[i].value
    ensures !Expired(Latest(calls[..i], k).value.deadline, calls[i].now)
  {
    assert ContentsStep(states[i], calls[i], states[i + 1], answers[i]);
    HeldIsLatest(states[..i + 1], calls[..i], answers[..i], k);
  }

  /** A value is read back at once, and so until its time to live is over and no longer; without one, always. */
  lemma HitExactly(s: seq<Contents>, k: Key, v: Bytes, ttl: int, now: int, read: Op, later: int, answers: seq<Option<Bytes>>)
    requires |s| == 3 && |answers| == 2 && (read == Get(k) || read == Peek(k))
    requires ContentsStep(s[0], Call(Set(k, v, ttl), now), s[1], answers[0])
    requires ContentsStep(s[1], Call(read, later), s[2], answers[1])
    ensures answers[1] == if ttl <= 0 || later - now <= ttl then Some(v) else None
  {
  }

  // ---------- stored bytes ----------

  /** The summed length of all values held. */
  ghost function TotalBytes(c: Contents): nat
    decreases |c|
  {
    if c == map[] then 0 else
      var k :| k in c;
      RemoveShrinks(c, k);
      |c[k].value| + TotalBytes(c - {k})
  }

  /** The sum does not depend on the order in which entries are taken out. */
  lemma {:induction false} TotalBytesWithout(c: Contents, k: Key)
    requires k in c
    ensures TotalBytes(c) == |c[k].value| + TotalBytes(c - {k})
    decreases |c|
  {
    var j :| j in c && TotalBytes(c) == |c[j].value| + TotalBytes(c - {j});
    if j != k {
      RemoveShrinks(c, j);
      RemoveShrinks(c, k);
      TotalBytesWithout(c - {j}, k);
      TotalBytesWithout(c - {k}, j);
      assert c - {j} - {k} == c - {k} - {j};
    }
  }

  lemma TotalBytesWith(c: Contents, k: Key, item: Item)
    ensures TotalBytes(c[k := item]) == TotalBytes(c - {k}) + |item.value|
    ensures k in c ==> TotalBytes(c - {k}) == TotalBytes(c) - |c[k].value|
    ensures k !in c ==> c - {k} == c
  {
    TotalBytesWithout(c[k := item], k);
    assert c[k := item] - {k} == c - {k};
    if k in c {
      TotalBytesWithout(c, k);
    }
  }
}
