/**
 The least-recently-used policy as a recency sequence, most recent first: what the linked
 structure of `LruCache` is proved to implement, and where the policy's theorems live.
 */
module LruSpec {
  import opened Basics
  import opened CacheContract
  import opened Policies

  datatype Entry = Entry(key: Key, item: Item)

  type Recency = seq<Entry>

  predicate Unique(s: Recency) {
    forall i, j :: 0 <= i < j < |s| ==> s[i].key != s[j].key
  }

  function Find(s: Recency, k: Key): (r: Option<Item>)
    ensures r.Some? ==> Entry(k, r.value) in s
    ensures r.None? ==> forall i :: 0 <= i < |s| ==> s[i].key != k
  {
    if s == [] then None
    else if s[0].key == k then Some(s[0].item)
    else Find(s[1..], k)
  }

  function Without(s: Recency, k: Key): Recency {
    if s == [] then []
    else if s[0].key == k then Without(s[1..], k)
    else [s[0]] + Without(s[1..], k)
  }

  /** The recency sequence after one call, with its answer and evictions. */
  function Apply(capacity: nat, s: Recency, call: Call): Outcome<Recency> {
    match call.op
    case Get(k) => Read(s, k, call.now, true)
    case Peek(k) => Read(s, k, call.now, false)
    case Set(k, v, ttl) => Write(capacity, s, k, Item(v, DeadlineFor(call.now, ttl)))
    case Delete(k) => Outcome(Without(s, k), None, [])
    case Purge => Outcome([], None, [])
  }

  function Read(s: Recency, k: Key, now: int, touch: bool): Outcome<Recency> {
    match Find(s, k)
    case None => Outcome(s, None, [])
    case Some(item) =>
      if Expired(item.deadline, now) then Outcome(Without(s, k), None, [])
      else if touch then Outcome([Entry(k, item)] + Without(s, k), Some(item.value), [])
      else Outcome(s, Some(item.value), [])
  }

  function Write(capacity: nat, s: Recency, k: Key, item: Item): Outcome<Recency> {
    if Find(s, k).Some? then Outcome([Entry(k, item)] + Without(s, k), None, [])
    else Outcome([Entry(k, item)] + Room(capacity, s), None, Overflow(capacity, s))
  }

  predicate Full(capacity: nat, s: Recency) {
    |s| >= capacity && s != []
  }

  /** What stays when a new entry comes in: all but the least recent one if the cache is full. */
  function Room(capacity: nat, s: Recency): Recency {
    if Full(capacity, s) then s[..|s| - 1] else s
  }

  function Overflow(capacity: nat, s: Recency): seq<(Key, Bytes)> {
    if Full(capacity, s) then [(s[|s| - 1].key, s[|s| - 1].item.value)] else []
  }

  /** The whole run of calls from a given state. */
  function Run(capacity: nat, s: Recency, calls: seq<Call>): Recency {
    if calls == [] then s
    else Apply(capacity, Run(capacity, s, calls[..|calls| - 1]), calls[|calls| - 1]).state
  }

  // ---------- facts about Without and Find ----------

  lemma FindAt(s: Recency, i: nat)
    requires Unique(s) && i < |s|
    ensures Find(s, s[i].key) == Some(s[i].item)
  {
  }

  lemma {:induction false} WithoutAbsent(s: Recency, k: Key)
    requires Find(s, k).None?
    ensures Without(s, k) == s
  {
    if s != [] {
      assert forall i :: 0 < i < |s| ==> s[i] == s[1..][i - 1];
      WithoutAbsent(s[1..], k);
    }
  }

  lemma {:induction false} WithoutAt(s: Recency, i: nat)
    requires Unique(s) && i < |s|
    ensures Without(s, s[i].key) == Cut(s, i)
  {
    if i == 0 {
      WithoutAbsent(s[1..], s[0].key);
    } else {
      WithoutAt(s[1..], i - 1);
      assert Cut(s, i) == [s[0]] + Cut(s[1..], i - 1);
    }
  }

  /** `Without` keeps exactly the entries under other keys, in order. */
  lemma {:induction false} WithoutKeeps(s: Recency, k: Key)
    requires Unique(s)
    ensures Unique(Without(s, k))
    ensures Find(Without(s, k), k).None?
    ensures forall j :: j != k ==> Find(Without(s, k), j) == Find(s, j)
    ensures |Without(s, k)| == |s| - (if Find(s, k).Some? then 1 else 0)
    ensures forall e :: e in Without(s, k) ==> e in s
  {
    if s != [] {
      WithoutKeeps(s[1..], k);
      if s[0].key == k {
        WithoutAbsent(s[1..], k);
      } else {
        var w := Without(s, k);
        forall i | 0 < i < |w| ensures w[i].key != s[0].key {
          assert w[i] in Without(s[1..], k);
        }
        forall j | j != k ensures Find(w, j) == Find(s, j) {
          assert w[1..] == Without(s[1..], k);
        }
        assert w[1..] == Without(s[1..], k);
      }
    }
  }

  // ---------- every call keeps the bound and the keys distinct ----------

  lemma {:induction false} ApplyKeepsShape(capacity: nat, s: Recency, call: Call)
    requires 0 < capacity
    requires Unique(s) && |s| <= capacity
    ensures Unique(Apply(capacity, s, call).state)
    ensures |Apply(capacity, s, call).state| <= capacity
  {
    match call.op {
      case Get(k) => WithoutKeeps(s, k); PushKeeps(Without(s, k), k);
      case Peek(k) => WithoutKeeps(s, k);
      case Set(k, v, ttl) =>
        WithoutKeeps(s, k);
        PushKeeps(Without(s, k), k);
      case Delete(k) => WithoutKeeps(s, k);
      case Purge =>
    }
  }

  lemma PushKeeps(s: Recency, k: Key)
    requires Unique(s) && Find(s, k).None?
    ensures forall item :: Unique([Entry(k, item)] + s)
  {
  }

  lemma {:induction false} RunKeepsShape(capacity: nat, calls: seq<Call>)
    requires 0 < capacity
    ensures Unique(Run(capacity, [], calls))
    ensures |Run(capacity, [], calls)| <= capacity
  {
    if calls != [] {
      var before := calls[..|calls| - 1];
      RunKeepsShape(capacity, before);
      ApplyKeepsShape(capacity, Run(capacity, [], before), calls[|calls| - 1]);
    }
  }

  // ---------- the cache contract ----------

  function Keys(s: Recency): set<Key> {
    if s == [] then {} else {s[0].key} + Keys(s[1..])
  }

  lemma {:induction false} KeyIndex(s: Recency, k: Key) returns (i: nat)
    requires k in Keys(s)
    ensures i < |s| && s[i].key == k
  {
    if s[0].key == k {
      i := 0;
    } else {
      i := KeyIndex(s[1..], k);
      i := i + 1;
    }
  }

  lemma {:induction false} FindInKeys(s: Recency, k: Key)
    ensures Find(s, k).Some? <==> k in Keys(s)
  {
    if s != [] {
      FindInKeys(s[1..], k);
    }
  }

  lemma AbsentKey(s: Recency, k: Key)
    requires k !in Keys(s)
    ensures Find(s, k) == None && Without(s, k) == s
  {
    FindInKeys(s, k);
    WithoutAbsent(s, k);
  }

  lemma {:induction false} CountKeys(s: Recency)
    requires Unique(s)
    ensures |Keys(s)| == |s|
  {
    if s != [] {
      CountKeys(s[1..]);
      FindInKeys(s[1..], s[0].key);
      assert forall i :: 0 <= i < |s[1..]| ==> s[1..][i] == s[i + 1];
    }
  }

  /** What a recency sequence holds, order forgotten. */
  function Holds(s: Recency): (c: Contents)
    ensures forall k :: k in c <==> Find(s, k).Some?
    ensures forall k :: k in c ==> c[k] == Find(s, k).value
  {
    assert forall k :: k in Keys(s) <==> Find(s, k).Some? by {
      forall k ensures k in Keys(s) <==> Find(s, k).Some? {
        FindInKeys(s, k);
      }
    }
    map k | k in Keys(s) :: Find(s, k).value
  }

  lemma HoldsWithout(s: Recency, k: Key)
    requires Unique(s)
    ensures Holds(Without(s, k)) == Holds(s) - {k}
  {
    hide Find, Without, Unique, Keys;
    WithoutKeeps(s, k);
    var w, h := Holds(Without(s, k)), Holds(s) - {k};
    forall j ensures j in w <==> j in h {
      assert j in Holds(s) <==> Find(s, j).Some?;
    }
  }

  lemma HoldsPush(e: Entry, s: Recency)
    ensures Holds([e] + s) == Holds(s)[e.key := e.item]
  {
    assert ([e] + s)[1..] == s;
  }

  lemma HoldsDropLast(s: Recency)
    requires Unique(s) && s != []
    ensures Holds(s[..|s| - 1]) == Holds(s) - {s[|s| - 1].key}
    ensures s[|s| - 1].key in Holds(s)
    ensures Holds(s)[s[|s| - 1].key] == s[|s| - 1].item
  {
    var n := |s| - 1;
    FindAt(s, n);
    WithoutAt(s, n);
    HoldsWithout(s, s[n].key);
    assert Cut(s, n) == s[..n];
  }

  /** Least-recently-used meets the cache contract, callback included, on every call. */
  lemma MeetsContract(capacity: nat, s: Recency, call: Call)
    requires 0 < capacity && Unique(s)
    ensures var o := Apply(capacity, s, call);
            Step(Holds(s), call, Holds(o.state), o.answer, o.evicted)
  {
    var o := Apply(capacity, s, call);
    match call.op {
      case Get(k) => ReadMeetsContract(s, k, call.now, true);
      case Peek(k) => ReadMeetsContract(s, k, call.now, false);
      case Set(k, v, ttl) => WriteMeetsContract(capacity, s, call);
      case Delete(k) => HoldsWithout(s, k);
      case Purge => assert Holds([]) == map[];
    }
  }

  lemma ReadMeetsContract(s: Recency, k: Key, now: int, touch: bool)
    requires Unique(s)
    ensures var o := Read(s, k, now, touch);
            ReadStep(Holds(s), k, now, Holds(o.state), o.answer) && o.evicted == []
  {
    HoldsWithout(s, k);
    if Find(s, k).Some? {
      var item := Find(s, k).value;
      HoldsPush(Entry(k, item), Without(s, k));
      assert (Holds(s) - {k})[k := item] == Holds(s);
    } else {
      assert Holds(s) - {k} == Holds(s);
    }
  }

  lemma WriteMeetsContract(capacity: nat, s: Recency, call: Call)
    requires 0 < capacity && Unique(s) && call.op.Set?
    ensures var o := Apply(capacity, s, call);
            Step(Holds(s), call, Holds(o.state), o.answer, o.evicted)
  {
    var k, item := call.op.key, Item(call.op.value, DeadlineFor(call.now, call.op.ttl));
    var after := Holds(Apply(capacity, s, call).state);
    if Find(s, k).Some? {
      HoldsWithout(s, k);
      HoldsPush(Entry(k, item), Without(s, k));
      assert (Holds(s) - {k})[k := item] == Holds(s)[k := item];
      QuietWrite(Holds(s), call, after);
    } else if |s| >= capacity {
      HoldsDropLast(s);
      HoldsPush(Entry(k, item), s[..|s| - 1]);
      EvictingWrite(Holds(s), call, after, s[|s| - 1].key);
    } else {
      HoldsPush(Entry(k, item), s);
      QuietWrite(Holds(s), call, after);
    }
  }

  // ---------- stored bytes ----------

  function SumBytes(s: Recency): nat {
    if s == [] then 0 else |s[0].item.value| + SumBytes(s[1..])
  }

  /** The sequence with its element at `i` taken out. */
  function Cut(s: Recency, i: nat): Recency
    requires i < |s|
  {
    s[..i] + s[i + 1..]
  }

  lemma CutAt(s: Recency, i: nat)
    requires Unique(s) && i < |s|
    ensures Unique(Cut(s, i))
    ensures Keys(Cut(s, i)) == Keys(s) - {s[i].key}
    ensures SumBytes(Cut(s, i)) == SumBytes(s) - |s[i].item.value|
  {
    CutSum(s, i);
    CutKeys(s, i);
  }

  lemma {:induction false} CutSum(s: Recency, i: nat)
    requires i < |s|
    ensures SumBytes(Cut(s, i)) == SumBytes(s) - |s[i].item.value|
  {
    if i == 0 {
      assert Cut(s, 0) == s[1..];
    } else {
      CutSum(s[1..], i - 1);
      assert Cut(s, i)[1..] == Cut(s[1..], i - 1);
    }
  }

  lemma {:induction false} CutKeys(s: Recency, i: nat)
    requires Unique(s) && i < |s|
    ensures Keys(Cut(s, i)) == Keys(s) - {s[i].key}
  {
    hide Find;
    if i == 0 {
      assert Cut(s, 0) == s[1..];
      FindInKeys(s[1..], s[0].key);
      FindAbsent(s);
    } else {
      CutKeys(s[1..], i - 1);
      assert Cut(s, i)[1..] == Cut(s[1..], i - 1);
    }
  }

  lemma FindAbsent(s: Recency)
    requires Unique(s) && s != []
    ensures Find(s[1..], s[0].key).None?
  {
    assert forall j :: 0 <= j < |s[1..]| ==> s[1..][j] == s[j + 1];
  }

  lemma Pushed(e: Entry, s: Recency)
    requires Unique(s) && e.key !in Keys(s)
    ensures Unique([e] + s)
    ensures Keys([e] + s) == Keys(s) + {e.key}
    ensures SumBytes([e] + s) == |e.item.value| + SumBytes(s)
  {
    assert ([e] + s)[1..] == s;
    FindInKeys(s, e.key);
  }

  lemma {:induction false} Replaced(s: Recency, i: nat, e: Entry)
    requires Unique(s) && i < |s| && e.key == s[i].key
    ensures Unique(s[i := e])
    ensures Keys(s[i := e]) == Keys(s)
    ensures Cut(s[i := e], i) == Cut(s, i)
    ensures SumBytes(s[i := e]) == SumBytes(s) + |e.item.value| - |s[i].item.value|
  {
    if i == 0 {
      assert s[0 := e][1..] == s[1..];
    } else {
      Replaced(s[1..], i - 1, e);
      assert s[i := e][1..] == s[1..][i - 1 := e];
    }
  }

  lemma {:induction false} SumBytesIsTotal(s: Recency)
    requires Unique(s)
    ensures SumBytes(s) == TotalBytes(Holds(s))
  {
    if s == [] {
      assert Holds(s) == map[];
    } else {
      SumBytesIsTotal(s[1..]);
      assert s == [s[0]] + s[1..];
      HoldsPush(s[0], s[1..]);
      assert s[0].key !in Holds(s[1..]) by {
        assert forall i :: 0 <= i < |s[1..]| ==> s[1..][i] == s[i + 1];
      }
      TotalBytesWith(Holds(s[1..]), s[0].key, s[0].item);
    }
  }

  // ---------- as a policy ----------

  predicate Shaped(capacity: nat, s: Recency) {
    Unique(s) && |s| <= capacity
  }

  function AsPolicy(capacity: nat): Policy<Recency> {
    Policy([], (s: Recency, call: Call) => Apply(capacity, s, call), (s: Recency) => Shaped(capacity, s),
           (s: Recency) => Holds(s), (s: Recency, k: Key) => Find(s, k).Some?, (s: Recency) => SumBytes(s))
  }

  /** A recency sequence has as many entries as it holds keys. */
  lemma HoldsCount(s: Recency)
    requires Unique(s)
    ensures |Holds(s)| == |s|
  {
    CountKeys(s);
    forall k ensures k in Holds(s) <==> k in Keys(s) {
      FindInKeys(s, k);
    }
    assert Holds(s).Keys == Keys(s);
  }

  /** Least-recently-used is a sound and exact policy: contract, size, bytes and reports, on every call. */
  lemma IsPolicy(capacity: nat)
    requires 0 < capacity
    ensures Sound(AsPolicy(capacity), capacity) && Exact(AsPolicy(capacity))
  {
    hide Apply, Holds, SumBytes, ContentsStep, Reported, ReportedBarEmpty, Unique, Find, TotalBytes;
    var p := AsPolicy(capacity);
    NothingHeld();
    forall s | p.ok(s) ensures Sized(p, capacity, s) && forall k :: p.found(s, k) ==> k in p.holds(s) {
      HoldsCount(s);
      SumBytesIsTotal(s);
    }
    forall s, call | p.ok(s)
      ensures Kept(p, s, call)
      ensures Reported(p.holds(s), call, p.holds(p.step(s, call).state), p.step(s, call).evicted)
    {
      ApplyKeepsShape(capacity, s, call);
      MeetsContract(capacity, s, call);
      ReportedAll(p.holds(s), call, p.holds(p.step(s, call).state), p.step(s, call).evicted);
    }
  }

  lemma NothingHeld()
    ensures Holds([]) == map[] && Unique([])
  {
  }

  /** The run of the policy is the run of the sequence. */
  lemma {:induction false} RunIsAfter(capacity: nat, calls: seq<Call>)
    ensures After(AsPolicy(capacity), calls) == Run(capacity, [], calls)
  {
    if calls != [] {
      RunIsAfter(capacity, calls[..|calls| - 1]);
    }
  }

  // ---------- recency, told from the calls ----------

  /** Of two entries, the one in front has the larger rank. */
  predicate Descending(s: Recency, rank: Key -> nat) {
    forall i, j :: 0 <= i < j < |s| ==> rank(s[i].key) > rank(s[j].key)
  }

  lemma {:induction false} WithoutDescends(s: Recency, k: Key, rank: Key -> nat)
    requires Descending(s, rank)
    ensures Descending(Without(s, k), rank)
    ensures forall e :: e in Without(s, k) ==> e in s && e.key != k
  {
    if s != [] {
      WithoutDescends(s[1..], k, rank);
      var w, rest := Without(s, k), Without(s[1..], k);
      if s[0].key != k {
        forall i, j | 0 <= i < j < |w| ensures rank(w[i].key) > rank(w[j].key) {
          assert w[j] in rest && w[j] in s[1..];
        }
      }
    }
  }

  /** A sequence whose ranks do not change, behind a new entry with a larger one. */
  lemma PushDescends(e: Entry, s: Recency, rank: Key -> nat, rank': Key -> nat)
    requires Descending(s, rank)
    requires forall x :: x in s ==> rank'(x.key) == rank(x.key) && rank'(x.key) < rank'(e.key)
    ensures Descending([e] + s, rank')
  {
    var t := [e] + s;
    forall i, j | 0 <= i < j < |t| ensures rank'(t[i].key) > rank'(t[j].key) {
      assert t[j] == s[j - 1] && s[j - 1] in s;
      if i > 0 {
        assert t[i] == s[i - 1] && s[i - 1] in s;
      }
    }
  }

  /** The call that used a key last, as a rank. */
  function UseRank(capacity: nat, calls: seq<Call>): Key -> nat {
    k => LastUse(AsPolicy(capacity), calls, k)
  }

  /** In every run the recency sequence is in the order of last use, latest first. */
  lemma {:induction false} RunIsByUse(capacity: nat, calls: seq<Call>)
    requires 0 < capacity
    ensures Descending(Run(capacity, [], calls), UseRank(capacity, calls))
  {
    if calls != [] {
      var before, last := calls[..|calls| - 1], calls[|calls| - 1];
      RunIsByUse(capacity, before);
      RunKeepsShape(capacity, before);
      RunIsAfter(capacity, before);
      StepIsByUse(capacity, Run(capacity, [], before), last, UseRank(capacity, before), UseRank(capacity, calls), |calls|);
    }
  }

  /** One call, when it ranks the key it uses above all others and leaves their ranks alone. */
  lemma StepIsByUse(capacity: nat, s: Recency, call: Call, rank: Key -> nat, rank': Key -> nat, top: nat)
    requires 0 < capacity && Unique(s) && Descending(s, rank)
    requires forall k :: rank(k) < top
    requires forall k :: rank'(k) == if UsedBy(call, Apply(capacity, s, call).answer, k) then top else rank(k)
    ensures Descending(Apply(capacity, s, call).state, rank')
  {
    hide Without, Find, Unique, Read, Write;
    match call.op {
      case Get(k) => ReadIsByUse(s, k, call.now, true, rank, rank');
      case Peek(k) => ReadIsByUse(s, k, call.now, false, rank, rank');
      case Set(k, v, ttl) => WriteIsByUse(capacity, s, k, Item(v, DeadlineFor(call.now, ttl)), rank, rank', top);
      case Delete(k) => WithoutDescends(s, k, rank);
      case Purge =>
    }
  }

  lemma WriteIsByUse(capacity: nat, s: Recency, k: Key, item: Item, rank: Key -> nat, rank': Key -> nat, top: nat)
    requires Unique(s) && Descending(s, rank)
    requires forall j :: rank(j) < top
    requires forall j :: rank'(j) == if j == k then top else rank(j)
    ensures Descending(Write(capacity, s, k, item).state, rank')
  {
    hide Without;
    WithoutDescends(s, k, rank);
    if Find(s, k).Some? {
      PushDescends(Entry(k, item), Without(s, k), rank, rank');
    } else {
      RoomDescends(capacity, s, rank);
      assert forall e :: e in Room(capacity, s) ==> e.key != k;
      PushDescends(Entry(k, item), Room(capacity, s), rank, rank');
    }
  }

  lemma RoomDescends(capacity: nat, s: Recency, rank: Key -> nat)
    requires Descending(s, rank)
    ensures Descending(Room(capacity, s), rank) && forall e :: e in Room(capacity, s) ==> e in s
  {
  }

  lemma ReadIsByUse(s: Recency, k: Key, now: int, touch: bool, rank: Key -> nat, rank': Key -> nat)
    requires Unique(s) && Descending(s, rank)
    requires var hit := touch && Read(s, k, now, touch).answer.Some?;
      forall j :: if hit && j == k then forall i :: i != k ==> rank'(i) < rank'(k) else rank'(j) == rank(j)
    ensures Descending(Read(s, k, now, touch).state, rank')
  {
    WithoutDescends(s, k, rank);
    if touch && Read(s, k, now, touch).answer.Some? {
      PushDescends(Entry(k, Find(s, k).value), Without(s, k), rank, rank');
    }
  }

  /**
   So what a write evicts is told from the history of calls alone: it evicts only a key of a full
   cache, and of all keys held the one whose last use is longest ago.
   */
  lemma EvictsLongestUnused(capacity: nat, calls: seq<Call>, call: Call, v: Key, k: Key)
    requires 0 < capacity && call.op.Set?
    requires Among(Apply(capacity, Run(capacity, [], calls), call).evicted, v)
    requires k in Holds(Run(capacity, [], calls)) && k != v
    ensures v in Holds(Run(capacity, [], calls)) && call.op.key !in Holds(Run(capacity, [], calls))
    ensures |Holds(Run(capacity, [], calls))| == capacity
    ensures LastUse(AsPolicy(capacity), calls, v) < LastUse(AsPolicy(capacity), calls, k)
  {
    hide LastUse, Run, After, Apply, Descending, Unique;
    var s := Run(capacity, [], calls);
    RunKeepsShape(capacity, calls);
    RunIsByUse(capacity, calls);
    EvictsTail(capacity, s, call, v);
    HoldsCount(s);
    TailIsLowest(s, k, UseRank(capacity, calls));
  }

  /** A write that evicts meets a full cache, and evicts its last entry. */
  lemma EvictsTail(capacity: nat, s: Recency, call: Call, v: Key)
    requires 0 < capacity && Unique(s) && |s| <= capacity && call.op.Set?
    requires Among(Apply(capacity, s, call).evicted, v)
    ensures |s| == capacity && v == s[|s| - 1].key && Find(s, v).Some? && Find(s, call.op.key).None?
  {
    FindAt(s, |s| - 1);
  }

  lemma TailIsLowest(s: Recency, k: Key, rank: Key -> nat)
    requires s != [] && Descending(s, rank) && Find(s, k).Some? && k != s[|s| - 1].key
    ensures rank(s[|s| - 1].key) < rank(k)
  {
    assert Entry(k, Find(s, k).value) in s;
    var i :| 0 <= i < |s| && s[i] == Entry(k, Find(s, k).value);
    assert rank(s[i].key) > rank(s[|s| - 1].key);
  }

  // ---------- listing the keys ----------

  /** Keys of the entries strictly before their deadline. At the deadline itself a read still hits. */
  function Upcoming(s: Recency, now: int): seq<Key> {
    if s == [] then []
    else
      var e := s[|s| - 1];
      var rest := Upcoming(s[..|s| - 1], now);
      if e.item.deadline == Never || now < e.item.deadline.t then rest + [e.key] else rest
  }

  /** The sequence has an entry for `k` strictly before its deadline. */
  predicate HasAhead(s: Recency, k: Key, now: int) {
    exists i :: 0 <= i < |s| && s[i].key == k && Ahead(s[i].item.deadline, now)
  }

  lemma HasAheadSnoc(s: Recency, k: Key, now: int)
    requires s != []
    ensures var before, e := s[..|s| - 1], s[|s| - 1];
      HasAhead(s, k, now) <==> HasAhead(before, k, now) || (e.key == k && Ahead(e.item.deadline, now))
  {
    var before := s[..|s| - 1];
    assert forall i :: 0 <= i < |before| ==> before[i] == s[i];
    if HasAhead(before, k, now) {
      var i :| 0 <= i < |before| && before[i].key == k && Ahead(before[i].item.deadline, now);
      assert s[i] == before[i];
    }
  }

  /** Exactly the keys held strictly before their deadline are listed, by rank, the highest first, so each once. */
  lemma {:induction false} UpcomingByRank(s: Recency, now: int, rank: Key -> nat)
    requires Descending(s, rank)
    ensures forall k :: k in Upcoming(s, now) <==> HasAhead(s, k, now)
    ensures var u := Upcoming(s, now); forall i, j :: 0 <= i < j < |u| ==> rank(u[i]) > rank(u[j])
  {
    if s != [] {
      var before, e, u := s[..|s| - 1], s[|s| - 1], Upcoming(s, now);
      UpcomingByRank(before, now, rank);
      hide HasAhead;
      forall k ensures k in u <==> HasAhead(s, k, now) {
        HasAheadSnoc(s, k, now);
        assert k in Upcoming(before, now) <==> HasAhead(before, k, now);
        assert k in u <==> k in Upcoming(before, now) || (k == e.key && Ahead(e.item.deadline, now));
      }
      forall i, j | 0 <= i < j < |u| ensures rank(u[i]) > rank(u[j]) {
        if j == |Upcoming(before, now)| {
          assert u[i] in Upcoming(before, now);
          AheadIsAbove(s, u[i], now, rank);
        }
      }
    } else {
      assert forall k :: !HasAhead(s, k, now);
    }
  }

  lemma AheadIsAbove(s: Recency, k: Key, now: int, rank: Key -> nat)
    requires s != [] && Descending(s, rank) && HasAhead(s[..|s| - 1], k, now)
    ensures rank(k) > rank(s[|s| - 1].key)
  {
    var before := s[..|s| - 1];
    var i :| 0 <= i < |before| && before[i].key == k && Ahead(before[i].item.deadline, now);
    assert s[i] == before[i];
  }

  /** In every run the listing is of the keys held strictly before their deadline, the one used last first. */
  lemma ListedByUse(capacity: nat, calls: seq<Call>, now: int)
    requires 0 < capacity
    ensures var s := Run(capacity, [], calls);
      var u, rank := Upcoming(s, now), UseRank(capacity, calls);
      && (forall k :: k in u <==> k in Holds(s) && Ahead(Holds(s)[k].deadline, now))
      && (forall i, j :: 0 <= i < j < |u| ==> rank(u[i]) > rank(u[j]))
  {
    hide Upcoming, Run, Descending, UseRank, Find;
    var s := Run(capacity, [], calls);
    RunIsByUse(capacity, calls);
    RunKeepsShape(capacity, calls);
    UpcomingByRank(s, now, UseRank(capacity, calls));
    forall k ensures k in Upcoming(s, now) <==> k in Holds(s) && Ahead(Holds(s)[k].deadline, now) {
      if k in Upcoming(s, now) {
        var i :| 0 <= i < |s| && s[i].key == k && Ahead(s[i].item.deadline, now);
        FindAt(s, i);
      }
      if k in Holds(s) && Ahead(Holds(s)[k].deadline, now) {
        assert Entry(k, Holds(s)[k]) in s;
        var i :| 0 <= i < |s| && s[i] == Entry(k, Holds(s)[k]);
      }
    }
  }
}
