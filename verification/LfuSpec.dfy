/**
 The least-frequently-used policy as its definition reads: every entry carries how often it was
 touched and when it was last touched, and the entry evicted is the one that is least in that
 order. `LfuCache` reaches the same victim with frequency buckets and a lazily kept minimum.
 */
module LfuSpec {
  import opened Basics
  import opened CacheContract
  import opened Policies

  /** `freq` is 1 plus the touches since insertion, `stamp` the tick of the last one. */
  datatype Entry = Entry(item: Item, freq: nat, stamp: nat)

  datatype State = State(capacity: nat, entries: map<Key, Entry>, tick: nat)

  function Empty(capacity: nat): State {
    State(capacity, map[], 0)
  }

  /** `a` is evicted before `b`: touched less often, or as often but longer ago. */
  predicate Colder(a: Entry, b: Entry) {
    a.freq < b.freq || (a.freq == b.freq && a.stamp < b.stamp)
  }

  /** The eviction order has `k` strictly first. */
  predicate Coldest(entries: map<Key, Entry>, k: Key) {
    k in entries && forall j :: j in entries && j != k ==> Colder(entries[k], entries[j])
  }

  predicate Valid(s: State) {
    && 0 < s.capacity
    && |s.entries| <= s.capacity
    && (forall k :: k in s.entries ==> 1 <= s.entries[k].freq && s.entries[k].stamp < s.tick)
    && (forall j, k :: j in s.entries && k in s.entries && j != k ==> s.entries[j].stamp != s.entries[k].stamp)
  }

  /** There is a coldest entry, and only one. */
  lemma {:induction false} ColdestExists(entries: map<Key, Entry>) returns (k: Key)
    requires entries.Keys != {}
    requires forall i, j :: i in entries && j in entries && i != j ==> entries[i].stamp != entries[j].stamp
    ensures Coldest(entries, k)
    decreases |entries|
  {
    var j :| j in entries;
    var rest := entries - {j};
    if rest.Keys == {} {
      assert forall i :: i in entries && i != j ==> i in rest;
      k := j;
    } else {
      RemoveShrinks(entries, j);
      var c := ColdestExists(rest);
      k := if Colder(entries[c], entries[j]) then c else j;
      assert forall i :: i in entries && i != j ==> i in rest;
    }
  }

  lemma ColdestThere(entries: map<Key, Entry>)
    requires entries.Keys != {}
    requires forall i, j :: i in entries && j in entries && i != j ==> entries[i].stamp != entries[j].stamp
    ensures exists k :: Coldest(entries, k)
  {
    var k := ColdestExists(entries);
  }

  lemma ColdestUnique(entries: map<Key, Entry>, j: Key, k: Key)
    requires Coldest(entries, j) && Coldest(entries, k)
    ensures j == k
  {
  }

  ghost function Victim(entries: map<Key, Entry>): (k: Key)
    requires entries.Keys != {}
    requires forall i, j :: i in entries && j in entries && i != j ==> entries[i].stamp != entries[j].stamp
    ensures Coldest(entries, k)
  {
    ColdestThere(entries);
    var k :| Coldest(entries, k);
    k
  }

  function Touch(s: State, k: Key, item: Item): State
    requires k in s.entries
  {
    s.(entries := s.entries[k := Entry(item, s.entries[k].freq + 1, s.tick)], tick := s.tick + 1)
  }

  function Insert(s: State, k: Key, item: Item): State {
    s.(entries := s.entries[k := Entry(item, 1, s.tick)], tick := s.tick + 1)
  }

  function Remove(s: State, k: Key): State {
    s.(entries := s.entries - {k})
  }

  ghost function Room(s: State): State
    requires Valid(s)
  {
    if |s.entries| >= s.capacity then
      NotEmpty(s);
      Remove(s, Victim(s.entries))
    else s
  }

  ghost function Overflow(s: State): seq<(Key, Bytes)>
    requires Valid(s)
  {
    if |s.entries| >= s.capacity then
      NotEmpty(s);
      var v := Victim(s.entries);
      [(v, s.entries[v].item.value)]
    else []
  }

  lemma NotEmpty(s: State)
    requires Valid(s) && |s.entries| >= s.capacity
    ensures s.entries.Keys != {}
  {
    assert |s.entries| == |s.entries.Keys|;
  }

  ghost function Write(s: State, k: Key, item: Item): Outcome<State>
    requires Valid(s)
  {
    if k in s.entries then Outcome(Touch(s, k, item), None, [])
    else Outcome(Insert(Room(s), k, item), None, Overflow(s))
  }

  function Read(s: State, k: Key, now: int, touch: bool): Outcome<State> {
    if k !in s.entries then Outcome(s, None, [])
    else
      var item := s.entries[k].item;
      if Expired(item.deadline, now) then Outcome(Remove(s, k), None, [])
      else if touch then Outcome(Touch(s, k, item), Some(item.value), [])
      else Outcome(s, Some(item.value), [])
  }

  ghost function Apply(s: State, call: Call): Outcome<State>
    requires Valid(s)
  {
    match call.op
    case Get(k) => Read(s, k, call.now, true)
    case Peek(k) => Read(s, k, call.now, false)
    case Set(k, v, ttl) => Write(s, k, Item(v, DeadlineFor(call.now, ttl)))
    case Delete(k) => Outcome(Remove(s, k), None, [])
    case Purge => Outcome(Empty(s.capacity), None, [])
  }

  // ---------- every call keeps the bound and the stamps apart ----------

  lemma RemoveKeeps(s: State, k: Key)
    requires Valid(s)
    ensures Valid(Remove(s, k))
    ensures k in s.entries ==> |Remove(s, k).entries| == |s.entries| - 1
    ensures k !in s.entries ==> Remove(s, k) == s
  {
    if k in s.entries {
      RemoveShrinks(s.entries, k);
    } else {
      assert s.entries - {k} == s.entries;
    }
  }

  lemma TouchKeeps(s: State, k: Key, item: Item)
    requires Valid(s) && k in s.entries
    ensures Valid(Touch(s, k, item)) && |Touch(s, k, item).entries| == |s.entries|
  {
    var e := Touch(s, k, item).entries;
    assert e.Keys == s.entries.Keys;
    assert |e| == |e.Keys| && |s.entries| == |s.entries.Keys|;
  }

  lemma InsertKeeps(s: State, k: Key, item: Item)
    requires Valid(s) && k !in s.entries && |s.entries| < s.capacity
    ensures Valid(Insert(s, k, item)) && |Insert(s, k, item).entries| == |s.entries| + 1
  {
    assert Insert(s, k, item).entries - {k} == s.entries;
    RemoveShrinks(Insert(s, k, item).entries, k);
  }

  lemma RoomKeeps(s: State)
    requires Valid(s)
    ensures Valid(Room(s)) && |Room(s).entries| < s.capacity && Room(s).capacity == s.capacity
    ensures forall k :: k in Room(s).entries ==> k in s.entries
  {
    if |s.entries| >= s.capacity {
      NotEmpty(s);
      RemoveKeeps(s, Victim(s.entries));
    }
  }

  lemma ApplyKeeps(s: State, call: Call)
    requires Valid(s)
    ensures Valid(Apply(s, call).state) && Apply(s, call).state.capacity == s.capacity
  {
    hide Valid;
    match call.op {
      case Get(k) =>
        RemoveKeeps(s, k);
        if k in s.entries {
          TouchKeeps(s, k, s.entries[k].item);
        }
      case Peek(k) => RemoveKeeps(s, k);
      case Set(k, v, ttl) =>
        var item := Item(v, DeadlineFor(call.now, ttl));
        if k in s.entries {
          TouchKeeps(s, k, item);
        } else {
          RoomKeeps(s);
          InsertKeeps(Room(s), k, item);
        }
      case Delete(k) => RemoveKeeps(s, k);
      case Purge => EmptyKeeps(s);
    }
  }

  lemma EmptyKeeps(s: State)
    requires Valid(s)
    ensures Valid(Empty(s.capacity))
  {
  }

  // ---------- the cache contract ----------

  function Holds(s: State): Contents {
    map k | k in s.entries :: s.entries[k].item
  }

  lemma TouchCapacity(s: State, k: Key, item: Item)
    requires k in s.entries
    ensures Touch(s, k, item).capacity == s.capacity
  {
  }

  lemma TouchBytes(s: State, k: Key, item: Item)
    requires k in s.entries
    ensures TotalBytes(Holds(Touch(s, k, item)))
         == TotalBytes(Holds(s)) + |item.value| - |s.entries[k].item.value|
  {
    hide TotalBytes;
    TotalBytesWith(Holds(s), k, item);
    assert Holds(Touch(s, k, item)) == Holds(s)[k := item];
  }

  lemma InsertBytes(s: State, k: Key, item: Item)
    requires k !in s.entries
    ensures TotalBytes(Holds(Insert(s, k, item))) == TotalBytes(Holds(s)) + |item.value|
  {
    hide TotalBytes;
    TotalBytesWith(Holds(s), k, item);
    assert Holds(Insert(s, k, item)) == Holds(s)[k := item];
  }

  lemma RemoveBytes(s: State, k: Key)
    requires k in s.entries
    ensures TotalBytes(Holds(Remove(s, k))) == TotalBytes(Holds(s)) - |s.entries[k].item.value|
  {
    hide TotalBytes;
    TotalBytesWithout(Holds(s), k);
    assert Holds(Remove(s, k)) == Holds(s) - {k};
  }

  /** Least-frequently-used meets the cache contract, callback included, on every call. */
  lemma MeetsContract(s: State, call: Call)
    requires Valid(s)
    ensures var o := Apply(s, call);
            Step(Holds(s), call, Holds(o.state), o.answer, o.evicted)
  {
    hide Write, Valid;
    var o := Apply(s, call);
    match call.op {
      case Get(k) => ReadMeets(s, k, call.now, true);
      case Peek(k) => ReadMeets(s, k, call.now, false);
      case Set(k, v, ttl) => WriteMeets(s, call);
      case Delete(k) => assert Holds(o.state) == Holds(s) - {k};
      case Purge => assert Holds(o.state) == map[];
    }
  }

  lemma ReadMeets(s: State, k: Key, now: int, touch: bool)
    ensures var o := Read(s, k, now, touch);
            ReadStep(Holds(s), k, now, Holds(o.state), o.answer) && o.evicted == []
  {
    var o := Read(s, k, now, touch);
    if k in s.entries && !Expired(s.entries[k].item.deadline, now) {
      assert Holds(o.state) == Holds(s);
    } else {
      assert Holds(o.state) == Holds(s) - {k};
    }
  }

  lemma WriteMeets(s: State, call: Call)
    requires Valid(s) && call.op.Set?
    ensures var o := Apply(s, call);
            Step(Holds(s), call, Holds(o.state), o.answer, o.evicted)
  {
    hide Step, Reported, ContentsStep, Victims, Valid, Holds, Write, Coldest;
    var k, item := call.op.key, Item(call.op.value, DeadlineFor(call.now, call.op.ttl));
    var o := Apply(s, call);
    assert o == Write(s, k, item);
    HoldsWrite(s, k, item);
    if k in s.entries || |s.entries| < s.capacity {
      QuietWrite(Holds(s), call, Holds(o.state));
    } else {
      NotEmpty(s);
      Distinct(s);
      var v := Victim(s.entries);
      EvictingWrite(Holds(s), call, Holds(o.state), v);
      StepOf(Holds(s), call, Holds(o.state), [(v, Holds(s)[v].value)]);
    }
  }

  lemma Distinct(s: State)
    requires Valid(s)
    ensures forall i, j :: i in s.entries && j in s.entries && i != j ==> s.entries[i].stamp != s.entries[j].stamp
  {
  }

  /** What a write leaves behind and reports: everything, or everything but the coldest entry. */
  lemma HoldsWrite(s: State, k: Key, item: Item)
    requires Valid(s)
    ensures Write(s, k, item).answer == None
    ensures k in s.entries || |s.entries| < s.capacity ==>
      Holds(Write(s, k, item).state) == Holds(s)[k := item] && Write(s, k, item).evicted == []
    ensures k !in s.entries && |s.entries| >= s.capacity ==>
      && s.entries.Keys != {}
      && var v := Victim(s.entries);
         && v in Holds(s) && v != k
         && Holds(Write(s, k, item).state) == (Holds(s) - {v})[k := item]
         && Write(s, k, item).evicted == [(v, Holds(s)[v].value)]
  {
    hide Valid;
    if k in s.entries {
      HoldsTouch(s, k, item);
    } else if |s.entries| < s.capacity {
      HoldsInsert(s, k, item);
    } else {
      NotEmpty(s);
      Distinct(s);
      HoldsInsert(Remove(s, Victim(s.entries)), k, item);
      HoldsRemove(s, Victim(s.entries));
    }
  }

  lemma HoldsTouch(s: State, k: Key, item: Item)
    requires k in s.entries
    ensures Holds(Touch(s, k, item)) == Holds(s)[k := item]
  {
  }

  lemma HoldsInsert(s: State, k: Key, item: Item)
    ensures Holds(Insert(s, k, item)) == Holds(s)[k := item]
  {
  }

  lemma HoldsRemove(s: State, k: Key)
    ensures Holds(Remove(s, k)) == Holds(s) - {k}
  {
  }

  lemma StepOf(before: Contents, call: Call, after: Contents, evicted: seq<(Key, Bytes)>)
    requires ContentsStep(before, call, after, None) && Reported(before, call, after, evicted)
    ensures Step(before, call, after, None, evicted)
  {
  }

  // ---------- runs ----------

  /** The state after a run of calls on a cache that starts empty. */
  ghost function Run(capacity: nat, calls: seq<Call>): (s: State)
    requires 0 < capacity
    ensures Valid(s) && s.capacity == capacity
  {
    if calls == [] then Empty(capacity)
    else
      var before := Run(capacity, calls[..|calls| - 1]);
      ApplyKeeps(before, calls[|calls| - 1]);
      Apply(before, calls[|calls| - 1]).state
  }

  // ---------- as a policy ----------

  ghost function AsPolicy(capacity: nat): Policy<State> {
    Policy(Empty(capacity), (s: State, call: Call) => if Valid(s) then Apply(s, call) else Outcome(s, None, []),
           (s: State) => Valid(s) && s.capacity == capacity, (s: State) => Holds(s),
           (s: State, k: Key) => k in s.entries, (s: State) => TotalBytes(Holds(s)))
  }

  /** Least-frequently-used is a sound and exact policy: contract, size and reports, on every call. */
  lemma IsPolicy(capacity: nat)
    requires 0 < capacity
    ensures Sound(AsPolicy(capacity), capacity) && Exact(AsPolicy(capacity))
  {
    hide Apply, ContentsStep, Reported, ReportedBarEmpty, Valid, TotalBytes;
    var p := AsPolicy(capacity);
    StartsValid(capacity);
    forall s | p.ok(s) ensures Sized(p, capacity, s) && forall k :: p.found(s, k) ==> k in p.holds(s) {
      HoldsSize(s);
    }
    forall s, call | p.ok(s)
      ensures Kept(p, s, call)
      ensures Reported(p.holds(s), call, p.holds(p.step(s, call).state), p.step(s, call).evicted)
    {
      ApplyKeeps(s, call);
      MeetsContract(s, call);
      ReportedAll(p.holds(s), call, p.holds(p.step(s, call).state), p.step(s, call).evicted);
    }
  }

  lemma StartsValid(capacity: nat)
    requires 0 < capacity
    ensures Valid(Empty(capacity))
  {
  }

  lemma HoldsSize(s: State)
    requires Valid(s)
    ensures |Holds(s)| <= s.capacity
  {
    assert Holds(s).Keys == s.entries.Keys;
    assert |Holds(s)| == |Holds(s).Keys| && |s.entries| == |s.entries.Keys|;
  }

  /** The run of the policy is the run of its definition. */
  lemma {:induction false} RunIsAfter(capacity: nat, calls: seq<Call>)
    requires 0 < capacity
    ensures After(AsPolicy(capacity), calls) == Run(capacity, calls)
  {
    if calls != [] {
      RunIsAfter(capacity, calls[..|calls| - 1]);
    }
  }

  // ---------- frequency and last touch, told from the calls ----------

  /** What one call does to the entry of a key that is still there afterwards. */
  lemma EntryAfter(s: State, call: Call, k: Key)
    requires Valid(s) && k in Apply(s, call).state.entries
    ensures var o := Apply(s, call);
      var used := UsedBy(call, o.answer, k);
      var e := o.state.entries[k];
      && (used ==> e.freq == (if k in s.entries then s.entries[k].freq + 1 else 1) && e.stamp == s.tick)
      && (!used ==> k in s.entries && e.freq == s.entries[k].freq && e.stamp == s.entries[k].stamp)
  {
    hide Coldest, Valid;
    if call.op.Set? && call.op.key !in s.entries {
      RoomKeeps(s);
    }
  }

  /** A key's frequency is 1 plus its uses since it came in. */
  lemma {:induction false} FrequencyCountsUses(capacity: nat, calls: seq<Call>, k: Key)
    requires 0 < capacity && k in Run(capacity, calls).entries
    ensures Run(capacity, calls).entries[k].freq == 1 + Touches(AsPolicy(capacity), calls, k)
  {
    hide Apply;
    if calls != [] {
      var before := calls[..|calls| - 1];
      var s := Run(capacity, before);
      RunIsAfter(capacity, before);
      EntryAfter(s, calls[|calls| - 1], k);
      if k in s.entries {
        FrequencyCountsUses(capacity, before, k);
      }
    }
  }

  /** And stamps order keys as the calls that used them last. */
  lemma {:induction false} StampsFollowCalls(capacity: nat, calls: seq<Call>, j: Key, k: Key)
    requires 0 < capacity && j in Run(capacity, calls).entries && k in Run(capacity, calls).entries && j != k
    ensures Run(capacity, calls).entries[j].stamp < Run(capacity, calls).entries[k].stamp
       <==> LastUse(AsPolicy(capacity), calls, j) < LastUse(AsPolicy(capacity), calls, k)
  {
    hide Apply;
    if calls != [] {
      var before := calls[..|calls| - 1];
      var s := Run(capacity, before);
      RunIsAfter(capacity, before);
      EntryAfter(s, calls[|calls| - 1], j);
      EntryAfter(s, calls[|calls| - 1], k);
      if j in s.entries && k in s.entries {
        StampsFollowCalls(capacity, before, j, k);
      }
    }
  }

  /**
   So what a write to a full cache evicts is told from the history of calls alone: of all keys held,
   the one used least often since it came in, and of those the one whose last use is longest ago.
   */
  lemma EvictsLeastUsed(capacity: nat, calls: seq<Call>, call: Call, v: Key, k: Key)
    requires 0 < capacity && call.op.Set?
    requires Among(Apply(Run(capacity, calls), call).evicted, v)
    requires k in Holds(Run(capacity, calls)) && k != v
    ensures v in Holds(Run(capacity, calls))
    ensures var t, u := Touches(AsPolicy(capacity), calls, v), Touches(AsPolicy(capacity), calls, k);
      t < u || (t == u && LastUse(AsPolicy(capacity), calls, v) < LastUse(AsPolicy(capacity), calls, k))
  {
    hide Touches, LastUse, Run;
    var s := Run(capacity, calls);
    HoldsWrite(s, call.op.key, Item(call.op.value, DeadlineFor(call.now, call.op.ttl)));
    assert Coldest(s.entries, v);
    FrequencyCountsUses(capacity, calls, v);
    FrequencyCountsUses(capacity, calls, k);
    StampsFollowCalls(capacity, calls, v, k);
  }
}
