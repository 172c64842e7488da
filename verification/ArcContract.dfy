/** The adaptive replacement policy against the cache contract, eviction callback included. */
module ArcContract {
  import opened Basics
  import opened CacheContract
  import opened KeyLists
  import opened Policies
  import opened ArcSpec
  import opened ArcTheorems

  /** What the two live lists hold. Ghosts are not part of it. */
  function Holds(st: State): Contents {
    map k | k in st.items && st.items[k].Live() :: Item(st.items[k].value, st.items[k].expiresAt)
  }

  function AsItem(e: Entry): Item {
    Item(e.value, e.expiresAt)
  }

  lemma HoldsPlace(st: State, k: Key, e: Entry)
    ensures e.Live() ==> Holds(Place(st, k, e)) == Holds(st)[k := AsItem(e)]
    ensures !e.Live() ==> Holds(Place(st, k, e)) == Holds(st) - {k}
  {
    assert Place(st, k, e).items == (st.items - {k})[k := e];
  }

  lemma HoldsForget(st: State, k: Key)
    ensures Holds(Forget(st, k)) == Holds(st) - {k}
  {
    assert Forget(st, k).items == st.items - {k};
  }

  /** The live key that a write of `k` evicts, if any. */
  function Victim(st: State, k: Key): Option<Key> {
    if k in st.items then
      if st.items[k].Live() then None else Displaced(Adapt(st, k), st.items[k].list == B2)
    else match RoomFor(st)
      case Nothing => None
      case DropT1 => if st.t1 == [] then None else Some(st.t1[|st.t1| - 1])
      case _ => Displaced(Trim(st), false)
  }

  /** Whether that eviction goes through a replacement, which does not report empty values. */
  predicate ByReplacement(st: State, k: Key) {
    if k in st.items then !st.items[k].Live() else RoomFor(st) != Nothing && RoomFor(st) != DropT1
  }

  lemma HoldsReplace(st: State, preferT2: bool)
    requires Consistent(st)
    ensures Displaced(st, preferT2).None? ==> Holds(Replace(st, preferT2)) == Holds(st)
    ensures Displaced(st, preferT2).Some? ==>
      var v := Displaced(st, preferT2).value;
      v in Holds(st) && Holds(Replace(st, preferT2)) == Holds(st) - {v}
  {
    hide Consistent, Place;
    if FromT1(st, preferT2) {
      Tagged(st, T1, |st.t1| - 1);
      HoldsPlace(st, st.t1[|st.t1| - 1], Entry([], B1, LastExpiry(st, T1)));
    } else if |st.t2| > 0 {
      Tagged(st, T2, |st.t2| - 1);
      HoldsPlace(st, st.t2[|st.t2| - 1], Entry([], B2, LastExpiry(st, T2)));
    }
  }

  lemma HoldsTrim(st: State)
    requires Consistent(st)
    ensures Holds(Trim(st)) == Holds(st) && Consistent(Trim(st))
    ensures forall k :: k in Trim(st).items ==> k in st.items && Trim(st).items[k] == st.items[k]
    ensures forall k :: k in Holds(st) ==> k in Trim(st).items
  {
    hide Consistent, Forget;
    if RoomFor(st) == DropB1 && st.b1 != [] {
      ForgetLastEffect(st, B1);
      Tagged(st, B1, |st.b1| - 1);
    } else if RoomFor(st) == DropB2 && st.b2 != [] {
      ForgetLastEffect(st, B2);
      Tagged(st, B2, |st.b2| - 1);
    }
  }

  /** A write evicts exactly its victim: the rest of the live contents stays as it was. */
  lemma WriteEvicts(st: State, k: Key, item: Item)
    requires Consistent(st) && Bounded(st)
    ensures var before, after := Holds(st), Holds(Write(st, k, item).state);
      match Victim(st, k)
      case None => after == before[k := item]
      case Some(v) => v in before && v != k && after == (before - {v})[k := item]
  {
    hide Consistent, Place, Replace, Forget, Adapt;
    var live := Entry(item.value, T2, item.deadline);
    if k !in st.items {
      HoldsPlace(MakeRoom(st), k, live.(list := T1));
      RoomEvicts(st, k);
    } else if st.items[k].Live() {
      HoldsPlace(st, k, live);
    } else {
      AdaptEffect(st, k);
      var a, preferT2 := Adapt(st, k), st.items[k].list == B2;
      assert Holds(a) == Holds(st);
      HoldsPlace(Replace(a, preferT2), k, live);
      HoldsReplace(a, preferT2);
    }
  }

  lemma RoomEvicts(st: State, k: Key)
    requires Consistent(st) && k !in st.items
    ensures var before, after := Holds(st), Holds(MakeRoom(st));
      match Victim(st, k)
      case None => after == before
      case Some(v) => v in before && v != k && after == before - {v}
  {
    hide Consistent, Replace, Forget;
    match RoomFor(st) {
      case Nothing =>
      case DropT1 =>
        if st.t1 != [] {
          Tagged(st, T1, |st.t1| - 1);
          HoldsForget(st, st.t1[|st.t1| - 1]);
        }
      case _ =>
        HoldsTrim(st);
        HoldsReplace(Trim(st), false);
    }
  }

  /** In every state that a run can reach, a call answers and changes contents as the contract says. */
  lemma MeetsContents(st: State, call: Call)
    requires Consistent(st) && Bounded(st)
    ensures ContentsStep(Holds(st), call, Holds(Apply(st, call).state), Apply(st, call).answer)
  {
    hide Consistent, Place, Forget, Write, Read, Holds;
    match call.op {
      case Get(k) => ReadMeets(st, k, call.now, true);
      case Peek(k) => ReadMeets(st, k, call.now, false);
      case Set(k, v, ttl) =>
        WriteEvicts(st, k, Item(v, DeadlineFor(call.now, ttl)));
        assert Apply(st, call) == Write(st, k, Item(v, DeadlineFor(call.now, ttl)));
        WriteAnswers(st, k, Item(v, DeadlineFor(call.now, ttl)));
      case Delete(k) =>
        HoldsForget(st, k);
        if k !in st.items {
          AbsentKey(st, k);
        }
      case Purge => NothingHeld(st.capacity);
    }
  }

  lemma ReadMeets(st: State, k: Key, now: int, touch: bool)
    ensures ReadStep(Holds(st), k, now, Holds(Read(st, k, now, touch).state), Read(st, k, now, touch).answer)
  {
    hide Place, Forget;
    HoldsForget(st, k);
    if k in st.items {
      HoldsPlace(st, k, st.items[k].(list := T2));
    }
  }

  lemma AbsentKey(st: State, k: Key)
    requires k !in st.items
    ensures Holds(st) - {k} == Holds(st)
  {
  }

  lemma NothingHeld(capacity: nat)
    ensures Holds(Empty(capacity)) == map[]
  {
  }

  /** What a write reports: its victim, unless a replacement displaced an empty value. */
  lemma WriteAnswers(st: State, k: Key, item: Item)
    requires Consistent(st)
    ensures Write(st, k, item).answer == None
    ensures Write(st, k, item).evicted ==
      (match Victim(st, k)
       case None => []
       case Some(v) =>
         if v in Holds(st) && (Holds(st)[v].value != [] || !ByReplacement(st, k)) then [(v, Holds(st)[v].value)] else [])
  {
    hide Consistent, Place, Replace, Forget;
    if k in st.items {
      var a := Adapt(st, k);
      if Displaced(a, st.items[k].list == B2).Some? && !st.items[k].Live() {
        AdaptLists(st, k);
        HoldsReplace(a, st.items[k].list == B2);
      }
    } else if RoomFor(st) == DropT1 {
      if st.t1 != [] {
        Tagged(st, T1, |st.t1| - 1);
      }
    } else if RoomFor(st) != Nothing {
      HoldsTrim(st);
      HoldsReplace(Trim(st), false);
    }
  }

  lemma AdaptLists(st: State, k: Key)
    requires Consistent(st)
    ensures Consistent(Adapt(st, k)) && Adapt(st, k).items == st.items
  {
  }

  /**
   The callback hears of every eviction exactly once, with its value, except that a replacement
   whose victim holds an empty value stays silent.
   */
  lemma ReportsExactly(st: State, call: Call)
    requires Consistent(st) && Bounded(st)
    ensures var o := Apply(st, call);
      Reported(Holds(st), call, Holds(o.state), o.evicted) <==> !Silent(st, call)
  {
    hide Consistent, Place, Forget, Write, ReadStep;
    var o := Apply(st, call);
    if call.op.Set? {
      var k, item := call.op.key, Item(call.op.value, DeadlineFor(call.now, call.op.ttl));
      WriteEvicts(st, k, item);
      WriteAnswers(st, k, item);
      assert o == Write(st, k, item);
      if Victim(st, k).Some? {
        EvictingWrite(Holds(st), call, Holds(o.state), Victim(st, k).value);
      } else {
        QuietWrite(Holds(st), call, Holds(o.state));
      }
    } else {
      assert o.evicted == [] && Victims(Holds(st), call, Holds(o.state)) == {};
    }
  }

  /** A write that displaces an entry with an empty value. */
  predicate Silent(st: State, call: Call) {
    && call.op.Set?
    && ByReplacement(st, call.op.key)
    && Victim(st, call.op.key).Some?
    && var v := Victim(st, call.op.key).value;
       v in Holds(st) && Holds(st)[v].value == []
  }

  /** And in any case it hears of every victim whose value was not empty. */
  lemma ReportsBarEmpty(st: State, call: Call)
    requires Consistent(st) && Bounded(st)
    ensures var o := Apply(st, call);
      ReportedBarEmpty(Holds(st), call, Holds(o.state), o.evicted)
  {
    hide Consistent, Bounded, Place, Forget, Write, ReadStep;
    var o := Apply(st, call);
    ReportsExactly(st, call);
    if Silent(st, call) {
      var k, item := call.op.key, Item(call.op.value, DeadlineFor(call.now, call.op.ttl));
      WriteEvicts(st, k, item);
      WriteAnswers(st, k, item);
      AppliesWrite(st, call);
      EvictingWrite(Holds(st), call, Holds(o.state), Victim(st, k).value);
    }
  }

  /** Silence is real: the fifth call of this run on a cache of two evicts `a` without a word. */
  lemma SilentRun(a: Key, b: Key, c: Key, now: int)
    requires a != b && b != c && a != c
    ensures var st := Run(Empty(2), [Call(Set(a, [], 0), now), Call(Set(b, [], 0), now), Call(Get(a), now), Call(Get(b), now)]);
      var call := Call(Set(c, [], 0), now);
      var o := Apply(st, call);
      && Consistent(st) && Bounded(st)
      && a in Holds(st) && a !in Holds(o.state) && o.evicted == []
      && !Reported(Holds(st), call, Holds(o.state), o.evicted)
  {
    hide Apply, Reported, Consistent, Bounded;
    var calls := [Call(Set(a, [], 0), now), Call(Set(b, [], 0), now), Call(Get(a), now), Call(Get(b), now)];
    var e, call := Empty(2), Call(Set(c, [], 0), now);
    Fill(a, b, now);
    Promote(a, b, now);
    RunNext(e, calls, 0);
    RunNext(e, calls, 1);
    RunNext(e, calls, 2);
    RunNext(e, calls, 3);
    assert calls[..4] == calls;
    StartsBounded(2);
    RunKeepsBounds(e, calls);
    var s4 := State(2, 0, [], [b, a], [], [], map[a := OFTEN, b := OFTEN]);
    assert Silent(s4, call) && Victim(s4, c) == Some(a);
    ReportsExactly(s4, call);
    WriteEvicts(s4, c, Item([], Never));
    WriteAnswers(s4, c, Item([], Never));
    AppliesWrite(s4, call);
  }

  // ---------- as a policy ----------

  /** The live lists have as many entries as are held. */
  lemma HoldsCount(st: State)
    requires Consistent(st)
    ensures |Holds(st)| == |st.t1| + |st.t2|
  {
    KeySetSize(st.t1);
    KeySetSize(st.t2);
    forall k ensures k in Holds(st) <==> k in KeySet(st.t1) + KeySet(st.t2) {
      assert k in st.t1 ==> k in st.items && st.items[k].list == T1;
      assert k in st.t2 ==> k in st.items && st.items[k].list == T2;
    }
    assert Holds(st).Keys == KeySet(st.t1) + KeySet(st.t2);
    assert KeySet(st.t1) !! KeySet(st.t2);
    assert |Holds(st)| == |Holds(st).Keys|;
  }

  predicate Reachable(capacity: nat, st: State) {
    Consistent(st) && Bounded(st) && st.capacity == capacity
  }

  ghost function AsPolicy(capacity: nat): Policy<State> {
    Policy(Empty(capacity), (st: State, call: Call) => Apply(st, call), (st: State) => Reachable(capacity, st),
           (st: State) => Holds(st), (st: State, k: Key) => k in st.items, (st: State) => TotalBytes(Holds(st)))
  }

  /**
   ARC is a sound policy, so each of its runs is a run of the contract, and in a run that never
   writes an empty value it reports every eviction.
   */
  lemma IsPolicy(capacity: nat)
    requires 0 < capacity
    ensures Sound(AsPolicy(capacity), capacity)
  {
    hide Apply, ContentsStep, ReportedBarEmpty, Consistent, TotalBytes;
    var p := AsPolicy(capacity);
    StartsBounded(capacity);
    assert Holds(Empty(capacity)) == map[];
    forall st | p.ok(st) ensures Sized(p, capacity, st) {
      HoldsCount(st);
    }
    forall st, call | p.ok(st) ensures Kept(p, st, call) {
      ApplyKeepsBounds(st, call);
      MeetsContents(st, call);
      ReportsBarEmpty(st, call);
    }
  }

  /** It is not an exact one. */
  lemma IsNotExact(a: Key, b: Key, c: Key)
    requires a != b && b != c && a != c
    ensures !Exact(AsPolicy(2))
  {
    hide Apply, Reported, Consistent, Bounded, Run;
    var calls := [Call(Set(a, [], 0), 0), Call(Set(b, [], 0), 0), Call(Get(a), 0), Call(Get(b), 0)];
    SilentRun(a, b, c, 0);
    StartsBounded(2);
    RunKeepsBounds(Empty(2), calls);
    var p, st, call := AsPolicy(2), Run(Empty(2), calls), Call(Set(c, [], 0), 0);
    assert p.ok(st) && p.step(st, call) == Apply(st, call);
  }

  /** The run of the policy is the run of its definition. */
  lemma {:induction false} RunIsAfter(capacity: nat, calls: seq<Call>)
    ensures After(AsPolicy(capacity), calls) == Run(Empty(capacity), calls)
  {
    hide Apply;
    if calls != [] {
      RunIsAfter(capacity, calls[..|calls| - 1]);
    }
  }

  lemma StartsBounded(capacity: nat)
    requires 0 < capacity
    ensures Consistent(Empty(capacity)) && Bounded(Empty(capacity))
  {
  }
}
