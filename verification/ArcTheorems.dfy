/** What the adaptive replacement policy keeps over every run, and how it resists scans. */
module ArcTheorems {
  import opened Basics
  import opened CacheContract
  import opened KeyLists
  import opened ArcSpec

  // ---------- what one replacement does ----------

  /** Moving the last key of a list to the front of another one, spelled out. */
  lemma PlaceLast(st: State, g: Tag, e: Entry)
    requires Consistent(st) && st.List(g) != [] && e.list != g
    requires !e.Live() ==> e.value == []
    ensures var s := st.List(g);
      var k := s[|s| - 1];
      && k in st.items && st.items[k].list == g
      && Consistent(Place(st, k, e))
      && Place(st, k, e) ==
           st.WithList(g, s[..|s| - 1]).WithList(e.list, [k] + st.List(e.list)).(items := st.items[k := e])
  {
    hide Consistent;
    var s := st.List(g);
    var k := s[|s| - 1];
    Tagged(st, g, |s| - 1);
    PlaceKeeps(st, k, e);
    assert (st.items - {k})[k := e] == st.items[k := e];
  }

  /** What being in a list says about a key. */
  lemma Tagged(st: State, g: Tag, i: nat)
    requires Consistent(st) && i < |st.List(g)|
    ensures st.List(g)[i] in st.items && st.items[st.List(g)[i]].list == g
    ensures i == |st.List(g)| - 1 ==> Without(st.List(g), st.List(g)[i]) == st.List(g)[..i]
  {
    assert Lists(st.List(g), g, st.items);
    if i == |st.List(g)| - 1 {
      WithoutLast(st.List(g));
    }
  }

  /** A live entry becomes the front ghost of its own side, or nothing at all happens. */
  lemma ReplaceEffect(st: State, preferT2: bool)
    requires Consistent(st)
    ensures var r := Replace(st, preferT2);
      && Consistent(r) && r.p == st.p && r.capacity == st.capacity && r.items.Keys == st.items.Keys
      && (if FromT1(st, preferT2) then
            r.t1 == st.t1[..|st.t1| - 1] && r.t2 == st.t2 && |r.b1| == |st.b1| + 1 && r.b2 == st.b2
          else if |st.t2| > 0 then
            r.t2 == st.t2[..|st.t2| - 1] && r.t1 == st.t1 && |r.b2| == |st.b2| + 1 && r.b1 == st.b1
          else r == st)
      && (forall k :: k in st.items && Some(k) != Displaced(st, preferT2) ==> r.items[k] == st.items[k])
      && (forall k :: k in st.items && Some(k) == Displaced(st, preferT2) ==> !r.items[k].Live())
  {
    hide Consistent, Place;
    if FromT1(st, preferT2) {
      PlaceLast(st, T1, Entry([], B1, LastExpiry(st, T1)));
    } else if |st.t2| > 0 {
      PlaceLast(st, T2, Entry([], B2, LastExpiry(st, T2)));
    }
  }

  function LastExpiry(st: State, g: Tag): Deadline {
    var s := st.List(g);
    if s != [] && s[|s| - 1] in st.items then st.items[s[|s| - 1]].expiresAt else Never
  }

  lemma ForgetLastEffect(st: State, g: Tag)
    requires Consistent(st)
    ensures var r := ForgetLast(st, st.List(g));
      && Consistent(r) && r.p == st.p && r.capacity == st.capacity
      && (if st.List(g) == [] then r == st
          else r == st.WithList(g, st.List(g)[..|st.List(g)| - 1]).(items := st.items - {st.List(g)[|st.List(g)| - 1]}))
  {
    hide Consistent;
    var s := st.List(g);
    if s != [] {
      Tagged(st, g, |s| - 1);
      ForgetKeeps(st, s[|s| - 1]);
    }
  }

  // ---------- bounds ----------

  /** The documented bounds that the code keeps, with the one on ghosts that makes them inductive. */
  predicate Bounded(st: State) {
    && 0 < st.capacity
    && 0 <= st.p <= st.capacity
    && |st.t1| + |st.t2| <= st.capacity
    && |st.t1| + |st.b1| <= st.capacity
    && |st.b1| + |st.b2| <= st.capacity
  }

  lemma MakeRoomEffect(st: State)
    requires Consistent(st) && Bounded(st)
    ensures var r := MakeRoom(st);
      && Consistent(r) && Bounded(r) && r.p == st.p && r.capacity == st.capacity
      && |r.t1| + |r.t2| < r.capacity && |r.t1| + |r.b1| < r.capacity
      && r.items.Keys <= st.items.Keys
      && |st.t1| - 1 <= |r.t1| <= |st.t1|
  {
    hide Consistent, Replace, Forget;
    match RoomFor(st) {
      case Nothing =>
      case DropT1 => ForgetLastEffect(st, T1);
      case DropB1 => ForgetLastEffect(st, B1); ReplaceEffect(Trim(st), false);
      case DropB2 => ForgetLastEffect(st, B2); ReplaceEffect(Trim(st), false);
      case ReplaceOnly => ReplaceEffect(st, false);
    }
  }

  lemma AdaptEffect(st: State, k: Key)
    requires Consistent(st) && Bounded(st)
    ensures Adapt(st, k) == st.(p := Adapt(st, k).p)
    ensures Consistent(Adapt(st, k)) && Bounded(Adapt(st, k))
  {
  }

  /** A ghost hit: the target adapts, a live entry may be displaced, the ghost comes back to life. */
  lemma GhostWriteEffect(st: State, k: Key)
    requires Consistent(st) && Bounded(st) && k in st.items && !st.items[k].Live()
    ensures var a := Adapt(st, k);
      var r := Replace(a, st.items[k].list == B2);
      && Consistent(a) && Bounded(a) && a.items == st.items
      && Consistent(r) && r.p == a.p && r.capacity == st.capacity
      && r.items.Keys == st.items.Keys && r.items[k] == st.items[k]
      && |r.t1| + |r.t2| < r.capacity
      && |r.t1| + |r.b1| - Count(st, k, B1) <= r.capacity
      && |r.b1| + |r.b2| <= r.capacity + 1
  {
    AdaptEffect(st, k);
    hide Consistent, Replace, Forget, Adapt;
    var a := Adapt(st, k);
    ReplaceEffect(a, st.items[k].list == B2);
    ForgetKeeps(st, k);
    if |a.t1| > 0 {
      Tagged(a, T1, |a.t1| - 1);
    }
    if |a.t2| > 0 {
      Tagged(a, T2, |a.t2| - 1);
    }
  }

  lemma EmptyIsConsistent(capacity: nat)
    ensures Consistent(Empty(capacity))
  {
  }

  /** One call keeps the bounds and the four tagged lists. */
  lemma ApplyKeepsBounds(st: State, call: Call)
    requires Consistent(st) && Bounded(st)
    ensures Consistent(Apply(st, call).state) && Bounded(Apply(st, call).state)
    ensures Apply(st, call).state.capacity == st.capacity
  {
    hide Consistent, Read, Write, Forget;
    EmptyIsConsistent(st.capacity);
    match call.op {
      case Get(k) => ReadKeepsBounds(st, k, call.now, true);
      case Peek(k) => ReadKeepsBounds(st, k, call.now, false);
      case Set(k, v, ttl) => WriteKeepsBounds(st, k, Item(v, DeadlineFor(call.now, ttl)));
      case Delete(k) => ForgetKeeps(st, k);
      case Purge =>
    }
  }

  lemma ReadKeepsBounds(st: State, k: Key, now: int, touch: bool)
    requires Consistent(st) && Bounded(st)
    ensures Consistent(Read(st, k, now, touch).state) && Bounded(Read(st, k, now, touch).state)
    ensures Read(st, k, now, touch).state.capacity == st.capacity
  {
    hide Consistent, Forget, Place;
    ForgetKeeps(st, k);
    if k in st.items && st.items[k].Live() {
      PlaceKeeps(st, k, st.items[k].(list := T2));
    }
  }

  lemma WriteKeepsBounds(st: State, k: Key, item: Item)
    requires Consistent(st) && Bounded(st)
    ensures Consistent(Write(st, k, item).state) && Bounded(Write(st, k, item).state)
    ensures Write(st, k, item).state.capacity == st.capacity
  {
    hide Consistent, Replace, MakeRoom, Place;
    var live := Entry(item.value, T2, item.deadline);
    if k !in st.items {
      MakeRoomEffect(st);
      PlaceKeeps(MakeRoom(st), k, live.(list := T1));
    } else if st.items[k].Live() {
      PlaceKeeps(st, k, live);
    } else {
      GhostWriteEffect(st, k);
      PlaceKeeps(Replace(Adapt(st, k), st.items[k].list == B2), k, live);
    }
  }

  /** In every reachable state the bounds hold, so there are at most twice `capacity` nodes. */
  lemma {:induction false} RunKeepsBounds(st: State, calls: seq<Call>)
    requires Consistent(st) && Bounded(st)
    ensures Consistent(Run(st, calls)) && Bounded(Run(st, calls))
    ensures Run(st, calls).capacity == st.capacity
  {
    hide Consistent, Apply, Bounded;
    if calls != [] {
      RunKeepsBounds(st, calls[..|calls| - 1]);
      ApplyKeepsBounds(Run(st, calls[..|calls| - 1]), calls[|calls| - 1]);
    }
  }

  lemma ReachableBounds(capacity: nat, calls: seq<Call>)
    requires 0 < capacity
    ensures var st := Run(Empty(capacity), calls);
      && 0 <= st.p <= capacity
      && |st.t1| + |st.t2| <= capacity && |st.t1| + |st.b1| <= capacity && |st.b1| + |st.b2| <= capacity
      && |st.t1| + |st.t2| + |st.b1| + |st.b2| <= 2 * capacity
  {
    RunKeepsBounds(Empty(capacity), calls);
  }

  // ---------- the bound the documents claim and the code does not keep ----------

  predicate DocumentedBound(st: State) {
    |st.t2| + |st.b2| <= st.capacity
  }

  /** A call that makes a key of T1 or B1 a member of T2. */
  predicate Promotes(st: State, call: Call) {
    match call.op
    case Get(k) => k in st.items && st.items[k].list == T1 && !Expired(st.items[k].expiresAt, call.now)
    case Set(k, v, ttl) => k in st.items && (st.items[k].list == T1 || st.items[k].list == B1)
    case _ => false
  }

  /** Exactly the promotions from a full T2 side break `|T2| + |B2| <= capacity`. */
  lemma DocumentedBoundExactly(st: State, call: Call)
    requires Consistent(st) && Bounded(st) && DocumentedBound(st)
    ensures DocumentedBound(Apply(st, call).state)
       <==> !(|st.t2| + |st.b2| == st.capacity && Promotes(st, call))
  {
    hide Consistent, Write, Forget, Place;
    match call.op {
      case Get(k) =>
        ForgetKeeps(st, k);
        if k in st.items && st.items[k].Live() {
          PlaceKeeps(st, k, st.items[k].(list := T2));
        }
      case Peek(k) => ForgetKeeps(st, k);
      case Set(k, v, ttl) => WriteT2Side(st, k, Item(v, DeadlineFor(call.now, ttl)));
      case Delete(k) => ForgetKeeps(st, k);
      case Purge =>
    }
  }

  lemma WriteT2Side(st: State, k: Key, item: Item)
    requires Consistent(st) && Bounded(st)
    ensures Write(st, k, item).state.capacity == st.capacity
    ensures var r := Write(st, k, item).state;
      if k in st.items && (st.items[k].list == T1 || st.items[k].list == B1)
      then |r.t2| + |r.b2| == |st.t2| + |st.b2| + 1
      else |r.t2| + |r.b2| <= |st.t2| + |st.b2|
  {
    hide Consistent, Replace, Forget, Place;
    var live := Entry(item.value, T2, item.deadline);
    if k !in st.items {
      MakeRoomEffect(st);
      PlaceKeeps(MakeRoom(st), k, live.(list := T1));
      match RoomFor(st) {
        case Nothing =>
        case DropT1 => ForgetLastEffect(st, T1);
        case DropB1 => ForgetLastEffect(st, B1); ReplaceEffect(Trim(st), false);
        case DropB2 => ForgetLastEffect(st, B2); ReplaceEffect(Trim(st), false);
        case ReplaceOnly => ReplaceEffect(st, false);
      }
    } else if st.items[k].Live() {
      PlaceKeeps(st, k, live);
    } else {
      GhostWriteEffect(st, k);
      ReplaceEffect(Adapt(st, k), st.items[k].list == B2);
      PlaceKeeps(Replace(Adapt(st, k), st.items[k].list == B2), k, live);
    }
  }

  /** The documented bound is really left: six calls on a cache of two, for any three keys. */
  lemma DocumentedBoundFails(a: Key, b: Key, c: Key, now: int)
    requires a != b && b != c && a != c
    ensures !DocumentedBound(Run(Empty(2), [
      Call(Set(a, [], 0), now), Call(Set(b, [], 0), now), Call(Get(a), now), Call(Get(b), now),
      Call(Set(c, [], 0), now), Call(Get(c), now)]))
  {
    hide Apply;
    var calls := [Call(Set(a, [], 0), now), Call(Set(b, [], 0), now), Call(Get(a), now), Call(Get(b), now),
                  Call(Set(c, [], 0), now), Call(Get(c), now)];
    Fill(a, b, now);
    Promote(a, b, now);
    InsertAndPromote(a, b, c, now);
    var s1 := State(2, 0, [a], [], [], [], map[a := ONCE]);
    var s2 := State(2, 0, [b, a], [], [], [], map[a := ONCE, b := ONCE]);
    var s3 := State(2, 0, [b], [a], [], [], map[a := OFTEN, b := ONCE]);
    var s4 := State(2, 0, [], [b, a], [], [], map[a := OFTEN, b := OFTEN]);
    var s5 := State(2, 0, [c], [b], [], [a], map[a := GONE, b := OFTEN, c := ONCE]);
    var e := Empty(2);
    RunNext(e, calls, 0);
    RunNext(e, calls, 1);
    RunNext(e, calls, 2);
    RunNext(e, calls, 3);
    RunNext(e, calls, 4);
    RunNext(e, calls, 5);
    assert calls[..6] == calls;
  }

  const ONCE := Entry([], T1, Never)
  const OFTEN := Entry([], T2, Never)
  const GONE := Entry([], B2, Never)

  lemma Fill(a: Key, b: Key, now: int)
    requires a != b
    ensures var s1 := State(2, 0, [a], [], [], [], map[a := ONCE]);
      && Apply(Empty(2), Call(Set(a, [], 0), now)).state == s1
      && Apply(s1, Call(Set(b, [], 0), now)).state == State(2, 0, [b, a], [], [], [], map[a := ONCE, b := ONCE])
  {
    var s1 := State(2, 0, [a], [], [], [], map[a := ONCE]);
    NewFront(Empty(2), a, ONCE);
    NewFront(s1, b, ONCE);
    assert [b] + [a] == [b, a];
  }

  lemma Promote(a: Key, b: Key, now: int)
    requires a != b
    ensures var s2 := State(2, 0, [b, a], [], [], [], map[a := ONCE, b := ONCE]);
      var s3 := State(2, 0, [b], [a], [], [], map[a := OFTEN, b := ONCE]);
      && Apply(s2, Call(Get(a), now)).state == s3
      && Apply(s3, Call(Get(b), now)).state == State(2, 0, [], [b, a], [], [], map[a := OFTEN, b := OFTEN])
  {
    WithoutLast([b, a]);
    WithoutLast([b]);
    assert [b] + [a] == [b, a];
  }

  lemma InsertAndPromote(a: Key, b: Key, c: Key, now: int)
    requires a != b && b != c && a != c
    ensures var s4 := State(2, 0, [], [b, a], [], [], map[a := OFTEN, b := OFTEN]);
      var s5 := State(2, 0, [c], [b], [], [a], map[a := GONE, b := OFTEN, c := ONCE]);
      && Apply(s4, Call(Set(c, [], 0), now)).state == s5
      && |Apply(s5, Call(Get(c), now)).state.t2| == 2
      && |Apply(s5, Call(Get(c), now)).state.b2| == 1
      && Apply(s5, Call(Get(c), now)).state.capacity == 2
  {
    InsertThird(a, b, c, now);
    PromoteThird(a, b, c, now);
  }

  lemma InsertThird(a: Key, b: Key, c: Key, now: int)
    requires a != b && b != c && a != c
    ensures var s4 := State(2, 0, [], [b, a], [], [], map[a := OFTEN, b := OFTEN]);
      Apply(s4, Call(Set(c, [], 0), now)).state == State(2, 0, [c], [b], [], [a], map[a := GONE, b := OFTEN, c := ONCE])
  {
    hide Replace, Place;
    DisplaceFirst(a, b);
    NewFront(State(2, 0, [], [b], [], [a], map[a := GONE, b := OFTEN]), c, ONCE);
  }

  lemma DisplaceFirst(a: Key, b: Key)
    requires a != b
    ensures Replace(State(2, 0, [], [b, a], [], [], map[a := OFTEN, b := OFTEN]), false)
         == State(2, 0, [], [b], [], [a], map[a := GONE, b := OFTEN])
  {
    WithoutLast([b, a]);
  }

  lemma PromoteThird(a: Key, b: Key, c: Key, now: int)
    requires a != b && b != c && a != c
    ensures var s5 := State(2, 0, [c], [b], [], [a], map[a := GONE, b := OFTEN, c := ONCE]);
      var s6 := Apply(s5, Call(Get(c), now)).state;
      |s6.t2| == 2 && |s6.b2| == 1 && s6.capacity == 2
  {
    WithoutLast([c]);
  }

  lemma RunNext(st: State, calls: seq<Call>, n: nat)
    requires n < |calls|
    ensures Run(st, calls[..n + 1]) == Apply(Run(st, calls[..n]), calls[n]).state
    ensures n == 0 ==> Run(st, calls[..n]) == st
  {
    assert calls[..n + 1][..n] == calls[..n];
  }

  // ---------- scan resistance ----------

  /** A scan: writes of pairwise distinct keys that are in none of the four lists. */
  predicate IsScan(st: State, calls: seq<Call>) {
    && (forall i :: 0 <= i < |calls| ==> calls[i].op.Set? && calls[i].op.key !in st.items)
    && (forall i, j :: 0 <= i < j < |calls| && calls[i].op.Set? && calls[j].op.Set? ==> calls[i].op.key != calls[j].op.key)
  }

  /** How many entries of T2 a scan may still displace. */
  function Exposure(st: State): nat {
    if st.p + 1 - |st.t1| > 0 then st.p + 1 - |st.t1| else 0
  }

  /** `after` kept all but at most `lost` of the most recent entries of T2, untouched. */
  predicate Resists(before: State, after: State, lost: int) {
    && after.p == before.p
    && |after.t1| >= |before.t1|
    && |before.t2| - lost <= |after.t2| <= |before.t2|
    && after.t2 == before.t2[..|after.t2|]
    && (forall i :: 0 <= i < |after.t2| ==>
          after.t2[i] in before.items && after.t2[i] in after.items
          && after.items[after.t2[i]] == before.items[after.t2[i]])
  }

  lemma ScanStep(st: State, k: Key, item: Item)
    requires Consistent(st) && Bounded(st) && k !in st.items
    ensures var r := Write(st, k, item).state;
      && Consistent(r) && Bounded(r)
      && Resists(st, r, |st.t2| - |r.t2|)
      && |st.t2| - |r.t2| + Exposure(r) <= Exposure(st)
      && r.items.Keys <= st.items.Keys + {k}
  {
    hide Consistent, Replace, Forget, MakeRoom, Place;
    var room := MakeRoom(st);
    MakeRoomEffect(st);
    RoomT2(st);
    KeptT2(st);
    NewFront(room, k, Entry(item.value, T1, item.deadline));
    WriteKeepsBounds(st, k, item);
  }

  /** Making room keeps the front of T2, and takes its last key only while T1 is within its target. */
  lemma RoomT2(st: State)
    requires Consistent(st) && Bounded(st)
    ensures var r := MakeRoom(st);
      && |st.t2| - 1 <= |r.t2| <= |st.t2| && r.t2 == st.t2[..|r.t2|]
      && (|r.t2| < |st.t2| ==> |r.t1| == |st.t1| && (|st.t1| <= st.p || |st.t1| == 0))
      && (forall k :: k in r.items ==> k in st.items && (r.items[k] == st.items[k] || !r.items[k].Live()))
  {
    hide Consistent, Replace, Forget;
    match RoomFor(st) {
      case Nothing =>
      case DropT1 => ForgetLastEffect(st, T1);
      case DropB1 => ForgetLastEffect(st, B1); ReplaceEffect(Trim(st), false);
      case DropB2 => ForgetLastEffect(st, B2); ReplaceEffect(Trim(st), false);
      case ReplaceOnly => ReplaceEffect(st, false);
    }
  }

  lemma KeptT2(st: State)
    requires Consistent(st) && Bounded(st)
    ensures var r := MakeRoom(st);
      forall i :: 0 <= i < |r.t2| ==>
        r.t2[i] in st.items && r.t2[i] in r.items && r.items[r.t2[i]] == st.items[r.t2[i]]
  {
    hide Consistent, MakeRoom;
    var r := MakeRoom(st);
    MakeRoomEffect(st);
    RoomT2(st);
    forall i | 0 <= i < |r.t2|
      ensures r.t2[i] in st.items && r.t2[i] in r.items && r.items[r.t2[i]] == st.items[r.t2[i]]
    {
      Tagged(r, T2, i);
    }
  }

  lemma NewFront(st: State, k: Key, e: Entry)
    requires k !in st.items
    ensures Place(st, k, e) == st.WithList(e.list, [k] + st.List(e.list)).(items := st.items[k := e])
  {
    assert st.items - {k} == st.items;
  }

  /**
   Scan resistance: a scan of any length leaves `p` alone, never shrinks T1, and costs T2 at
   most its `max(0, p + 1 - |T1|)` least recent entries; the others keep order, value and deadline.
   */
  lemma {:induction false} ScanResistance(st: State, calls: seq<Call>)
    requires Consistent(st) && Bounded(st) && IsScan(st, calls)
    ensures Resists(st, Run(st, calls), Exposure(st))
  {
    hide Consistent, Bounded, Run, IsScan, Resists;
    ScanAt(st, calls, |calls|);
    assert calls[..|calls|] == calls;
    ResistsMore(st, Run(st, calls), |st.t2| - |Run(st, calls).t2|, Exposure(st));
  }

  /** What the first `n` writes of a scan cost, and how much the rest may still cost. */
  lemma {:induction false} ScanAt(st: State, calls: seq<Call>, n: nat)
    requires Consistent(st) && Bounded(st) && IsScan(st, calls) && n <= |calls|
    ensures var r := Run(st, calls[..n]);
      && Consistent(r) && Bounded(r)
      && Resists(st, r, |st.t2| - |r.t2|)
      && |st.t2| - |r.t2| + Exposure(r) <= Exposure(st)
      && (forall i :: n <= i < |calls| ==> calls[i].op.Set? && calls[i].op.key !in r.items)
  {
    hide Consistent, Bounded, Apply, Write, Resists;
    if n == 0 {
      assert calls[..0] == [];
      ResistsNothing(st);
    } else {
      ScanAt(st, calls, n - 1);
      var r, op := Run(st, calls[..n - 1]), calls[n - 1].op;
      var item := Item(op.value, DeadlineFor(calls[n - 1].now, op.ttl));
      RunNext(st, calls, n - 1);
      var next := Run(st, calls[..n]);
      AppliesWrite(r, calls[n - 1]);
      ScanStep(r, op.key, item);
      ResistsBoth(st, r, next);
    }
  }

  lemma AppliesWrite(st: State, call: Call)
    requires call.op.Set?
    ensures Apply(st, call) == Write(st, call.op.key, Item(call.op.value, DeadlineFor(call.now, call.op.ttl)))
  {
  }

  lemma ResistsNothing(st: State)
    requires Consistent(st)
    ensures Resists(st, st, 0)
  {
    assert st.t2 == st.t2[..|st.t2|];
    forall i | 0 <= i < |st.t2| ensures st.t2[i] in st.items {
      Tagged(st, T2, i);
    }
  }

  lemma ResistsBoth(a: State, b: State, c: State)
    requires Resists(a, b, |a.t2| - |b.t2|) && Resists(b, c, |b.t2| - |c.t2|)
    ensures Resists(a, c, |a.t2| - |c.t2|)
  {
    assert c.t2 == a.t2[..|c.t2|];
    forall i | 0 <= i < |c.t2| ensures c.t2[i] == b.t2[i] == a.t2[i] {
    }
  }

  lemma ResistsMore(a: State, b: State, lost: int, more: int)
    requires Resists(a, b, lost) && lost <= more
    ensures Resists(a, b, more)
  {
  }
}
