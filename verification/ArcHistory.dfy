/**
 What the adaptive replacement policy does, told without its helper functions: how far the target
 moves, which entry a write evicts and which ghost it forgets, and what the four lists say about the
 calls so far.
 */
module ArcHistory {
  import opened Basics
  import opened CacheContract
  import opened KeyLists
  import opened Policies
  import opened ArcSpec
  import opened ArcTheorems
  import opened ArcContract

  // ---------- the target ----------

  /** How far a ghost hit moves the target: how many times the hit list fits into the other one, at least once. */
  predicate IsStride(d: nat, hit: nat, other: nat) {
    1 <= d && if other > hit then d * hit <= other < (d + 1) * hit else d == 1
  }

  lemma StrideIs(hit: nat, other: nat)
    requires 0 < hit
    ensures IsStride(Delta(hit, other), hit, other)
  {
    if other > hit {
      var q, r := other / hit, other % hit;
      assert other == q * hit + r;
      assert (q + 1) * hit == q * hit + hit;
    }
  }

  lemma StrideExists(hit: nat, other: nat)
    requires 0 < hit
    ensures exists d: nat :: IsStride(d, hit, other)
  {
    StrideIs(hit, other);
  }

  lemma StrideUnique(d: nat, e: nat, hit: nat, other: nat)
    requires 0 < hit && IsStride(d, hit, other) && IsStride(e, hit, other)
    ensures d == e
  {
    if d < e {
      MulMono(d + 1, e, hit);
    } else if e < d {
      MulMono(e + 1, d, hit);
    }
  }

  lemma MulMono(x: nat, y: nat, w: nat)
    requires x <= y
    ensures x * w <= y * w
  {
  }

  /**
   A write of a B1 ghost raises the target by the stride, but not above the capacity; one of a B2
   ghost lowers it by the stride, but not below zero. Every other call but Purge leaves it alone.
   */
  lemma TargetMoves(st: State, call: Call, d: nat)
    requires Consistent(st) && Bounded(st)
    ensures var p, k := Apply(st, call).state.p, if call.op.Purge? then "" else call.op.key;
      if call.op.Purge? then p == 0
      else if call.op.Set? && k in st.items && st.items[k].list == B1 then
        IsStride(d, |st.b1|, |st.b2|) ==> if st.p + d >= st.capacity then p == st.capacity else p == st.p + d
      else if call.op.Set? && k in st.items && st.items[k].list == B2 then
        IsStride(d, |st.b2|, |st.b1|) ==> if st.p <= d then p == 0 else p == st.p - d
      else p == st.p
  {
    hide Consistent, Bounded, Replace, MakeRoom, Place, Forget, IsStride, Delta;
    if !call.op.Purge? {
      var k := call.op.key;
      ForgetKeeps(st, k);
      if call.op.Set? {
        var item := Item(call.op.value, DeadlineFor(call.now, call.op.ttl));
        AppliesWrite(st, call);
        TargetOfWrite(st, k, item);
        if k in st.items && !st.items[k].Live() {
          GhostListed(st, k);
          if st.items[k].list == B1 {
            StrideIs(|st.b1|, |st.b2|);
            if IsStride(d, |st.b1|, |st.b2|) {
              StrideUnique(d, Delta(|st.b1|, |st.b2|), |st.b1|, |st.b2|);
            }
          } else {
            StrideIs(|st.b2|, |st.b1|);
            if IsStride(d, |st.b2|, |st.b1|) {
              StrideUnique(d, Delta(|st.b2|, |st.b1|), |st.b2|, |st.b1|);
            }
          }
        }
      } else if k in st.items {
        PlaceTarget(st, k, st.items[k].(list := T2));
      }
    }
  }

  lemma GhostListed(st: State, k: Key)
    requires Consistent(st) && k in st.items
    ensures st.items[k].list == B1 ==> |st.b1| > 0
    ensures st.items[k].list == B2 ==> |st.b2| > 0
  {
  }

  lemma PlaceTarget(st: State, k: Key, e: Entry)
    ensures Place(st, k, e).p == st.p && Forget(st, k).p == st.p
  {
  }

  lemma TargetOfWrite(st: State, k: Key, item: Item)
    requires Consistent(st) && Bounded(st)
    ensures Write(st, k, item).state.p == Adapt(st, k).p
  {
    hide Consistent, Bounded, Replace, MakeRoom, Place, Adapt;
    AdaptEffect(st, k);
    if k !in st.items {
      MakeRoomEffect(st);
      PlaceTarget(MakeRoom(st), k, Entry(item.value, T1, item.deadline));
      AdaptUnknown(st, k);
    } else if st.items[k].Live() {
      PlaceTarget(st, k, Entry(item.value, T2, item.deadline));
      AdaptUnknown(st, k);
    } else {
      var r := Replace(Adapt(st, k), st.items[k].list == B2);
      ReplaceEffect(Adapt(st, k), st.items[k].list == B2);
      PlaceTarget(r, k, Entry(item.value, T2, item.deadline));
    }
  }

  lemma AdaptUnknown(st: State, k: Key)
    requires k in st.items ==> st.items[k].Live()
    ensures Adapt(st, k) == st
  {
  }

  // ---------- what a write evicts and forgets ----------

  /** Whether a replacement for a write of `k` takes its victim from T1, told by the target after the write. */
  predicate FromOnceUsed(st: State, k: Key, target: int) {
    |st.t1| > 0 && (if k in st.items && st.items[k].list == B2 then |st.t1| >= target else |st.t1| > target)
  }

  /** Whether a write of `k` needs a live slot: always for a ghost, for an unknown key when T1 and B1, or T1 and T2, are full. */
  predicate NeedsSlot(st: State, k: Key) {
    if k in st.items then !st.items[k].Live()
    else |st.t1| + |st.b1| == st.capacity || |st.t1| + |st.t2| >= st.capacity
  }

  /** What becomes of the entry a write of `k` evicts. */
  datatype Fate = Forgotten(key: Key) | Ghost(key: Key, list: Tag) | Nobody

  function FateOf(st: State, k: Key, target: int): Fate {
    if !NeedsSlot(st, k) then Nobody
    else if k !in st.items && st.t1 != [] && |st.t1| == st.capacity then Forgotten(st.t1[|st.t1| - 1])
    else if FromOnceUsed(st, k, target) then Ghost(st.t1[|st.t1| - 1], B1)
    else if st.t2 != [] then Ghost(st.t2[|st.t2| - 1], B2)
    else Nobody
  }

  /** The ghost a write of an unknown key forgets: the oldest of B1 when T1 and B1 are full, of B2 when all four lists are. */
  function Dropped(st: State, k: Key): Option<Key> {
    if k in st.items || |st.t1| == st.capacity then None
    else if |st.t1| + |st.b1| == st.capacity then Some(st.b1[|st.b1| - 1])
    else if |st.t1| + |st.t2| >= st.capacity && |st.t1| + |st.t2| + |st.b1| + |st.b2| >= 2 * st.capacity && st.b2 != [] then
      Some(st.b2[|st.b2| - 1])
    else None
  }

  /** The key a write evicts, if any. */
  function Evictee(f: Fate): Option<Key> {
    match f
    case Forgotten(v) => Some(v)
    case Ghost(v, _) => Some(v)
    case Nobody => None
  }

  function AsSet(o: Option<Key>): set<Key> {
    match o case None => {} case Some(k) => {k}
  }

  /** What is left of the directory once a write of `k` has forgotten what it must. */
  function Remembered(st: State, k: Key, f: Fate): set<Key> {
    st.items.Keys - AsSet(Dropped(st, k)) - (if f.Forgotten? then {f.key} else {})
  }

  lemma VictimIs(st: State, k: Key, target: int)
    requires Consistent(st) && Bounded(st) && target == Adapt(st, k).p
    ensures Victim(st, k) == Evictee(FateOf(st, k, target))
  {
    hide Consistent, Forget;
    AdaptEffect(st, k);
    if k !in st.items && RoomFor(st) == DropB1 {
      ForgetLastEffect(st, B1);
    } else if k !in st.items && RoomFor(st) == DropB2 {
      ForgetLastEffect(st, B2);
    }
  }

  lemma DisplacedGhost(st: State, preferT2: bool)
    requires Consistent(st)
    ensures var r := Replace(st, preferT2);
      && Consistent(r) && r.items.Keys == st.items.Keys
      && (Displaced(st, preferT2).Some? ==>
            var g := if FromT1(st, preferT2) then B1 else B2;
            r.List(g) != [] && r.List(g)[0] == Displaced(st, preferT2).value)
  {
    hide Consistent, Place;
    ReplaceEffect(st, preferT2);
    if FromT1(st, preferT2) {
      PlaceLast(st, T1, Entry([], B1, LastExpiry(st, T1)));
    } else if |st.t2| > 0 {
      PlaceLast(st, T2, Entry([], B2, LastExpiry(st, T2)));
    }
  }

  lemma PlaceGhosts(st: State, k: Key, e: Entry)
    requires Consistent(st) && e.list == T2
    ensures var r := Place(st, k, e);
      r.b1 == Without(st.b1, k) && r.b2 == Without(st.b2, k) && r.items.Keys == st.items.Keys + {k}
    ensures st.b1 != [] && st.b1[0] != k ==> Without(st.b1, k) != [] && Without(st.b1, k)[0] == st.b1[0]
    ensures st.b2 != [] && st.b2[0] != k ==> Without(st.b2, k) != [] && Without(st.b2, k)[0] == st.b2[0]
  {
    hide Consistent, Forget;
    ForgetAll(st, k);
  }

  lemma RoomFate(st: State, k: Key)
    requires Consistent(st) && Bounded(st) && k !in st.items
    ensures var r, f := MakeRoom(st), FateOf(st, k, st.p);
      && (f.Ghost? ==> r.List(f.list) != [] && r.List(f.list)[0] == f.key)
      && r.items.Keys == Remembered(st, k, f)
  {
    hide Consistent, Replace, Forget;
    match RoomFor(st) {
      case Nothing =>
      case DropT1 => ForgetLastEffect(st, T1);
      case DropB1 => ForgetLastEffect(st, B1); DisplacedGhost(Trim(st), false);
      case DropB2 => ForgetLastEffect(st, B2); DisplacedGhost(Trim(st), false);
      case ReplaceOnly => DisplacedGhost(st, false);
    }
  }

  /**
   A write evicts the entry that its fate names and no other. That entry is forgotten, or it is the
   front ghost of its side. Of the directory it forgets one ghost at most, and only then.
   */
  lemma WriteFate(st: State, call: Call)
    requires Consistent(st) && Bounded(st) && call.op.Set?
    ensures var k, r := call.op.key, Apply(st, call).state;
      var f := FateOf(st, k, r.p);
      && Holds(r).Keys == Holds(st).Keys - AsSet(Evictee(f)) + {k}
      && (f.Ghost? ==> r.List(f.list) != [] && r.List(f.list)[0] == f.key)
      && r.items.Keys == Remembered(st, k, f) + {k}
  {
    hide *;
    var k, item := call.op.key, Item(call.op.value, DeadlineFor(call.now, call.op.ttl));
    AppliesWrite(st, call);
    TargetOfWrite(st, k, item);
    EvictedKeys(st, k, item);
    FateGhosts(st, k, item);
  }

  lemma EvictedKeys(st: State, k: Key, item: Item)
    requires Consistent(st) && Bounded(st)
    ensures var f := FateOf(st, k, Adapt(st, k).p);
      && Evictee(f) != Some(k)
      && Holds(Write(st, k, item).state).Keys == Holds(st).Keys - AsSet(Evictee(f)) + {k}
  {
    hide Consistent, Bounded, Write, Adapt, FateOf, Victim;
    WriteEvicts(st, k, item);
    VictimIs(st, k, Adapt(st, k).p);
  }

  lemma FateGhosts(st: State, k: Key, item: Item)
    requires Consistent(st) && Bounded(st)
    ensures var r, f := Write(st, k, item).state, FateOf(st, k, Adapt(st, k).p);
      && (f.Ghost? ==> r.List(f.list) != [] && r.List(f.list)[0] == f.key)
      && r.items.Keys == Remembered(st, k, f) + {k}
  {
    hide Consistent, Bounded, Replace, MakeRoom, Place, Forget, Adapt;
    EvictedKeys(st, k, item);
    AdaptEffect(st, k);
    if k !in st.items {
      hide FateOf, Remembered;
      AdaptUnknown(st, k);
      RoomFate(st, k);
      MakeRoomEffect(st);
      NewFront(MakeRoom(st), k, Entry(item.value, T1, item.deadline));
    } else if st.items[k].Live() {
      PlaceGhosts(st, k, Entry(item.value, T2, item.deadline));
    } else {
      var a, preferT2 := Adapt(st, k), st.items[k].list == B2;
      DisplacedGhost(a, preferT2);
      DisplacedIs(st, k);
      PlaceGhosts(Replace(a, preferT2), k, Entry(item.value, T2, item.deadline));
    }
  }

  /** The replacement of a ghost hit displaces what the fate of the write says. */
  lemma DisplacedIs(st: State, k: Key)
    requires Consistent(st) && Bounded(st) && k in st.items && !st.items[k].Live()
    ensures var a, preferT2 := Adapt(st, k), st.items[k].list == B2;
      match Displaced(a, preferT2)
      case None => FateOf(st, k, a.p) == Nobody
      case Some(v) => FateOf(st, k, a.p) == Ghost(v, if FromT1(a, preferT2) then B1 else B2)
  {
    hide Consistent, Bounded;
    AdaptEffect(st, k);
  }

  /** No other call but Purge forgets a key, except the one it deletes or finds expired. */
  lemma OthersForget(st: State, call: Call)
    requires Consistent(st) && !call.op.Set? && !call.op.Purge?
    ensures var k, r := call.op.key, Apply(st, call).state;
      r.items.Keys == st.items.Keys -
        (if call.op.Delete? || (k in Holds(st) && Expired(Holds(st)[k].deadline, call.now)) then {k} else {})
  {
    hide Consistent, Place;
    var k := call.op.key;
    if k in st.items {
      PlaceGhosts(st, k, st.items[k].(list := T2));
    }
  }

  // ---------- the four lists, told from the calls ----------

  /** Of two keys, the one in front has the larger rank. */
  predicate Falling(s: seq<Key>, rank: Key -> nat) {
    forall i, j :: 0 <= i < j < |s| ==> rank(s[i]) > rank(s[j])
  }

  /** T1 and T2 are ordered by one rank, the ghosts of B1 and B2 by another. */
  predicate Ordered(st: State, use: Key -> nat, left: Key -> nat) {
    Falling(st.t1, use) && Falling(st.t2, use) && Falling(st.b1, left) && Falling(st.b2, left)
  }

  lemma {:induction false} FallingWithout(s: seq<Key>, k: Key, rank: Key -> nat)
    requires Falling(s, rank)
    ensures Falling(Without(s, k), rank)
    ensures forall j :: j in Without(s, k) ==> j in s && j != k
  {
    if s != [] {
      FallingWithout(s[1..], k, rank);
      var w, rest := Without(s, k), Without(s[1..], k);
      if s[0] != k {
        forall i, j | 0 <= i < j < |w| ensures rank(w[i]) > rank(w[j]) {
          assert w[j] in rest && w[j] in s[1..];
        }
      }
    }
  }

  lemma FallingPush(k: Key, s: seq<Key>, rank: Key -> nat, rank': Key -> nat)
    requires Falling(s, rank)
    requires forall j :: j in s ==> rank'(j) == rank(j) && rank'(j) < rank'(k)
    ensures Falling([k] + s, rank')
  {
    var t := [k] + s;
    forall i, j | 0 <= i < j < |t| ensures rank'(t[i]) > rank'(t[j]) {
      assert t[j] == s[j - 1] && s[j - 1] in s;
      if i > 0 {
        assert t[i] == s[i - 1] && s[i - 1] in s;
      }
    }
  }

  lemma OrderedForget(st: State, k: Key, use: Key -> nat, left: Key -> nat)
    requires Consistent(st) && Ordered(st, use, left)
    ensures Ordered(Forget(st, k), use, left)
  {
    hide Consistent, Forget, Falling, Without;
    ForgetAll(st, k);
    FallingWithout(st.t1, k, use);
    FallingWithout(st.t2, k, use);
    FallingWithout(st.b1, k, left);
    FallingWithout(st.b2, k, left);
  }

  /** A key that is in none of the lists comes to the front of one, with the top rank there. */
  lemma OrderedFront(st: State, k: Key, e: Entry, use: Key -> nat, left: Key -> nat, use': Key -> nat, left': Key -> nat)
    requires Ordered(st, use, left)
    requires k !in st.t1 && k !in st.t2 && k !in st.b1 && k !in st.b2
    requires forall j :: j != k ==> use'(j) == use(j) && left'(j) == left(j)
    requires forall j :: j != k ==> if e.Live() then use(j) < use'(k) else left(j) < left'(k)
    ensures Ordered(AddFront(st, k, e), use', left')
  {
    hide Falling;
    if e.Live() {
      FallingPush(k, st.List(e.list), use, use');
    } else {
      FallingPush(k, st.List(e.list), left, left');
    }
    FallingAgain(st.t1, use, use');
    FallingAgain(st.t2, use, use');
    FallingAgain(st.b1, left, left');
    FallingAgain(st.b2, left, left');
  }

  lemma FallingAgain(s: seq<Key>, rank: Key -> nat, rank': Key -> nat)
    requires Falling(s, rank) && forall j :: j in s ==> rank'(j) == rank(j)
    ensures Falling(s, rank')
  {
    assert forall i :: 0 <= i < |s| ==> s[i] in s;
  }

  lemma OrderedPlace(st: State, k: Key, e: Entry, use: Key -> nat, left: Key -> nat, use': Key -> nat, left': Key -> nat)
    requires Consistent(st) && Ordered(st, use, left)
    requires forall j :: j != k ==> use'(j) == use(j) && left'(j) == left(j)
    requires forall j :: j != k ==> if e.Live() then use(j) < use'(k) else left(j) < left'(k)
    ensures Ordered(Place(st, k, e), use', left')
  {
    hide Consistent, Forget, AddFront, Ordered;
    OrderedForget(st, k, use, left);
    ForgottenIsGone(st, k);
    OrderedFront(Forget(st, k), k, e, use, left, use', left');
  }

  lemma ForgottenIsGone(st: State, k: Key)
    requires Consistent(st)
    ensures var r := Forget(st, k);
      k !in r.t1 && k !in r.t2 && k !in r.b1 && k !in r.b2
  {
    hide Forget;
    ForgetAll(st, k);
    WithoutKeeps(st.t1, k);
    WithoutKeeps(st.t2, k);
    WithoutKeeps(st.b1, k);
    WithoutKeeps(st.b2, k);
  }

  /** The ranks of `top`: those of `rank`, with `k` above all others. */
  ghost predicate Raised(rank: Key -> nat, rank': Key -> nat, k: Option<Key>, top: nat) {
    && (forall j :: rank(j) < top)
    && (forall j :: rank'(j) == if k == Some(j) then top else rank(j))
  }

  lemma OrderedReplace(st: State, preferT2: bool, use: Key -> nat, left: Key -> nat, left': Key -> nat, top: nat)
    requires Consistent(st) && Ordered(st, use, left) && Raised(left, left', Displaced(st, preferT2), top)
    ensures Ordered(Replace(st, preferT2), use, left')
  {
    hide Consistent, Place, Ordered;
    if FromT1(st, preferT2) {
      Tagged(st, T1, |st.t1| - 1);
      OrderedPlace(st, st.t1[|st.t1| - 1], Entry([], B1, LastExpiry(st, T1)), use, left, use, left');
    } else if |st.t2| > 0 {
      Tagged(st, T2, |st.t2| - 1);
      OrderedPlace(st, st.t2[|st.t2| - 1], Entry([], B2, LastExpiry(st, T2)), use, left, use, left');
    } else {
      OrderedSame(st, use, left, left');
    }
  }

  lemma OrderedSame(st: State, use: Key -> nat, left: Key -> nat, left': Key -> nat)
    requires Ordered(st, use, left) && forall j :: j in st.b1 || j in st.b2 ==> left'(j) == left(j)
    ensures Ordered(st, use, left')
  {
    FallingAgain(st.b1, left, left');
    FallingAgain(st.b2, left, left');
  }

  lemma OrderedRoom(st: State, use: Key -> nat, left: Key -> nat, left': Key -> nat, k: Key, top: nat)
    requires Consistent(st) && Bounded(st) && k !in st.items
    requires Ordered(st, use, left) && Raised(left, left', Victim(st, k), top)
    ensures Ordered(MakeRoom(st), use, left')
  {
    hide Consistent, Bounded, Replace, Forget, Ordered;
    match RoomFor(st) {
      case Nothing => OrderedSame(st, use, left, left');
      case DropT1 =>
        if st.t1 != [] {
          var v := st.t1[|st.t1| - 1];
          OrderedForget(st, v, use, left);
          ForgottenIsGone(st, v);
          OrderedSame(Forget(st, v), use, left, left');
        } else {
          OrderedSame(st, use, left, left');
        }
      case _ =>
        OrderedTrim(st, use, left);
        OrderedReplace(Trim(st), false, use, left, left', top);
    }
  }

  lemma OrderedTrim(st: State, use: Key -> nat, left: Key -> nat)
    requires Consistent(st) && Ordered(st, use, left)
    ensures Consistent(Trim(st)) && Ordered(Trim(st), use, left)
  {
    hide Consistent, Forget, Ordered;
    if RoomFor(st) == DropB1 && st.b1 != [] {
      OrderedForget(st, st.b1[|st.b1| - 1], use, left);
      ForgetKeeps(st, st.b1[|st.b1| - 1]);
    } else if RoomFor(st) == DropB2 && st.b2 != [] {
      OrderedForget(st, st.b2[|st.b2| - 1], use, left);
      ForgetKeeps(st, st.b2[|st.b2| - 1]);
    }
  }

  lemma OrderedWrite(st: State, k: Key, item: Item, use: Key -> nat, left: Key -> nat, use': Key -> nat, left': Key -> nat, top: nat)
    requires Consistent(st) && Bounded(st) && Ordered(st, use, left)
    requires Raised(use, use', Some(k), top) && Raised(left, left', Victim(st, k), top)
    ensures Ordered(Write(st, k, item).state, use', left')
  {
    hide Consistent, Bounded, Replace, MakeRoom, Place, Adapt, Ordered;
    if k !in st.items {
      OrderedRoom(st, use, left, left', k, top);
      MakeRoomEffect(st);
      OrderedPlace(MakeRoom(st), k, Entry(item.value, T1, item.deadline), use, left', use', left');
    } else if st.items[k].Live() {
      OrderedPlace(st, k, Entry(item.value, T2, item.deadline), use, left, use', left');
    } else {
      var a, preferT2 := Adapt(st, k), st.items[k].list == B2;
      AdaptEffect(st, k);
      OrderedTarget(st, a.p, use, left);
      OrderedReplace(a, preferT2, use, left, left', top);
      ReplaceEffect(a, preferT2);
      OrderedPlace(Replace(a, preferT2), k, Entry(item.value, T2, item.deadline), use, left', use', left');
    }
  }

  lemma OrderedTarget(st: State, p: int, use: Key -> nat, left: Key -> nat)
    requires Ordered(st, use, left)
    ensures Ordered(st.(p := p), use, left)
  {
  }

  lemma OrderedRead(st: State, k: Key, now: int, touch: bool, use: Key -> nat, left: Key -> nat, use': Key -> nat, top: nat)
    requires Consistent(st) && Ordered(st, use, left)
    requires Raised(use, use', if touch && Read(st, k, now, touch).answer.Some? then Some(k) else None, top)
    ensures Ordered(Read(st, k, now, touch).state, use', left)
  {
    hide Consistent, Place, Forget, Ordered;
    if k in st.items && st.items[k].Live() {
      if Expired(st.items[k].expiresAt, now) {
        OrderedForget(st, k, use, left);
        OrderedUse(Forget(st, k), use, left, use');
      } else if touch {
        OrderedPlace(st, k, st.items[k].(list := T2), use, left, use', left);
      } else {
        OrderedUse(st, use, left, use');
      }
    } else {
      OrderedUse(st, use, left, use');
    }
  }

  lemma OrderedUse(st: State, use: Key -> nat, left: Key -> nat, use': Key -> nat)
    requires Ordered(st, use, left) && forall j :: use'(j) == use(j)
    ensures Ordered(st, use', left)
  {
    FallingAgain(st.t1, use, use');
    FallingAgain(st.t2, use, use');
  }

  /** The key that a call uses, if any. */
  function Used(call: Call, answer: Option<Bytes>): Option<Key> {
    if call.op.Set? || (call.op.Get? && answer.Some?) then Some(call.op.key) else None
  }

  lemma OrderedStep(st: State, call: Call, use: Key -> nat, left: Key -> nat, use': Key -> nat, left': Key -> nat, top: nat)
    requires Consistent(st) && Bounded(st) && Ordered(st, use, left)
    requires forall j :: left(j) < top
    requires Raised(use, use', Used(call, Apply(st, call).answer), top)
    requires forall j :: left'(j) == if j in Holds(st) && j !in Holds(Apply(st, call).state) then top else left(j)
    ensures Ordered(Apply(st, call).state, use', left')
  {
    hide Consistent, Bounded, Forget, Place, Ordered, Holds, Write, Read;
    var r := Apply(st, call).state;
    match call.op {
      case Set(k, v, ttl) =>
        var item := Item(v, DeadlineFor(call.now, ttl));
        AppliesWrite(st, call);
        WriteEvicts(st, k, item);
        OrderedWrite(st, k, item, use, left, use', left', top);
      case Get(k) =>
        OrderedRead(st, k, call.now, true, use, left, use', top);
        LeavesForGood(st, call);
        OrderedSame(r, use', left, left');
      case Peek(k) =>
        OrderedRead(st, k, call.now, false, use, left, use', top);
        LeavesForGood(st, call);
        OrderedSame(r, use', left, left');
      case Delete(k) =>
        OrderedForget(st, k, use, left);
        LeavesForGood(st, call);
        OrderedUse(r, use, left, use');
        OrderedSame(r, use', left, left');
      case Purge => OrderedEmpty(st.capacity, use', left');
    }
  }

  /** What a call other than a write takes out, it takes out of the directory. */
  lemma LeavesForGood(st: State, call: Call)
    requires Consistent(st) && Bounded(st) && !call.op.Set?
    ensures var r := Apply(st, call).state;
      forall j :: j in r.b1 || j in r.b2 ==> j in Holds(r) || j !in Holds(st)
  {
    hide Bounded, Place, Forget, Lists;
    ApplyKeepsBounds(st, call);
    LiveStays(st, call);
    GhostsAreDead(Apply(st, call).state);
  }

  lemma LiveStays(st: State, call: Call)
    requires !call.op.Set?
    ensures var r := Apply(st, call).state;
      forall j :: j in r.items && j in Holds(st) ==> j in Holds(r)
  {
    hide Detach;
  }

  lemma GhostsAreDead(st: State)
    requires Consistent(st)
    ensures forall j :: j in st.b1 || j in st.b2 ==> j in st.items && j !in Holds(st)
  {
  }

  lemma OrderedEmpty(capacity: nat, use: Key -> nat, left: Key -> nat)
    ensures Ordered(Empty(capacity), use, left)
  {
  }

  /** Whether an entry is in T1 or B1. */
  predicate OnceUsed(e: Entry) {
    e.list == T1 || e.list == B1
  }

  /** Exactly the keys of the T1 side have count zero. */
  predicate Sided(st: State, count: Key -> nat) {
    forall k :: k in st.items ==> (OnceUsed(st.items[k]) <==> count(k) == 0)
  }

  /** One call leaves every other key on its side, brings a new key in on the T1 side, and takes a used one to the T2 side. */
  lemma SidesStep(st: State, call: Call, j: Key)
    requires Consistent(st) && Bounded(st)
    ensures var o := Apply(st, call);
      j in o.state.items ==>
        if j in st.items && Used(call, o.answer) != Some(j) then OnceUsed(o.state.items[j]) == OnceUsed(st.items[j])
        else Used(call, o.answer) == Some(j) && (OnceUsed(o.state.items[j]) <==> j !in st.items)
  {
    hide Consistent, Bounded, Forget, Place, Write, Read;
    match call.op {
      case Set(k, v, ttl) =>
        AppliesWrite(st, call);
        SidesWrite(st, k, Item(v, DeadlineFor(call.now, ttl)), j);
      case Get(k) => SidesRead(st, k, call.now, true, j);
      case Peek(k) => SidesRead(st, k, call.now, false, j);
      case Delete(k) => ItemsMoved(st, k, Entry([], T1, Never));
      case Purge =>
    }
  }

  lemma ItemsMoved(st: State, k: Key, e: Entry)
    ensures Place(st, k, e).items == (st.items - {k})[k := e] && Forget(st, k).items == st.items - {k}
  {
  }

  lemma SidesRead(st: State, k: Key, now: int, touch: bool, j: Key)
    ensures var o := Read(st, k, now, touch);
      j in o.state.items ==>
        && j in st.items
        && OnceUsed(o.state.items[j]) == (OnceUsed(st.items[j]) && !(touch && o.answer.Some? && j == k))
  {
    hide Forget, Place;
    if k in st.items {
      ItemsMoved(st, k, st.items[k].(list := T2));
    }
  }

  lemma SidesReplace(st: State, preferT2: bool, j: Key)
    requires Consistent(st) && j in Replace(st, preferT2).items
    ensures j in st.items && OnceUsed(Replace(st, preferT2).items[j]) == OnceUsed(st.items[j])
  {
    hide Consistent, Place;
    if FromT1(st, preferT2) {
      Tagged(st, T1, |st.t1| - 1);
      ItemsMoved(st, st.t1[|st.t1| - 1], Entry([], B1, LastExpiry(st, T1)));
    } else if |st.t2| > 0 {
      Tagged(st, T2, |st.t2| - 1);
      ItemsMoved(st, st.t2[|st.t2| - 1], Entry([], B2, LastExpiry(st, T2)));
    }
  }

  lemma SidesWrite(st: State, k: Key, item: Item, j: Key)
    requires Consistent(st) && Bounded(st)
    ensures var r := Write(st, k, item).state;
      j in r.items ==>
        if j == k then OnceUsed(r.items[j]) <==> k !in st.items
        else j in st.items && OnceUsed(r.items[j]) == OnceUsed(st.items[j])
  {
    hide Consistent, Bounded, Replace, Place, Forget, Adapt;
    var live := Entry(item.value, T2, item.deadline);
    AdaptEffect(st, k);
    if k !in st.items {
      ItemsMoved(MakeRoom(st), k, live.(list := T1));
      HoldsTrim(st);
      if RoomFor(st) == DropT1 && st.t1 != [] {
        ItemsMoved(st, st.t1[|st.t1| - 1], live);
      } else if RoomFor(st) != Nothing && RoomFor(st) != DropT1 && j in Replace(Trim(st), false).items {
        SidesReplace(Trim(st), false, j);
      }
    } else if st.items[k].Live() {
      ItemsMoved(st, k, live);
    } else {
      var a, preferT2 := Adapt(st, k), st.items[k].list == B2;
      ItemsMoved(Replace(a, preferT2), k, live);
      if j in Replace(a, preferT2).items {
        SidesReplace(a, preferT2, j);
      }
    }
  }

  /** The ranks that the calls give: the last use, the last time the key left what is held, and how often it was used. */
  ghost function UseRank(capacity: nat, calls: seq<Call>): Key -> nat {
    k => LastUse(AsPolicy(capacity), calls, k)
  }

  ghost function LeftRank(capacity: nat, calls: seq<Call>): Key -> nat {
    k => LeftAt(AsPolicy(capacity), calls, k)
  }

  ghost function Uses(capacity: nat, calls: seq<Call>): Key -> nat {
    k => Touches(AsPolicy(capacity), calls, k)
  }

  /**
   In every run the four lists are what the calls say. A key is on the T1 side if it was not used
   again since it came into the directory, else on the T2 side. Live keys are in the order of their
   last use, ghosts in the order in which they left, latest first.
   */
  lemma {:induction false} RunIsOrdered(capacity: nat, calls: seq<Call>)
    requires 0 < capacity
    ensures Ordered(Run(Empty(capacity), calls), UseRank(capacity, calls), LeftRank(capacity, calls))
    ensures Sided(Run(Empty(capacity), calls), Uses(capacity, calls))
  {
    hide Apply, Consistent, Bounded, Ordered, Holds;
    StartsBounded(capacity);
    if calls == [] {
      OrderedEmpty(capacity, UseRank(capacity, calls), LeftRank(capacity, calls));
    } else {
      var before, last := calls[..|calls| - 1], calls[|calls| - 1];
      var st := Run(Empty(capacity), before);
      RunIsOrdered(capacity, before);
      RunKeepsBounds(Empty(capacity), before);
      RunIsAfter(capacity, before);
      RunIsAfter(capacity, calls);
      OrderedStep(st, last, UseRank(capacity, before), LeftRank(capacity, before),
                  UseRank(capacity, calls), LeftRank(capacity, calls), |calls|);
      forall k | k in Run(Empty(capacity), calls).items
        ensures OnceUsed(Run(Empty(capacity), calls).items[k]) <==> Uses(capacity, calls)(k) == 0
      {
        SidesStep(st, last, k);
      }
    }
  }

  /** The last key of a list has the lowest rank of its list. */
  lemma LastIsLowest(s: seq<Key>, k: Key, rank: Key -> nat)
    requires Falling(s, rank) && k in s && k != s[|s| - 1]
    ensures rank(s[|s| - 1]) < rank(k)
  {
    var i :| 0 <= i < |s| && s[i] == k;
    assert rank(s[i]) > rank(s[|s| - 1]);
  }

  /** Where a listed key is found. */
  lemma Listed(st: State, k: Key)
    requires Consistent(st) && k in st.items
    ensures k in st.List(st.items[k].list)
  {
  }

  /**
   What a write evicts, told from the calls: on the side that its fate names, the entry whose last
   use is longest ago.
   */
  lemma EvictsLongestUnusedOfSide(capacity: nat, calls: seq<Call>, call: Call, v: Key, k: Key)
    requires 0 < capacity && call.op.Set?
    requires var st := Run(Empty(capacity), calls);
      v in Holds(st) && v !in Holds(Apply(st, call).state) && k in Holds(st) && k != v
    ensures var st := Run(Empty(capacity), calls);
      var f, uses := FateOf(st, call.op.key, Apply(st, call).state.p), Uses(capacity, calls);
      && (uses(v) == 0 <==> f.Forgotten? || (f.Ghost? && f.list == B1))
      && ((uses(v) == 0 <==> uses(k) == 0) ==>
            LastUse(AsPolicy(capacity), calls, v) < LastUse(AsPolicy(capacity), calls, k))
  {
    hide Apply, Consistent, Bounded, Falling, FateOf, Run, Holds;
    var st := Run(Empty(capacity), calls);
    StartsBounded(capacity);
    RunKeepsBounds(Empty(capacity), calls);
    RunIsOrdered(capacity, calls);
    WriteFate(st, call);
    FateLast(st, call.op.key, Apply(st, call).state.p);
    HeldIsLive(st, v);
    HeldIsLive(st, k);
    if st.items[k].list == st.items[v].list {
      LastIsLowest(st.List(st.items[v].list), k, UseRank(capacity, calls));
    }
  }

  /** The entry a write evicts is the last one of T1 or of T2. */
  lemma FateLast(st: State, k: Key, target: int)
    requires Consistent(st)
    ensures var f := FateOf(st, k, target);
      Evictee(f).Some? ==>
        var v, g := f.key, if f.Forgotten? || f.list == B1 then T1 else T2;
        && v in st.items && st.items[v].list == g && st.List(g) != [] && v == st.List(g)[|st.List(g)| - 1]
        && (f.Ghost? && f.list != B1 ==> f.list == B2)
  {
    hide Consistent;
    if st.t1 != [] {
      Tagged(st, T1, |st.t1| - 1);
    }
    if st.t2 != [] {
      Tagged(st, T2, |st.t2| - 1);
    }
  }

  lemma HeldIsLive(st: State, k: Key)
    requires Consistent(st) && k in Holds(st)
    ensures k in st.items && st.items[k].Live() && k in st.List(st.items[k].list)
  {
    Listed(st, k);
  }

  /** And of the ghosts of one side it forgets the one that left what is held longest ago. */
  lemma ForgetsOldestGhost(capacity: nat, calls: seq<Call>, k: Key, g: Key, other: Key)
    requires 0 < capacity
    requires var st := Run(Empty(capacity), calls);
      Dropped(st, k) == Some(g) && other in st.items && other !in Holds(st) && other != g
    ensures var uses, st := Uses(capacity, calls), Run(Empty(capacity), calls);
      && g in st.items && g !in Holds(st)
      && ((uses(g) == 0 <==> uses(other) == 0) ==>
            LeftAt(AsPolicy(capacity), calls, g) < LeftAt(AsPolicy(capacity), calls, other))
  {
    hide Apply, Consistent, Bounded, Falling;
    var st := Run(Empty(capacity), calls);
    StartsBounded(capacity);
    RunKeepsBounds(Empty(capacity), calls);
    RunIsOrdered(capacity, calls);
    GhostDropped(st, k);
    Listed(st, other);
    if st.items[other].list == st.items[g].list {
      LastIsLowest(st.List(st.items[g].list), other, LeftRank(capacity, calls));
    }
  }

  lemma GhostDropped(st: State, k: Key)
    requires Consistent(st) && Bounded(st) && Dropped(st, k).Some?
    ensures var g := Dropped(st, k).value;
      && g in st.items && !st.items[g].Live()
      && var s := st.List(st.items[g].list);
         s != [] && g == s[|s| - 1]
  {
    hide Consistent;
    if |st.t1| + |st.b1| == st.capacity {
      Tagged(st, B1, |st.b1| - 1);
    } else {
      Tagged(st, B2, |st.b2| - 1);
    }
  }
}
