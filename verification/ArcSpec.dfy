/**
 The adaptive replacement policy as a state machine: two live lists, two ghost lists and the
 target size `p` of the first live list. Every operation is a composition of two moves,
 `Place` and `Forget`, so list membership is proved kept once for each of them.
 */
module ArcSpec {
  import opened Basics
  import opened CacheContract
  import opened KeyLists

  datatype Tag = T1 | T2 | B1 | B2

  /** A node. A ghost's value is empty, which is also how the source stores an empty live value. */
  datatype Entry = Entry(value: Bytes, list: Tag, expiresAt: Deadline) {
    predicate Live() {
      list == T1 || list == T2
    }
  }

  /** Lists are most recent first. */
  datatype State = State(
    capacity: nat, p: int,
    t1: seq<Key>, t2: seq<Key>, b1: seq<Key>, b2: seq<Key>,
    items: map<Key, Entry>)
  {
    function List(g: Tag): seq<Key> {
      match g case T1 => t1 case T2 => t2 case B1 => b1 case B2 => b2
    }

    function WithList(g: Tag, s: seq<Key>): State {
      match g
      case T1 => this.(t1 := s)
      case T2 => this.(t2 := s)
      case B1 => this.(b1 := s)
      case B2 => this.(b2 := s)
    }
  }

  function Empty(capacity: nat): State {
    State(capacity, 0, [], [], [], [], map[])
  }

  // ---------- the two moves ----------

  function Detach(st: State, k: Key): State {
    if k in st.items then
      var g := st.items[k].list;
      st.WithList(g, Without(st.List(g), k))
    else st
  }

  /** Put `k` at the front of the list its new entry names, taking it out of any other. */
  function Place(st: State, k: Key, e: Entry): State {
    AddFront(Forget(st, k), k, e)
  }

  function AddFront(st: State, k: Key, e: Entry): State {
    st.WithList(e.list, [k] + st.List(e.list)).(items := st.items[k := e])
  }

  function Forget(st: State, k: Key): State {
    Detach(st, k).(items := st.items - {k})
  }

  // ---------- the operations ----------

  /** Whether a replacement takes its victim from T1. */
  predicate FromT1(st: State, preferT2: bool) {
    |st.t1| > 0 && (|st.t1| > st.p || (preferT2 && |st.t1| == st.p))
  }

  /** The key a replacement turns into a ghost, if there is one. */
  function Displaced(st: State, preferT2: bool): Option<Key> {
    if FromT1(st, preferT2) then Some(st.t1[|st.t1| - 1])
    else if |st.t2| > 0 then Some(st.t2[|st.t2| - 1])
    else None
  }

  function Replace(st: State, preferT2: bool): State {
    match Displaced(st, preferT2)
    case None => st
    case Some(k) =>
      if k in st.items then
        Place(st, k, Entry([], if FromT1(st, preferT2) then B1 else B2, st.items[k].expiresAt))
      else st
  }

  /** What a replacement tells the callback: nothing when the displaced value is empty. */
  function ReplaceReport(st: State, preferT2: bool): seq<(Key, Bytes)> {
    match Displaced(st, preferT2)
    case None => []
    case Some(k) => if k in st.items && st.items[k].value != [] then [(k, st.items[k].value)] else []
  }

  function Min(a: int, b: int): int { if a < b then a else b }
  function Max(a: int, b: int): int { if a > b then a else b }

  /** The step of `p` on a ghost hit: the ratio of the other ghost list to this one, at least 1. */
  function Delta(this_: nat, other: nat): nat {
    if this_ > 0 && other > this_ then other / this_ else 1
  }

  /** The target after a write of `k`: it grows on a B1 ghost, shrinks on a B2 ghost. */
  function Adapt(st: State, k: Key): State {
    if k !in st.items then st
    else match st.items[k].list
      case B1 => st.(p := Min(st.p + Delta(|st.b1|, |st.b2|), st.capacity))
      case B2 => st.(p := Max(st.p - Delta(|st.b2|, |st.b1|), 0))
      case _ => st
  }

  function ForgetLast(st: State, s: seq<Key>): State {
    if s == [] then st else Forget(st, s[|s| - 1])
  }

  /** How room is made for a key that is in none of the lists. */
  datatype Room = Nothing | DropT1 | DropB1 | DropB2 | ReplaceOnly

  function RoomFor(st: State): Room {
    if |st.t1| + |st.b1| == st.capacity then
      if |st.t1| < st.capacity then DropB1 else DropT1
    else if |st.t1| + |st.t2| >= st.capacity then
      if |st.t1| + |st.t2| + |st.b1| + |st.b2| >= 2 * st.capacity then DropB2 else ReplaceOnly
    else Nothing
  }

  /** The ghost, if any, that is dropped before a replacement for a new key. */
  function Trim(st: State): State {
    match RoomFor(st)
    case DropB1 => ForgetLast(st, st.b1)
    case DropB2 => ForgetLast(st, st.b2)
    case _ => st
  }

  function MakeRoom(st: State): State {
    match RoomFor(st)
    case Nothing => st
    case DropT1 => ForgetLast(st, st.t1)
    case _ => Replace(Trim(st), false)
  }

  function RoomReport(st: State): seq<(Key, Bytes)> {
    match RoomFor(st)
    case Nothing => []
    case DropT1 =>
      if st.t1 != [] && st.t1[|st.t1| - 1] in st.items then
        [(st.t1[|st.t1| - 1], st.items[st.t1[|st.t1| - 1]].value)]
      else []
    case _ => ReplaceReport(Trim(st), false)
  }

  function Write(st: State, k: Key, item: Item): Outcome<State> {
    var live := Entry(item.value, T2, item.deadline);
    if k in st.items && st.items[k].Live() then
      Outcome(Place(st, k, live), None, [])
    else if k in st.items then
      var adapted := Adapt(st, k);
      var preferT2 := st.items[k].list == B2;
      Outcome(Place(Replace(adapted, preferT2), k, live), None, ReplaceReport(adapted, preferT2))
    else
      Outcome(Place(MakeRoom(st), k, live.(list := T1)), None, RoomReport(st))
  }

  function Read(st: State, k: Key, now: int, touch: bool): Outcome<State> {
    if k !in st.items || !st.items[k].Live() then Outcome(st, None, [])
    else if Expired(st.items[k].expiresAt, now) then Outcome(Forget(st, k), None, [])
    else if touch then Outcome(Place(st, k, st.items[k].(list := T2)), Some(st.items[k].value), [])
    else Outcome(st, Some(st.items[k].value), [])
  }

  function Apply(st: State, call: Call): Outcome<State> {
    match call.op
    case Get(k) => Read(st, k, call.now, true)
    case Peek(k) => Read(st, k, call.now, false)
    case Set(k, v, ttl) => Write(st, k, Item(v, DeadlineFor(call.now, ttl)))
    case Delete(k) => Outcome(if k in st.items then Forget(st, k) else st, None, [])
    case Purge => Outcome(Empty(st.capacity), None, [])
  }

  function Run(st: State, calls: seq<Call>): State {
    if calls == [] then st else Apply(Run(st, calls[..|calls| - 1]), calls[|calls| - 1]).state
  }

  // ---------- the lists and the map agree ----------

  /** `s` lists, without repeats, exactly the keys tagged `g`. */
  predicate Lists(s: seq<Key>, g: Tag, items: map<Key, Entry>) {
    && (forall i :: 0 <= i < |s| ==> s[i] in items && items[s[i]].list == g)
    && (forall i, j :: 0 <= i < j < |s| ==> s[i] != s[j])
    && (forall k :: k in items && items[k].list == g ==> k in s)
  }

  /** The map is the disjoint union of four correctly tagged lists, and ghosts hold no value. */
  predicate Consistent(st: State) {
    && Lists(st.t1, T1, st.items)
    && Lists(st.t2, T2, st.items)
    && Lists(st.b1, B1, st.items)
    && Lists(st.b2, B2, st.items)
    && (forall k :: k in st.items && !st.items[k].Live() ==> st.items[k].value == [])
  }

  lemma ListsWithout(s: seq<Key>, g: Tag, items: map<Key, Entry>, k: Key)
    requires Lists(s, g, items)
    ensures Lists(Without(s, k), g, items - {k})
    ensures |Without(s, k)| == |s| - (if k in items && items[k].list == g then 1 else 0)
    ensures k !in items || items[k].list != g ==> Without(s, k) == s
  {
    WithoutKeeps(s, k);
    var w := Without(s, k);
    forall i | 0 <= i < |w| ensures w[i] in s && w[i] != k {
      assert w[i] in w;
    }
    if k !in items || items[k].list != g {
      assert k !in s;
      WithoutAbsent(s, k);
    }
  }

  lemma ListsPush(s: seq<Key>, g: Tag, items: map<Key, Entry>, k: Key, e: Entry)
    requires Lists(s, g, items) && k !in items
    ensures e.list == g ==> Lists([k] + s, g, items[k := e])
    ensures e.list != g ==> Lists(s, g, items[k := e])
  {
    assert forall j :: j in [k] + s <==> j == k || j in s;
  }

  /** 1 when `k` is in the list tagged `g`, else 0. */
  function Count(st: State, k: Key, g: Tag): nat {
    if k in st.items && st.items[k].list == g then 1 else 0
  }

  /** Taking a key out of its own list is taking it out of all four. */
  lemma ForgetAll(st: State, k: Key)
    requires Consistent(st)
    ensures Forget(st, k) == st.(t1 := Without(st.t1, k), t2 := Without(st.t2, k),
                                 b1 := Without(st.b1, k), b2 := Without(st.b2, k), items := st.items - {k})
  {
    ListsWithout(st.t1, T1, st.items, k);
    ListsWithout(st.t2, T2, st.items, k);
    ListsWithout(st.b1, B1, st.items, k);
    ListsWithout(st.b2, B2, st.items, k);
  }

  lemma ForgetKeeps(st: State, k: Key)
    requires Consistent(st)
    ensures Consistent(Forget(st, k)) && k !in Forget(st, k).items
    ensures Forget(st, k).p == st.p && Forget(st, k).capacity == st.capacity
    ensures |Forget(st, k).t1| == |st.t1| - Count(st, k, T1)
    ensures |Forget(st, k).t2| == |st.t2| - Count(st, k, T2)
    ensures |Forget(st, k).b1| == |st.b1| - Count(st, k, B1)
    ensures |Forget(st, k).b2| == |st.b2| - Count(st, k, B2)
  {
    ForgetAll(st, k);
    ListsWithout(st.t1, T1, st.items, k);
    ListsWithout(st.t2, T2, st.items, k);
    ListsWithout(st.b1, B1, st.items, k);
    ListsWithout(st.b2, B2, st.items, k);
  }

  /** 1 when `e` goes to the list tagged `g`, else 0. */
  function Goes(e: Entry, g: Tag): nat {
    if e.list == g then 1 else 0
  }

  lemma AddFrontKeeps(st: State, k: Key, e: Entry)
    requires Consistent(st) && k !in st.items
    requires !e.Live() ==> e.value == []
    ensures Consistent(AddFront(st, k, e))
  {
    ListsPush(st.t1, T1, st.items, k, e);
    ListsPush(st.t2, T2, st.items, k, e);
    ListsPush(st.b1, B1, st.items, k, e);
    ListsPush(st.b2, B2, st.items, k, e);
  }

  lemma PlaceKeeps(st: State, k: Key, e: Entry)
    requires Consistent(st)
    requires !e.Live() ==> e.value == []
    ensures Consistent(Place(st, k, e))
    ensures Place(st, k, e).p == st.p && Place(st, k, e).capacity == st.capacity
    ensures |Place(st, k, e).t1| == |st.t1| - Count(st, k, T1) + Goes(e, T1)
    ensures |Place(st, k, e).t2| == |st.t2| - Count(st, k, T2) + Goes(e, T2)
    ensures |Place(st, k, e).b1| == |st.b1| - Count(st, k, B1) + Goes(e, B1)
    ensures |Place(st, k, e).b2| == |st.b2| - Count(st, k, B2) + Goes(e, B2)
  {
    ForgetKeeps(st, k);
    AddFrontKeeps(Forget(st, k), k, e);
  }
}
