/**
 Runs of the write-back cache. With deadlines, evictions and failures of every kind, each run is a
 trace of events for each key, and reads are right exactly as long as no event breaks the key's
 cell. Without deadlines and losses every answer is that of a plain map.
 */
module WriteBackRuns {
  import opened Basics
  import opened CacheContract
  import opened Codec
  import opened WriteBackCell
  import opened WriteBack

  // ---------- traces of one key ----------

  function RunCell(c: Cell, es: seq<Event>, json: OtherJson): Cell {
    if es == [] then c else Next(RunCell(c, es[..|es| - 1], json), es[|es| - 1], json)
  }

  /** The time of the last event, or the starting time. */
  function Clock(start: int, es: seq<Event>): int {
    if es == [] then start else es[|es| - 1].at
  }

  predicate IsTrace(c: Cell, start: int, es: seq<Event>, json: OtherJson) {
    forall i :: 0 <= i < |es| ==> Possible(RunCell(c, es[..i], json), Clock(start, es[..i]), es[i], json)
  }

  /** A write, or a delete that reaches the store, puts any cell in sync, whatever happened before. */
  predicate Repairs(e: Event) {
    e.Wrote? || (e.Erase? && e.storeUp)
  }

  lemma Repaired(c: Cell, e: Event, json: OtherJson)
    requires Repairs(e) && (e.Wrote? ==> Storable(e.item.value, e.item.deadline, json))
    ensures InSync(Next(c, e, json), e.at, json)
  {
    hide Storable, Encode;
  }

  /** Nothing has broken the cell since it started in sync, or since its last repair. */
  predicate Unbroken(c: Cell, start: int, es: seq<Event>, from: nat, json: OtherJson) {
    && from <= |es|
    && (if from == 0 then InSync(c, start, json) else Repairs(es[from - 1]))
    && forall i :: from <= i < |es| ==> !Breaks(RunCell(c, es[..i], json), es[i], json)
  }

  /** Then it is in sync, after any number of evictions, flushes, failures and reads. */
  lemma {:induction false} TraceInSync(c: Cell, start: int, es: seq<Event>, from: nat, n: nat, json: OtherJson)
    requires IsTrace(c, start, es, json) && Unbroken(c, start, es, from, json) && from <= n <= |es|
    ensures InSync(RunCell(c, es[..n], json), Clock(start, es[..n]), json)
  {
    hide InSync, Next, Breaks, Storable;
    if n == 0 {
      assert es[..0] == [];
    } else {
      assert es[..n][..n - 1] == es[..n - 1];
      var before := RunCell(c, es[..n - 1], json);
      assert Possible(before, Clock(start, es[..n - 1]), es[n - 1], json);
      if n == from {
        Repaired(before, es[n - 1], json);
      } else {
        TraceInSync(c, start, es, from, n - 1, json);
        StepInSync(before, Clock(start, es[..n - 1]), es[n - 1], json);
      }
    }
  }

  /**
   So a read anywhere in an unbroken trace answers as the last acknowledged write says, unless an
   unflushed value has expired over an older one; and it is broken by exactly the events of `Breaks`.
   */
  lemma TraceReads(c: Cell, start: int, es: seq<Event>, from: nat, n: nat, t: int, json: OtherJson)
    requires IsTrace(c, start, es, json) && Unbroken(c, start, es, from, json) && from <= n <= |es|
    requires Clock(start, es[..n]) <= t
    ensures var cell := RunCell(c, es[..n], json);
      && (Right(cell, t, json) <==> !Exposed(cell, t, json))
      && (Answer(cell, t, false, json).Some? ==> Allowed(cell.last, t, Answer(cell, t, false, json)))
  {
    hide InSync, RunCell, IsTrace, Unbroken, Right, Exposed, Allowed, Answer;
    TraceInSync(c, start, es, from, n, json);
    InSyncReads(RunCell(c, es[..n], json), Clock(start, es[..n]), t, json);
  }

  // ---------- runs of the cache are such traces ----------

  /** A call or a flush round, with the failures it meets. */
  datatype Action =
    | Put(key: Key, value: Bytes, ttl: int, evictUp: bool)
    | Read(key: Key, storeUp: bool, deleteUp: bool, evictUp: bool)
    | Remove(key: Key, storeUp: bool)
    | FlushRound(down: set<Key>)
    | PurgeAll(down: set<Key>)

  /** What an action may do to key `k`. */
  predicate Does(a: Action, k: Key, now: int, e: Event, exact: bool) {
    match a
    case Put(j, v, ttl, up) =>
      if j == k then e == Wrote(now, Item(v, DeadlineFor(now, ttl))) else Pushes(now, up, e, exact)
    case Read(j, storeUp, deleteUp, up) =>
      if j == k then e == WasRead(now, storeUp, deleteUp) else Pushes(now, up, e, exact)
    case Remove(j, storeUp) => e == if j == k then Erase(now, storeUp) else Stay(now)
    case FlushRound(down) => e == Flush(now, k !in down)
    case PurgeAll(down) => e == Clear(now, k !in down)
  }

  predicate Pushes(now: int, storeUp: bool, e: Event, exact: bool) {
    e == Stay(now) || e == Evict(now, storeUp) || (!exact && e == Vanish(now))
  }

  /** The event can happen to the cell, and only an empty value vanishes. */
  predicate Fits(c: Cell, e: Event) {
    && (e.Evict? || e.Vanish? ==> c.cached.Some?)
    && (e.Vanish? ==> c.cached.value.value == [])
  }

  lemma PushedOut(before: Cell, after: Cell, now: int, storeUp: bool, exact: bool, json: OtherJson) returns (e: Event)
    requires Bystander(before, after, now, storeUp, exact, json)
    ensures Pushes(now, storeUp, e, exact) && Fits(before, e) && after == Next(before, e, json)
  {
    e := if after == before then Stay(now)
         else if before.cached.Some? && after == Next(before, Evict(now, storeUp), json) then Evict(now, storeUp)
         else Vanish(now);
  }

  /** One action is one event for every key, and a read of `k` answers from its cell. */
  method Act(w: WriteBackCache, a: Action, now: int, ghost k: Key) returns (answer: Option<Bytes>, ghost e: Event)
    requires w.Valid()
    modifies w, w.inner
    ensures w.Valid() && Does(a, k, now, e, w.inner.exact)
    ensures Fits(old(w.At(k)), e) && w.At(k) == Next(old(w.At(k)), e, w.json)
    ensures a.Read? && a.key == k ==> answer == Answer(old(w.At(k)), now, a.storeUp, w.json)
  {
    hide Next, Bystander, Answer;
    answer, e := None, Stay(now);
    match a
    case Put(j, v, ttl, up) =>
      w.Set(j, v, ttl, now, up);
      if j == k {
        e := Wrote(now, Item(v, DeadlineFor(now, ttl)));
      } else {
        e := PushedOut(old(w.At(k)), w.At(k), now, up, w.inner.exact, w.json);
      }
    case Read(j, storeUp, deleteUp, up) =>
      answer := w.Get(j, now, storeUp, deleteUp, up);
      if j == k {
        e := WasRead(now, storeUp, deleteUp);
      } else {
        e := PushedOut(old(w.At(k)), w.At(k), now, up, w.inner.exact, w.json);
      }
    case Remove(j, storeUp) =>
      var _ := w.Delete(j, now, storeUp);
      if j == k {
        e := Erase(now, storeUp);
      } else {
        StayIs(w.At(k), now, w.json);
        assert w.At(k) == old(w.At(k));
      }
    case FlushRound(down) =>
      w.FlushAll(now, down);
      e := Flush(now, k !in down);
      assert w.At(k) == FlushOf(old(w.At(k)), k, now, down, w.json);
    case PurgeAll(down) =>
      w.Purge(now, down);
      e := Clear(now, k !in down);
      assert w.At(k) == ClearOf(old(w.At(k)), k, now, down, w.json);
  }

  lemma StayIs(c: Cell, now: int, json: OtherJson)
    ensures Next(c, Stay(now), json) == c
  {
  }

  /** What a run does to key `k`: event `i` is what action `i` did to it. */
  predicate Traces(c: Cell, actions: seq<Action>, times: seq<int>, k: Key, es: seq<Event>, exact: bool, json: OtherJson) {
    && |es| == |actions| == |times|
    && forall i :: 0 <= i < |es| ==>
         Does(actions[i], k, times[i], es[i], exact) && Fits(RunCell(c, es[..i], json), es[i])
  }

  /**
   Any run, with failures and evictions at will, is for each key a trace of its events; every read of
   the key answers from its cell at that point of the trace.
   */
  method Follow(w: WriteBackCache, actions: seq<Action>, times: seq<int>, ghost k: Key)
    returns (answers: seq<Option<Bytes>>, ghost es: seq<Event>)
    requires w.Valid() && |times| == |actions|
    modifies w, w.inner
    ensures w.Valid() && |answers| == |actions|
    ensures Traces(old(w.At(k)), actions, times, k, es, w.inner.exact, w.json)
    ensures w.At(k) == RunCell(old(w.At(k)), es, w.json)
    ensures forall i :: 0 <= i < |actions| && actions[i].Read? && actions[i].key == k ==>
      answers[i] == Answer(RunCell(old(w.At(k)), es[..i], w.json), times[i], actions[i].storeUp, w.json)
  {
    hide Next, Answer, Does, Fits;
    answers, es := [], [];
    ghost var c := w.At(k);
    for n := 0 to |actions|
      invariant w.Valid() && |answers| == n
      invariant Traces(c, actions[..n], times[..n], k, es, w.inner.exact, w.json)
      invariant w.At(k) == RunCell(c, es, w.json)
      invariant forall i :: 0 <= i < n && actions[i].Read? && actions[i].key == k ==>
        answers[i] == Answer(RunCell(c, es[..i], w.json), times[i], actions[i].storeUp, w.json)
    {
      ghost var cell, before := w.At(k), es;
      var answer;
      ghost var e;
      answer, e := Act(w, actions[n], times[n], k);
      answers, es := answers + [answer], es + [e];
      assert es[..n] == before && forall i :: 0 <= i < n ==> es[..i] == before[..i];
    }
    assert actions[..|actions|] == actions && times[..|times|] == times;
  }

  /** With a clock that does not go back and storable values, that trace is one the theorems above speak of. */
  lemma RunIsTrace(c: Cell, start: int, actions: seq<Action>, times: seq<int>, k: Key, es: seq<Event>, exact: bool, json: OtherJson)
    requires Traces(c, actions, times, k, es, exact, json)
    requires forall i :: 0 <= i < |times| ==> start <= times[i]
    requires forall i, j :: 0 <= i < j < |times| ==> times[i] <= times[j]
    requires forall i :: 0 <= i < |actions| && actions[i].Put? ==>
      Storable(actions[i].value, DeadlineFor(times[i], actions[i].ttl), json)
    ensures IsTrace(c, start, es, json)
  {
    hide RunCell, Storable, Next, Does, Fits;
    forall i | 0 <= i < |es| ensures Possible(RunCell(c, es[..i], json), Clock(start, es[..i]), es[i], json) {
      DoesWhen(actions[i], k, times[i], es[i], exact);
      FitsWhen(RunCell(c, es[..i], json), es[i]);
      if i > 0 {
        DoesWhen(actions[i - 1], k, times[i - 1], es[i - 1], exact);
        assert Clock(start, es[..i]) == times[i - 1];
      } else {
        assert Clock(start, es[..i]) == start;
      }
    }
  }

  lemma DoesWhen(a: Action, k: Key, now: int, e: Event, exact: bool)
    requires Does(a, k, now, e, exact)
    ensures e.at == now
    ensures e.Wrote? ==> a.Put? && e.item == Item(a.value, DeadlineFor(now, a.ttl))
  {
  }

  lemma FitsWhen(c: Cell, e: Event)
    requires Fits(c, e)
    ensures e.Evict? || e.Vanish? ==> c.cached.Some?
  {
  }

  // ---------- witnesses ----------

  /** An older value is written and flushed, a newer one with a deadline written over it. */
  method Overlay(w: WriteBackCache, k: Key, older: Bytes, newer: Bytes, ttl: int, now: int)
    requires w.Valid() && 0 < ttl
    modifies w, w.inner
    ensures w.Valid()
    ensures var item := Item(newer, At(now + ttl));
      w.At(k) == Cell(Some(item), Some(Encode(older, Never)), Some(item.deadline), Some(item))
  {
    hide Encode, EvictCell;
    w.Set(k, older, 0, now, true);
    var item := Item(older, Never);
    ghost var stored := w.At(k).stored;
    assert w.At(k) == Cell(Some(item), stored, Some(Never), Some(item));
    w.FlushAll(now, {});
    assert w.At(k) == FlushOf(Cell(Some(item), stored, Some(Never), Some(item)), k, now, {}, w.json);
    w.Set(k, newer, ttl, now, true);
  }

  /** A run in which an unflushed value expires and the older stored one is read in its place. */
  method ExpiryUncoversOlder(w: WriteBackCache, k: Key, older: Bytes, newer: Bytes, ttl: int, now: int, later: int)
    returns (answer: Option<Bytes>)
    requires w.Valid() && Storable(older, Never, w.json) && 0 < ttl && now + ttl < later
    modifies w, w.inner
    ensures answer == Some(older)
    ensures k in w.spec && w.spec[k] == Item(newer, At(now + ttl)) && Expired(w.spec[k].deadline, later)
  {
    hide Encode, Decode, Storable, EvictCell;
    RoundTripExactly(older, Never, w.json);
    Overlay(w, k, older, newer, ttl, now);
    answer := w.Get(k, later, true, true, true);
  }

  /**
   A run in which the flush that should remove the older value fails. The mark is gone, so no later
   flush tries again, and reads answer the older value from then on.
   */
  method FailedFlushKeepsOlder(w: WriteBackCache, k: Key, older: Bytes, newer: Bytes, ttl: int, now: int, later: int)
    returns (answer: Option<Bytes>)
    requires w.Valid() && Storable(older, Never, w.json) && 0 < ttl && now + ttl < later
    modifies w, w.inner
    ensures answer == Some(older) && k !in w.dirty
    ensures k in w.spec && w.spec[k] == Item(newer, At(now + ttl)) && Expired(w.spec[k].deadline, later)
  {
    hide Encode, Decode, Storable, EvictCell;
    RoundTripExactly(older, Never, w.json);
    Overlay(w, k, older, newer, ttl, now);
    ghost var c := w.At(k);
    w.FlushAll(later, {k});
    assert w.At(k) == FlushOf(c, k, later, {k}, w.json) == c.(cached := None, mark := None);
    w.FlushAll(later, {});
    assert w.At(k) == c.(cached := None, mark := None);
    answer := w.Get(k, later, true, true, true);
  }

  /**
   Over a cache that is silent about empty values: a dirty one that vanishes is not brought back by
   the next flush, which only unmarks it. Reads are then wrong exactly when the store alone disagrees
   with the last write.
   */
  lemma VanishedIsLost(c: Cell, clock: int, now: int, flushed: int, storeUp: bool, t: int, json: OtherJson)
    requires InSync(c, clock, json) && c.cached.Some? && c.mark.Some? && clock <= now <= flushed <= t
    ensures var r := RunCell(c, [Vanish(now), Flush(flushed, storeUp)], json);
      && r.mark == None
      && (Right(r, t, json) <==> (storeUp && !Ahead(c.last.value.deadline, flushed)) || !Lost(c, t, json))
  {
    hide Encode, Decode, Storable;
    var es := [Vanish(now), Flush(flushed, storeUp)];
    assert es[..1] == [Vanish(now)] && es[..1][..0] == [];
    assert RunCell(c, es[..1], json) == Next(c, Vanish(now), json);
  }

  /** For one: an empty value, acknowledged and never written before, is simply gone. */
  lemma SilentLoss(now: int, json: OtherJson)
    ensures var r := RunCell(FRESH, [Wrote(now, Item([], Never)), Vanish(now), Flush(now, true)], json);
      && r.last == Some(Item([], Never)) && r.stored == None && r.mark == None
      && Answer(r, now, true, json) == None && !Right(r, now, json)
  {
    hide Encode, Decode;
    var es := [Wrote(now, Item([], Never)), Vanish(now), Flush(now, true)];
    assert es[..2] == [Wrote(now, Item([], Never)), Vanish(now)];
    assert es[..2][..1] == [Wrote(now, Item([], Never))] && es[..2][..1][..0] == [];
    assert RunCell(FRESH, es[..2][..1], json) == Next(FRESH, es[0], json);
    assert RunCell(FRESH, es[..2], json) == Next(Next(FRESH, es[0], json), es[1], json);
  }

  // ---------- a plain map ----------

  type Plain = map<Key, Bytes>

  /** No deadline, and no failure but of background flushes. */
  predicate Lasting(a: Action) {
    match a
    case Put(_, _, ttl, up) => ttl <= 0 && up
    case Read(_, storeUp, deleteUp, up) => storeUp && deleteUp && up
    case Remove(_, storeUp) => storeUp
    case FlushRound(_) => true
    case PurgeAll(down) => down == {}
  }

  function PlainNext(m: Plain, a: Action): Plain {
    match a
    case Put(k, v, _, _) => m[k := v]
    case Remove(k, _) => m - {k}
    case _ => m
  }

  function PlainAnswer(m: Plain, a: Action): Option<Bytes> {
    if a.Read? then Lookup(m, a.key) else None
  }

  function PlainRun(m: Plain, actions: seq<Action>): Plain {
    if actions == [] then m else PlainNext(PlainRun(m, actions[..|actions| - 1]), actions[|actions| - 1])
  }

  function PlainAnswers(m: Plain, actions: seq<Action>): seq<Option<Bytes>> {
    if actions == [] then []
    else
      var before := actions[..|actions| - 1];
      PlainAnswers(m, before) + [PlainAnswer(PlainRun(m, before), actions[|actions| - 1])]
  }

  /** The acknowledged writes as a plain map. */
  function Values(spec: Contents): Plain {
    map k | k in spec :: spec[k].value
  }

  predicate Forever(spec: Contents) {
    forall k :: k in spec ==> spec[k].deadline == Never
  }

  predicate NoneEmpty(spec: Contents) {
    forall k :: k in spec ==> spec[k].value != []
  }

  /** All keys in sync, none with a deadline, and none that could vanish. */
  ghost predicate Settled(w: WriteBackCache)
    reads w, w.inner
  {
    && w.Valid() && w.AllInSync(0) && Forever(w.spec)
    && (w.inner.exact || NoneEmpty(w.spec))
  }

  /** An event that loses nothing that lasts: not an eviction or delete without the store, not a dirty key vanishing. */
  predicate Harmless(c: Cell, e: Event) {
    match e
    case Evict(_, storeUp) => storeUp
    case Vanish(_) => c.mark.None?
    case Erase(_, storeUp) => storeUp
    case Clear(_, storeUp) => storeUp
    case _ => true
  }

  /** A key without a deadline stays in sync through any such event, and is read as last written. */
  lemma LastingStep(c: Cell, e: Event, json: OtherJson)
    requires InSync(c, 0, json) && (c.last.Some? ==> c.last.value.deadline == Never)
    requires Harmless(c, e) && Fits(c, e)
    requires e.Wrote? ==> e.item.deadline == Never && Storable(e.item.value, Never, json)
    ensures InSync(Next(c, e, json), 0, json)
    ensures forall now :: Answer(c, now, true, json) == if c.last.Some? then Some(c.last.value.value) else None
  {
    hide Encode, Decode, Storable;
    OlderIsLast(c, json);
  }

  predicate Steady(c: Cell, exact: bool, json: OtherJson) {
    && InSync(c, 0, json)
    && (c.last.Some? ==> c.last.value.deadline == Never && (exact || c.last.value.value != []))
  }

  lemma NewIsSettled(w: WriteBackCache)
    requires w.Valid() && w.spec == map[] && forall k :: w.At(k) == FRESH
    ensures Settled(w)
  {
    forall k ensures InSync(w.At(k), 0, w.json) {
      assert w.At(k) == FRESH;
    }
  }

  lemma SettledCell(w: WriteBackCache, k: Key)
    requires Settled(w)
    ensures Steady(w.At(k), w.inner.exact, w.json)
  {
    hide InSync;
    assert InSync(w.At(k), 0, w.json);
  }

  /** Being pushed out by another key's write loses nothing. */
  lemma PushedStays(before: Cell, after: Cell, now: int, exact: bool, json: OtherJson)
    requires Steady(before, exact, json) && Bystander(before, after, now, true, exact, json)
    ensures InSync(after, 0, json)
  {
    hide Encode, Decode, Storable;
    if before.cached.Some? {
      LastingStep(before, Evict(now, true), json);
    }
  }

  method DoPut(w: WriteBackCache, j: Key, v: Bytes, ttl: int, now: int)
    requires Settled(w) && ttl <= 0 && Storable(v, Never, w.json) && (w.inner.exact || v != [])
    modifies w, w.inner
    ensures Settled(w) && w.spec == old(w.spec)[j := Item(v, Never)]
  {
    hide InSync, Storable, Next, Bystander, Steady;
    forall k ensures Steady(w.At(k), w.inner.exact, w.json) {
      SettledCell(w, k);
    }
    w.Set(j, v, ttl, now, true);
    forall k ensures InSync(w.At(k), 0, w.json) {
      assert Steady(old(w.At(k)), w.inner.exact, w.json);
      if k == j {
        WrittenInSync(old(w.At(j)), now, v, w.json);
      } else {
        PushedStays(old(w.At(k)), w.At(k), now, w.inner.exact, w.json);
      }
    }
  }

  lemma WrittenInSync(c: Cell, now: int, v: Bytes, json: OtherJson)
    requires Storable(v, Never, json)
    ensures InSync(Next(c, Wrote(now, Item(v, Never)), json), 0, json)
  {
    hide Storable, Encode;
  }

  method DoRead(w: WriteBackCache, j: Key, now: int) returns (answer: Option<Bytes>)
    requires Settled(w)
    modifies w, w.inner
    ensures Settled(w) && w.spec == old(w.spec) && answer == Lookup(Values(w.spec), j)
  {
    hide InSync, Next, Bystander, Steady, Answer;
    forall k ensures Steady(w.At(k), w.inner.exact, w.json) {
      SettledCell(w, k);
    }
    SteadyStep(w.At(j), WasRead(now, true, true), w.inner.exact, w.json);
    answer := w.Get(j, now, true, true, true);
    forall k ensures InSync(w.At(k), 0, w.json) {
      assert Steady(old(w.At(k)), w.inner.exact, w.json);
      if k != j {
        PushedStays(old(w.At(k)), w.At(k), now, w.inner.exact, w.json);
      }
    }
  }

  lemma SteadyStep(c: Cell, e: Event, exact: bool, json: OtherJson)
    requires Steady(c, exact, json) && Harmless(c, e) && !e.Wrote? && Fits(c, e)
    ensures InSync(Next(c, e, json), 0, json)
    ensures forall now :: Answer(c, now, true, json) == if c.last.Some? then Some(c.last.value.value) else None
  {
    hide Next, Answer;
    LastingStep(c, e, json);
  }

  method DoRemove(w: WriteBackCache, j: Key, now: int)
    requires Settled(w)
    modifies w, w.inner
    ensures Settled(w) && w.spec == old(w.spec) - {j}
  {
    hide InSync, Next, Steady;
    forall k ensures Steady(w.At(k), w.inner.exact, w.json) {
      SettledCell(w, k);
    }
    SteadyStep(w.At(j), Erase(now, true), w.inner.exact, w.json);
    var _ := w.Delete(j, now, true);
    forall k ensures InSync(w.At(k), 0, w.json) {
      assert InSync(old(w.At(k)), 0, w.json);
      assert k != j ==> w.At(k) == old(w.At(k));
    }
  }

  method DoFlush(w: WriteBackCache, now: int, down: set<Key>)
    requires Settled(w)
    modifies w, w.inner
    ensures Settled(w) && w.spec == old(w.spec)
  {
    hide InSync, Next, Steady;
    forall k ensures Steady(w.At(k), w.inner.exact, w.json) {
      SettledCell(w, k);
    }
    w.FlushAll(now, down);
    forall k ensures InSync(w.At(k), 0, w.json) {
      assert w.At(k) == FlushOf(old(w.At(k)), k, now, down, w.json);
      SteadyStep(old(w.At(k)), Flush(now, k !in down), w.inner.exact, w.json);
    }
  }

  method DoPurge(w: WriteBackCache, now: int)
    requires Settled(w)
    modifies w, w.inner
    ensures Settled(w) && w.spec == old(w.spec)
  {
    hide InSync, Next, Steady;
    forall k ensures Steady(w.At(k), w.inner.exact, w.json) {
      SettledCell(w, k);
    }
    w.Purge(now, {});
    forall k ensures InSync(w.At(k), 0, w.json) {
      assert w.At(k) == ClearOf(old(w.At(k)), k, now, {}, w.json);
      SteadyStep(old(w.At(k)), Clear(now, true), w.inner.exact, w.json);
    }
  }

  /** One action changes the acknowledged writes, and answers, as it does on a plain map. */
  method Do(w: WriteBackCache, a: Action, now: int) returns (answer: Option<Bytes>)
    requires Settled(w) && Lasting(a)
    requires a.Put? ==> Storable(a.value, Never, w.json) && (w.inner.exact || a.value != [])
    modifies w, w.inner
    ensures Settled(w) && Values(w.spec) == PlainNext(Values(old(w.spec)), a)
    ensures answer == PlainAnswer(Values(old(w.spec)), a)
  {
    hide Settled, Storable;
    answer := None;
    match a
    case Put(j, v, ttl, _) => DoPut(w, j, v, ttl, now);
    case Read(j, _, _, _) => answer := DoRead(w, j, now);
    case Remove(j, _) => DoRemove(w, j, now);
    case FlushRound(down) => DoFlush(w, now, down);
    case PurgeAll(_) => DoPurge(w, now);
  }

  /**
   No acknowledged write is ever lost: through any run of lasting writes, reads and deletes and of
   flushes that may fail, whatever the inner cache evicts, every answer is the one a plain map gives.
   Over a cache that is not exact this takes values that are not empty.
   */
  method Replay(w: WriteBackCache, actions: seq<Action>, times: seq<int>) returns (answers: seq<Option<Bytes>>)
    requires Settled(w) && |times| == |actions|
    requires forall i :: 0 <= i < |actions| ==> Lasting(actions[i])
    requires forall i :: 0 <= i < |actions| && actions[i].Put? ==>
      Storable(actions[i].value, Never, w.json) && (w.inner.exact || actions[i].value != [])
    modifies w, w.inner
    ensures Settled(w) && Values(w.spec) == PlainRun(Values(old(w.spec)), actions)
    ensures answers == PlainAnswers(Values(old(w.spec)), actions)
  {
    hide Settled, Storable, Lasting;
    answers := [];
    ghost var start := Values(w.spec);
    for n := 0 to |actions|
      invariant Settled(w)
      invariant Values(w.spec) == PlainRun(start, actions[..n])
      invariant answers == PlainAnswers(start, actions[..n])
    {
      var answer := Do(w, actions[n], times[n]);
      assert actions[..n + 1][..n] == actions[..n];
      answers := answers + [answer];
    }
    assert actions[..|actions|] == actions;
  }
}
