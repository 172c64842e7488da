/**
 Write-back seen from one key: its cached copy, its store bytes, its dirty mark, and the last write
 that was acknowledged to a client. Every call and every flush of the cache is one event for each
 key. The last acknowledged write changes only when the key is written, or deleted from the store;
 no failure rewrites it, so what a failure costs can be read off a cell.
 */
module WriteBackCell {
  import opened Basics
  import opened Codec

  datatype Cell = Cell(cached: Option<Item>, stored: Option<Bytes>, mark: Option<Deadline>, last: Option<Item>)

  const FRESH := Cell(None, None, None, None)

  /** What happens to one key, with the time and whether the store can be reached for it. */
  datatype Event =
    | Stay(at: int)
    | Wrote(at: int, item: Item)
    | WasRead(at: int, storeUp: bool, deleteUp: bool)
    /** Evicted and reported to the callback. */
    | Evict(at: int, storeUp: bool)
    /** Evicted without a word. */
    | Vanish(at: int)
    | Flush(at: int, storeUp: bool)
    | Erase(at: int, storeUp: bool)
    /** A purge: flushed, then dropped from the cache. */
    | Clear(at: int, storeUp: bool)

  // ---------- what an event does ----------

  predicate CachedLive(c: Cell, now: int) {
    c.cached.Some? && !Expired(c.cached.value.deadline, now)
  }

  /** The store's view of the key: nothing, or the value and deadline its bytes decode to. */
  function Older(stored: Option<Bytes>, json: OtherJson): Option<Item> {
    if stored.Some? && Decode(stored.value, json).Decoded? then
      Some(Item(Decode(stored.value, json).value, Decode(stored.value, json).deadline))
    else None
  }

  /** The store has an entry that it does not regard as expired. */
  predicate StoreLive(stored: Option<Bytes>, now: int, json: OtherJson) {
    Older(stored, json).Some? && !TtlFromExpiry(Older(stored, json).value.deadline, now).1
  }

  /** What a read answers: the live copy, else what the store has. */
  function Answer(c: Cell, now: int, storeUp: bool, json: OtherJson): Option<Bytes> {
    if CachedLive(c, now) then Some(c.cached.value.value)
    else if storeUp && StoreLive(c.stored, now, json) then Some(Older(c.stored, json).value.value)
    else None
  }

  /** A read that misses drops an expired copy, and then caches a live store entry or deletes an expired one. */
  function ReadCell(c: Cell, now: int, storeUp: bool, deleteUp: bool, json: OtherJson): Cell {
    if CachedLive(c, now) then c
    else if !storeUp || Older(c.stored, json).None? then c.(cached := None)
    else if StoreLive(c.stored, now, json) then c.(cached := Older(c.stored, json))
    else if deleteUp then c.(cached := None, stored := None)
    else c.(cached := None)
  }

  /**
   A read that finds something leaves it cached with the deadline it had, and the store as it was.
   Until that deadline the next read answers the same, whether or not the store can be reached.
   */
  lemma FoundIsKept(c: Cell, now: int, storeUp: bool, deleteUp: bool, later: int, readUp: bool, json: OtherJson)
    requires Answer(c, now, storeUp, json).Some?
    ensures var r, answer := ReadCell(c, now, storeUp, deleteUp, json), Answer(c, now, storeUp, json);
      && r.stored == c.stored
      && r.cached.Some? && !Expired(r.cached.value.deadline, now)
      && (!Expired(r.cached.value.deadline, later) ==> Answer(r, later, readUp, json) == answer)
      && (r.cached == c.cached || (Older(c.stored, json) == r.cached && Ahead(r.cached.value.deadline, now)))
  {
    hide Decode;
  }

  /** A read that finds nothing leaves no copy, and deletes what the store regards as expired, and only that. */
  lemma NothingFound(c: Cell, now: int, storeUp: bool, deleteUp: bool, json: OtherJson)
    requires Answer(c, now, storeUp, json).None?
    ensures var r := ReadCell(c, now, storeUp, deleteUp, json);
      && r.cached.None?
      && r.stored == (if storeUp && deleteUp && Older(c.stored, json).Some? then None else c.stored)
      && (Older(c.stored, json).Some? && storeUp ==> !Ahead(Older(c.stored, json).value.deadline, now))
  {
    hide Decode;
  }

  /** What a successful flush leaves in the store; at or past the deadline the key is deleted there. */
  function Flushed(value: Bytes, pw: Deadline, now: int): Option<Bytes> {
    if TtlFromExpiry(pw, now).1 then None else Some(Encode(value, pw))
  }

  /** The eviction callback: a dirty value is flushed on the spot, and unmarked whether or not that works. */
  function EvictCell(c: Cell, now: int, storeUp: bool): Cell {
    if c.cached.None? then c
    else if c.mark.Some? && storeUp then
      c.(cached := None, mark := None, stored := Flushed(c.cached.value.value, c.mark.value, now))
    else c.(cached := None, mark := None)
  }

  /**
   The background flush of a dirty key: its live copy is flushed, or marked again on failure. A key
   without one is unmarked, and deleted from the store if its deadline has come.
   */
  function FlushCell(c: Cell, now: int, storeUp: bool): Cell {
    if c.mark.None? then c
    else if CachedLive(c, now) then
      if storeUp then c.(mark := None, stored := Flushed(c.cached.value.value, c.mark.value, now)) else c
    else if storeUp && TtlFromExpiry(c.mark.value, now).1 then c.(cached := None, mark := None, stored := None)
    else c.(cached := None, mark := None)
  }

  function Next(c: Cell, e: Event, json: OtherJson): Cell {
    match e
    case Stay(_) => c
    case Wrote(_, item) => c.(cached := Some(item), mark := Some(item.deadline), last := Some(item))
    case WasRead(now, storeUp, deleteUp) => ReadCell(c, now, storeUp, deleteUp, json)
    case Evict(now, storeUp) => EvictCell(c, now, storeUp)
    case Vanish(_) => c.(cached := None)
    case Flush(now, storeUp) => FlushCell(c, now, storeUp)
    case Erase(_, storeUp) => if storeUp then FRESH else c.(cached := None, mark := None)
    case Clear(now, storeUp) => FlushCell(c, now, storeUp).(cached := None)
  }

  // ---------- the invariant ----------

  /**
   A copy is of the last write. A dirty key is cached, or its deadline has passed. A clean key is in
   the store as last written, unless its deadline has come and the store has dropped it.
   */
  predicate InSync(c: Cell, clock: int, json: OtherJson) {
    && (c.cached.Some? ==> c.last == c.cached)
    && (c.last.Some? ==> Storable(c.last.value.value, c.last.value.deadline, json))
    && (match c.mark
        case Some(pw) => c.last.Some? && pw == c.last.value.deadline && (c.cached.Some? || Expired(pw, clock))
        case None => if c.last.Some? then StoreAgrees(c, clock) else c.stored.None?)
  }

  /** The store has exactly the last write, or nothing once that write's deadline has come. */
  predicate StoreAgrees(c: Cell, clock: int)
    requires c.last.Some?
  {
    if c.stored.Some? then c.stored.value == Encode(c.last.value.value, c.last.value.deadline)
    else !Ahead(c.last.value.deadline, clock)
  }

  /** An event that can happen to a cell in sync at `clock`; what is written must survive the store. */
  predicate Possible(c: Cell, clock: int, e: Event, json: OtherJson) {
    && clock <= e.at
    && (e.Evict? || e.Vanish? ==> c.cached.Some?)
    && (e.Wrote? ==> Storable(e.item.value, e.item.deadline, json))
  }

  /** An unflushed value has expired over an older one in the store that has not. */
  predicate Exposed(c: Cell, now: int, json: OtherJson) {
    c.mark.Some? && Expired(c.mark.value, now) && StoreLive(c.stored, now, json)
  }

  /**
   The events that put a cell out of sync: reading an exposed value; losing a dirty key that the
   store does not have, by eviction, deletion or flush of an expired copy while the store is down;
   a purge that could not flush; and a live dirty value that vanishes.
   */
  predicate Breaks(c: Cell, e: Event, json: OtherJson) {
    && c.mark.Some? && c.last.Some?
    && match e
       case WasRead(now, storeUp, _) => storeUp && Exposed(c, now, json)
       case Evict(now, storeUp) => !storeUp && !StoreAgrees(c, now)
       case Vanish(now) => !Expired(c.mark.value, now)
       case Flush(now, storeUp) => !storeUp && Expired(c.mark.value, now) && !StoreAgrees(c, now)
       case Erase(now, storeUp) => !storeUp && !StoreAgrees(c, now)
       case Clear(now, storeUp) => !storeUp && !(Expired(c.mark.value, now) && StoreAgrees(c, now))
       case _ => false
  }

  /** Exactly those. */
  lemma StepInSync(c: Cell, clock: int, e: Event, json: OtherJson)
    requires InSync(c, clock, json) && Possible(c, clock, e, json)
    ensures InSync(Next(c, e, json), e.at, json) <==> !Breaks(c, e, json)
  {
    hide Encode, Decode, Storable;
    OlderIsLast(c, json);
  }

  /** A clean key's stored bytes decode to its last write. */
  lemma OlderIsLast(c: Cell, json: OtherJson)
    requires c.last.Some? ==> Storable(c.last.value.value, c.last.value.deadline, json)
    ensures c.last.Some? && c.stored == Some(Encode(c.last.value.value, c.last.value.deadline)) ==>
      Older(c.stored, json) == c.last
  {
    hide Encode, Storable, Decode;
    if c.last.Some? {
      RoundTripExactly(c.last.value.value, c.last.value.deadline, json);
    }
  }

  // ---------- when reads are right ----------

  /** What the last acknowledged write allows as an answer; at its deadline itself, either way. */
  predicate Allowed(last: Option<Item>, now: int, answer: Option<Bytes>) {
    && (answer.Some? ==> last.Some? && answer == Some(last.value.value) && !Expired(last.value.deadline, now))
    && (last.Some? && Ahead(last.value.deadline, now) ==> answer == Some(last.value.value))
  }

  predicate Right(c: Cell, t: int, json: OtherJson) {
    Allowed(c.last, t, Answer(c, t, true, json))
  }

  /** In sync, a read is wrong exactly when it is exposed; with the store down it is never a wrong value. */
  lemma InSyncReads(c: Cell, clock: int, t: int, json: OtherJson)
    requires InSync(c, clock, json) && clock <= t
    ensures Right(c, t, json) <==> !Exposed(c, t, json)
    ensures Answer(c, t, false, json).Some? ==> Allowed(c.last, t, Answer(c, t, false, json))
  {
    hide Encode, Decode, Storable;
    OlderIsLast(c, json);
  }

  /** What the store alone would answer at `t` differs from what the last write says. */
  predicate Lost(c: Cell, t: int, json: OtherJson)
    requires c.last.Some?
  {
    var last := c.last.value;
    if StoreLive(c.stored, t, json) then Expired(last.deadline, t) || Older(c.stored, json).value.value != last.value
    else Ahead(last.deadline, t)
  }

  /** After which events a read at `t` is wrong, told from the cell before the event. */
  predicate Spoils(c: Cell, e: Event, t: int, json: OtherJson) {
    var unsaved := c.mark.Some? && c.last.Some? && Lost(c, t, json);
    match e
    case Stay(_) => Exposed(c, t, json)
    case Wrote(_, item) => Expired(item.deadline, t) && StoreLive(c.stored, t, json)
    case WasRead(now, storeUp, _) =>
      if storeUp && Exposed(c, now, json) then !Expired(Older(c.stored, json).value.deadline, t)
      else Exposed(c, t, json)
    case Evict(_, storeUp) => !storeUp && unsaved
    case Vanish(_) => unsaved
    case Flush(_, storeUp) => !storeUp && Exposed(c, t, json)
    case Erase(_, storeUp) => !storeUp && unsaved
    case Clear(_, storeUp) => !storeUp && unsaved
  }

  /** For every event on a cell in sync, and every later time: a read is right if and only if the event does not spoil it. */
  lemma StepReads(c: Cell, clock: int, e: Event, t: int, json: OtherJson)
    requires InSync(c, clock, json) && Possible(c, clock, e, json) && e.at <= t
    ensures Right(Next(c, e, json), t, json) <==> !Spoils(c, e, t, json)
  {
    hide Encode, Decode, Storable;
    OlderIsLast(c, json);
    OlderIsLast(Next(c, e, json), json);
  }
}
