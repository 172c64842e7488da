/**
 The fixed-window rate limiters: in memory, with windows anchored at a client's first request, and
 in SQLite, with windows aligned to the clock. In any interval as long as the window the first lets
 a client through fewer than twice the limit and the second at most twice, and neither's sweep of
 old windows is ever noticed.
 */
module RateLimit {
  import opened Basics

  /** One request: who, and the clock reading made for it. */
  datatype Request = Request(client: Key, now: int)

  // ---------- counting grants by window ----------

  /** A granted request and the window it was counted in. */
  datatype Grant = Grant(time: int, slot: int)

  function CountSlot(g: seq<Grant>, slot: int): nat {
    if g == [] then 0
    else CountSlot(g[..|g| - 1], slot) + (if g[|g| - 1].slot == slot then 1 else 0)
  }

  function CountWithin(g: seq<Grant>, a: int, window: int): nat {
    if g == [] then 0
    else CountWithin(g[..|g| - 1], a, window) + (if a <= g[|g| - 1].time <= a + window then 1 else 0)
  }

  /** Grants in an interval that come from two windows are at most those windows' grants. */
  lemma {:induction false} TwoSlotsBound(g: seq<Grant>, a: int, window: int, x: int, y: int)
    requires forall i :: 0 <= i < |g| && a <= g[i].time <= a + window ==> g[i].slot == x || g[i].slot == y
    ensures CountWithin(g, a, window) <= CountSlot(g, x) + CountSlot(g, y)
  {
    if g != [] {
      TwoSlotsBound(g[..|g| - 1], a, window, x, y);
    }
  }

  /** One fewer, if a grant of the first window lies outside the interval. */
  lemma {:induction false} TwoSlotsButOne(g: seq<Grant>, a: int, window: int, x: int, y: int, j: nat)
    requires x != y && j < |g| && g[j].slot == x && !(a <= g[j].time <= a + window)
    requires forall i :: 0 <= i < |g| && a <= g[i].time <= a + window ==> g[i].slot == x || g[i].slot == y
    ensures CountWithin(g, a, window) < CountSlot(g, x) + CountSlot(g, y)
  {
    if j < |g| - 1 {
      TwoSlotsButOne(g[..|g| - 1], a, window, x, y, j);
    } else {
      TwoSlotsBound(g[..|g| - 1], a, window, x, y);
    }
  }

  // ---------- the in-memory limiter ----------

  datatype Bucket = Bucket(count: nat, resetAt: int)

  type Buckets = map<Key, Bucket>

  /** Count a request in the client's window, opening a new one when there is none or it is over. */
  function Counted(b: Buckets, r: Request, window: int): Bucket {
    var current := if r.client in b && r.now <= b[r.client].resetAt then b[r.client] else Bucket(0, r.now + window);
    current.(count := current.count + 1)
  }

  function Charge(b: Buckets, r: Request, window: int): Buckets {
    b[r.client := Counted(b, r, window)]
  }

  /** Drop the windows that are over. */
  function Sweep(b: Buckets, now: int): Buckets {
    map k | k in b && now <= b[k].resetAt :: b[k]
  }

  predicate Granted(b: Buckets, r: Request, limit: int, window: int) {
    Counted(b, r, window).count <= limit
  }

  class MemoryRateLimiter {
    var buckets: Buckets

    constructor ()
      ensures buckets == map[]
    {
      buckets := map[];
    }

    method Allow(client: Key, limit: int, window: int, now: int) returns (allowed: bool, retryAfter: int)
      modifies this
      ensures buckets == Sweep(Charge(old(buckets), Request(client, now), window), now)
      ensures forall k :: k in buckets ==> now <= buckets[k].resetAt
      ensures allowed == Granted(old(buckets), Request(client, now), limit, window)
      ensures !allowed ==> retryAfter == Counted(old(buckets), Request(client, now), window).resetAt - now
    {
      var bucket: Bucket;
      if client !in buckets || now > buckets[client].resetAt {
        bucket := Bucket(0, now + window);
      } else {
        bucket := buckets[client];
      }
      bucket := bucket.(count := bucket.count + 1);
      buckets := buckets[client := bucket];
      ghost var charged := buckets;
      var left := buckets.Keys;
      while left != {}
        invariant left <= charged.Keys
        invariant buckets == map k | k in charged && (k in left || now <= charged[k].resetAt) :: charged[k]
        decreases left
      {
        var key :| key in left;
        left := left - {key};
        if key in buckets && now > buckets[key].resetAt {
          buckets := buckets - {key};
        }
      }
      if bucket.count > limit {
        return false, bucket.resetAt - now;
      }
      return true, 0;
    }
  }

  /** The limiter's state before each request of a run, swept after every request or never. */
  function RunBuckets(rs: seq<Request>, window: int, sweeping: bool): Buckets {
    if rs == [] then map[]
    else
      var r := rs[|rs| - 1];
      var charged := Charge(RunBuckets(rs[..|rs| - 1], window, sweeping), r, window);
      if sweeping then Sweep(charged, r.now) else charged
  }

  predicate Nondecreasing(rs: seq<Request>) {
    forall i, j :: 0 <= i < j < |rs| ==> rs[i].now <= rs[j].now
  }

  /** Sweeping has removed only windows that are over. */
  predicate SweptFrom(swept: Buckets, full: Buckets, now: int) {
    && (forall k :: k in swept ==> k in full && swept[k] == full[k])
    && (forall k :: k in full && k !in swept ==> full[k].resetAt < now)
  }

  lemma {:induction false} SweepKeeps(rs: seq<Request>, window: int)
    requires Nondecreasing(rs) && rs != []
    ensures SweptFrom(RunBuckets(rs, window, true), RunBuckets(rs, window, false), rs[|rs| - 1].now)
  {
    var before := rs[..|rs| - 1];
    if before != [] {
      SweepKeeps(before, window);
    }
  }

  /** The sweep never changes a decision, in any run whose clock does not go back. */
  lemma SweepUnnoticed(rs: seq<Request>, next: Request, window: int)
    requires Nondecreasing(rs + [next])
    ensures Counted(RunBuckets(rs, window, true), next, window) == Counted(RunBuckets(rs, window, false), next, window)
  {
    if rs != [] {
      assert forall i :: 0 <= i < |rs| ==> (rs + [next])[i] == rs[i];
      assert (rs + [next])[|rs|] == next;
      SweepKeeps(rs, window);
    }
  }

  // ---------- its windows and decisions, told from the requests alone ----------

  /** When the client's latest window was opened: by its first request, or its first after the previous window was over. */
  function Opening(rs: seq<Request>, c: Key, window: int): Option<int> {
    if rs == [] then None
    else
      var r, before := rs[|rs| - 1], Opening(rs[..|rs| - 1], c, window);
      if r.client != c || (before.Some? && r.now <= before.value + window) then before else Some(r.now)
  }

  /** How many requests the client made at or after `since`. */
  function RequestsSince(rs: seq<Request>, c: Key, since: int): nat {
    if rs == [] then 0
    else
      var r := rs[|rs| - 1];
      RequestsSince(rs[..|rs| - 1], c, since) + (if r.client == c && since <= r.now then 1 else 0)
  }

  lemma {:induction false} NoneSince(rs: seq<Request>, c: Key, since: int)
    requires forall i :: 0 <= i < |rs| && rs[i].client == c ==> rs[i].now < since
    ensures RequestsSince(rs, c, since) == 0
  {
    if rs != [] {
      NoneSince(rs[..|rs| - 1], c, since);
    }
  }

  /** The client's bucket is its latest window: it is over `window` after the opening, and counts the requests since. */
  lemma {:induction false} BucketIsWindow(rs: seq<Request>, c: Key, window: int)
    requires 0 <= window && Nondecreasing(rs)
    ensures var b, start := RunBuckets(rs, window, false), Opening(rs, c, window);
      && (c in b <==> start.Some?)
      && (c in b ==> b[c] == Bucket(RequestsSince(rs, c, start.value), start.value + window))
    ensures forall i :: 0 <= i < |rs| && rs[i].client == c ==>
      Opening(rs, c, window).Some? && rs[i].now <= Opening(rs, c, window).value + window
  {
    if rs != [] {
      var before, r := rs[..|rs| - 1], rs[|rs| - 1];
      BucketIsWindow(before, c, window);
      if r.client == c && Opening(rs, c, window) != Opening(before, c, window) {
        NoneSince(before, c, r.now);
      }
      if Opening(before, c, window).Some? {
        OpenedBefore(before, c, window);
      }
    }
  }

  /**
   In every run with a clock that does not go back, a request is granted if and only if fewer than
   the limit of its client's requests came before it in its window: the grants of a window are the
   first of its requests, up to the limit.
   */
  lemma MemoryGrantsExactly(rs: seq<Request>, r: Request, limit: int, window: int)
    requires 0 <= window && Nondecreasing(rs + [r])
    ensures var start := Opening(rs + [r], r.client, window);
      && start.Some? && start.value <= r.now <= start.value + window
      && Counted(RunBuckets(rs, window, true), r, window).resetAt == start.value + window
      && (Granted(RunBuckets(rs, window, true), r, limit, window) <==> RequestsSince(rs, r.client, start.value) < limit)
  {
    var all := rs + [r];
    assert all[..|rs|] == rs;
    assert forall i :: 0 <= i < |rs| ==> all[i] == rs[i];
    assert all[|rs|] == r;
    SweepUnnoticed(rs, r, window);
    BucketIsWindow(rs, r.client, window);
    BucketIsWindow(all, r.client, window);
    OpenedBefore(all, r.client, window);
    if Opening(all, r.client, window) != Opening(rs, r.client, window) {
      NoneSince(rs, r.client, r.now);
    }
  }

  lemma {:induction false} OpenedBefore(rs: seq<Request>, c: Key, window: int)
    requires Nondecreasing(rs) && Opening(rs, c, window).Some?
    ensures Opening(rs, c, window).value <= rs[|rs| - 1].now
  {
    if Opening(rs[..|rs| - 1], c, window).Some? {
      OpenedBefore(rs[..|rs| - 1], c, window);
    }
  }

  /** A client that was refused is granted its next request if and only if it waits longer than it was told to. */
  lemma RetryAfterExactly(b: Buckets, r: Request, next: Request, limit: int, window: int)
    requires 1 <= limit && 0 <= window && !Granted(b, r, limit, window) && next.client == r.client && r.now <= next.now
    ensures var retryAfter := Counted(b, r, window).resetAt - r.now;
      Granted(Sweep(Charge(b, r, window), r.now), next, limit, window) <==> next.now > r.now + retryAfter
  {
  }

  /** What a client was granted in a run, each grant with the end of its window. */
  function Grants(rs: seq<Request>, c: Key, limit: int, window: int, sweeping: bool): seq<Grant> {
    if rs == [] then []
    else
      var r, before := rs[|rs| - 1], rs[..|rs| - 1];
      var b := RunBuckets(before, window, sweeping);
      Grants(before, c, limit, window, sweeping) +
      if r.client == c && Granted(b, r, limit, window) then [Grant(r.now, Counted(b, r, window).resetAt)] else []
  }

  /** Windows of one client are disjoint, and none has more grants than the limit. */
  ghost predicate Windowed(g: seq<Grant>, b: Buckets, c: Key, limit: int, window: int, now: int) {
    && (forall i :: 0 <= i < |g| ==> g[i].slot - window <= g[i].time <= g[i].slot)
    && (forall i, j :: 0 <= i < j < |g| ==> g[i].slot == g[j].slot || g[i].slot + window < g[j].slot)
    && (c !in b ==> g == [])
    && (c in b ==>
          && b[c].resetAt <= now + window
          && (forall i :: 0 <= i < |g| ==> g[i].slot == b[c].resetAt || g[i].slot + window < b[c].resetAt)
          && CountSlot(g, b[c].resetAt) <= b[c].count)
    && (forall slot :: CountSlot(g, slot) <= Most(limit))
  }

  function Most(limit: int): nat {
    if limit < 0 then 0 else limit
  }

  lemma {:induction false} CountSlotAbsent(g: seq<Grant>, slot: int)
    requires forall i :: 0 <= i < |g| ==> g[i].slot != slot
    ensures CountSlot(g, slot) == 0
  {
    if g != [] {
      CountSlotAbsent(g[..|g| - 1], slot);
    }
  }

  lemma CountSlotSnoc(g: seq<Grant>, x: Grant, slot: int)
    ensures CountSlot(g + [x], slot) == CountSlot(g, slot) + (if x.slot == slot then 1 else 0)
  {
    assert (g + [x])[..|g|] == g;
  }

  /** A request that is not granted only fills its window. */
  lemma RefusedStep(g: seq<Grant>, b: Buckets, r: Request, limit: int, window: int, last: int)
    requires 0 < window && Windowed(g, b, r.client, limit, window, last) && last <= r.now
    ensures forall i :: 0 <= i < |g| ==>
      g[i].slot == Counted(b, r, window).resetAt || g[i].slot + window < Counted(b, r, window).resetAt
    ensures CountSlot(g, Counted(b, r, window).resetAt) < Counted(b, r, window).count
    ensures Windowed(g, Charge(b, r, window), r.client, limit, window, r.now)
  {
    if !(r.client in b && r.now <= b[r.client].resetAt) {
      CountSlotAbsent(g, r.now + window);
    }
  }

  lemma WindowedStep(g: seq<Grant>, b: Buckets, r: Request, limit: int, window: int, last: int)
    requires 0 < window && Windowed(g, b, r.client, limit, window, last) && last <= r.now
    ensures var g' := g + if Granted(b, r, limit, window) then [Grant(r.now, Counted(b, r, window).resetAt)] else [];
      Windowed(g', Charge(b, r, window), r.client, limit, window, r.now)
  {
    hide CountSlot;
    var bucket := Counted(b, r, window);
    RefusedStep(g, b, r, limit, window, last);
    if Granted(b, r, limit, window) {
      forall s ensures CountSlot(g + [Grant(r.now, bucket.resetAt)], s) == CountSlot(g, s) + (if s == bucket.resetAt then 1 else 0) {
        CountSlotSnoc(g, Grant(r.now, bucket.resetAt), s);
      }
    } else {
      assert g + [] == g;
    }
  }

  lemma {:induction false} RunWindowed(rs: seq<Request>, c: Key, limit: int, window: int)
    requires 0 < window && Nondecreasing(rs)
    ensures Windowed(Grants(rs, c, limit, window, false), RunBuckets(rs, window, false), c, limit, window,
                     if rs == [] then 0 else rs[|rs| - 1].now)
  {
    if rs != [] {
      var before, r := rs[..|rs| - 1], rs[|rs| - 1];
      RunWindowed(before, c, limit, window);
      hide Windowed;
      var g, b := Grants(before, c, limit, window, false), RunBuckets(before, window, false);
      var last := if before == [] then 0 else before[|before| - 1].now;
      if before == [] {
        FirstWindow(r, c, limit, window);
      } else if r.client == c {
        WindowedStep(g, b, r, limit, window, last);
      } else {
        assert g + [] == g;
        OtherClient(g, b, r, c, limit, window, last);
      }
    }
  }

  lemma OtherClient(g: seq<Grant>, b: Buckets, r: Request, c: Key, limit: int, window: int, last: int)
    requires Windowed(g, b, c, limit, window, last) && r.client != c && last <= r.now
    ensures Windowed(g, Charge(b, r, window), c, limit, window, r.now)
  {
    hide CountSlot;
  }

  lemma FirstWindow(r: Request, c: Key, limit: int, window: int)
    requires 0 < window
    ensures Windowed(Grants([r], c, limit, window, false), RunBuckets([r], window, false), c, limit, window, r.now)
  {
    assert [r][..0] == [];
    assert Windowed([], map[], c, limit, window, r.now);
    if r.client == c {
      WindowedStep([], map[], r, limit, window, r.now);
    }
  }

  /** Any three windows in one interval would be too far apart, so there are two that cover it. */
  lemma WindowsWithin(g: seq<Grant>, b: Buckets, c: Key, limit: int, window: int, now: int, a: int) returns (x: int, y: int)
    requires 0 < window && Windowed(g, b, c, limit, window, now)
    ensures forall i :: 0 <= i < |g| && a <= g[i].time <= a + window ==> g[i].slot == x || g[i].slot == y
    ensures x != y ==> Within(g, a, window, x) && Within(g, a, window, y)
  {
    hide CountSlot;
    x, y := 0, 0;
    if i :| 0 <= i < |g| && a <= g[i].time <= a + window {
      x, y := g[i].slot, g[i].slot;
      if j :| 0 <= j < |g| && a <= g[j].time <= a + window && g[j].slot != x {
        y := g[j].slot;
        assert x + window < y || y + window < x;
        forall m | 0 <= m < |g| && a <= g[m].time <= a + window ensures g[m].slot == x || g[m].slot == y {
          assert g[m].slot == x || x + window < g[m].slot || g[m].slot + window < x;
          assert g[m].slot == y || y + window < g[m].slot || g[m].slot + window < y;
        }
      }
    }
  }

  lemma {:induction false} GrantsUnswept(rs: seq<Request>, c: Key, limit: int, window: int)
    requires Nondecreasing(rs)
    ensures Grants(rs, c, limit, window, true) == Grants(rs, c, limit, window, false)
  {
    if rs != [] {
      var before, r := rs[..|rs| - 1], rs[|rs| - 1];
      GrantsUnswept(before, c, limit, window);
      assert before + [r] == rs;
      SweepUnnoticed(before, r, window);
    }
  }

  /** The request that opened a window was granted in it. */
  predicate Anchored(g: seq<Grant>, slot: int, window: int) {
    exists j :: 0 <= j < |g| && g[j] == Grant(slot - window, slot)
  }

  predicate AllAnchored(g: seq<Grant>, b: Buckets, c: Key, window: int) {
    && (forall i :: 0 <= i < |g| ==> Anchored(g, g[i].slot, window))
    && (c in b ==> Anchored(g, b[c].resetAt, window))
  }

  lemma AnchoredStays(g: seq<Grant>, x: Grant, slot: int, window: int)
    requires Anchored(g, slot, window)
    ensures Anchored(g + [x], slot, window)
  {
    var j :| 0 <= j < |g| && g[j] == Grant(slot - window, slot);
    assert (g + [x])[j] == Grant(slot - window, slot);
  }

  lemma AnchoredStep(g: seq<Grant>, b: Buckets, r: Request, limit: int, window: int)
    requires 1 <= limit && AllAnchored(g, b, r.client, window)
    ensures var g' := g + if Granted(b, r, limit, window) then [Grant(r.now, Counted(b, r, window).resetAt)] else [];
      AllAnchored(g', Charge(b, r, window), r.client, window)
  {
    var slot := Counted(b, r, window).resetAt;
    if Granted(b, r, limit, window) {
      var x := Grant(r.now, slot);
      var g' := g + [x];
      if r.client in b && r.now <= b[r.client].resetAt {
        AnchoredStays(g, x, slot, window);
      } else {
        assert g'[|g|] == Grant(slot - window, slot);
      }
      forall i | 0 <= i < |g'| ensures Anchored(g', g'[i].slot, window) {
        if i < |g| {
          AnchoredStays(g, x, g[i].slot, window);
        }
      }
    } else {
      assert g + [] == g;
    }
  }

  lemma {:induction false} RunAnchored(rs: seq<Request>, c: Key, limit: int, window: int)
    requires 1 <= limit
    ensures AllAnchored(Grants(rs, c, limit, window, false), RunBuckets(rs, window, false), c, window)
  {
    if rs != [] {
      var before, r := rs[..|rs| - 1], rs[|rs| - 1];
      RunAnchored(before, c, limit, window);
      var g, b := Grants(before, c, limit, window, false), RunBuckets(before, window, false);
      if r.client == c {
        hide AllAnchored;
        AnchoredStep(g, b, r, limit, window);
      } else {
        assert g + [] == g;
      }
    }
  }

  /**
   In any interval as long as the window a client is granted fewer than twice the limit: an interval
   that reaches into a second window has left out the request that opened the first.
   */
  lemma MemoryBound(rs: seq<Request>, c: Key, limit: int, window: int, a: int)
    requires 0 < window && Nondecreasing(rs)
    ensures CountWithin(Grants(rs, c, limit, window, true), a, window) <= Most(2 * limit - 1)
  {
    hide CountSlot, CountWithin, Grants;
    var g, b := Grants(rs, c, limit, window, false), RunBuckets(rs, window, false);
    GrantsUnswept(rs, c, limit, window);
    RunWindowed(rs, c, limit, window);
    var x, y := WindowsWithin(g, b, c, limit, window, if rs == [] then 0 else rs[|rs| - 1].now, a);
    if x == y {
      OneSlotBound(g, a, window, x);
    } else if limit < 1 {
      TwoSlotsBound(g, a, window, x, y);
    } else {
      RunAnchored(rs, c, limit, window);
      Apart(g, b, c, limit, window, if rs == [] then 0 else rs[|rs| - 1].now, a, x, y);
      if x < y {
        Leftover(g, limit, window, a, x, y);
      } else {
        Leftover(g, limit, window, a, y, x);
      }
    }
  }

  lemma {:induction false} OneSlotBound(g: seq<Grant>, a: int, window: int, x: int)
    requires forall i :: 0 <= i < |g| && a <= g[i].time <= a + window ==> g[i].slot == x
    ensures CountWithin(g, a, window) <= CountSlot(g, x)
  {
    if g != [] {
      OneSlotBound(g[..|g| - 1], a, window, x);
    }
  }

  /** With two windows in the interval, the opening request of the earlier one lies before it. */
  lemma Leftover(g: seq<Grant>, limit: int, window: int, a: int, x: int, y: int)
    requires x + window < y && Anchored(g, x, window) && Within(g, a, window, y)
    requires forall i :: 0 <= i < |g| ==> g[i].slot - window <= g[i].time
    requires forall i :: 0 <= i < |g| && a <= g[i].time <= a + window ==> g[i].slot == x || g[i].slot == y
    requires CountSlot(g, x) <= limit && CountSlot(g, y) <= limit
    ensures CountWithin(g, a, window) < 2 * limit
  {
    hide CountSlot, CountWithin;
    var m :| 0 <= m < |g| && g[m] == Grant(x - window, x);
    TwoSlotsButOne(g, a, window, x, y, m);
  }

  /** Two windows with grants in the interval are apart, and both were opened by a grant. */
  lemma Apart(g: seq<Grant>, b: Buckets, c: Key, limit: int, window: int, now: int, a: int, x: int, y: int)
    requires Windowed(g, b, c, limit, window, now) && AllAnchored(g, b, c, window) && x != y
    requires Within(g, a, window, x) && Within(g, a, window, y)
    ensures x + window < y || y + window < x
    ensures Anchored(g, x, window) && Anchored(g, y, window)
  {
    hide CountSlot;
    var i :| 0 <= i < |g| && a <= g[i].time <= a + window && g[i].slot == x;
    var j :| 0 <= j < |g| && a <= g[j].time <= a + window && g[j].slot == y;
  }

  predicate Within(g: seq<Grant>, a: int, window: int, slot: int) {
    exists i :: 0 <= i < |g| && a <= g[i].time <= a + window && g[i].slot == slot
  }

  // ---------- the SQLite limiter ----------

  /** Nanoseconds from the zero time, at which windows are aligned, to the Unix epoch. */
  const EPOCH := 62_135_596_800_000_000_000

  function UnixMilli(t: int): int {
    (t - EPOCH) / 1_000_000
  }

  function WindowStart(now: int, window: int): int
    requires 0 < window
  {
    now - now % window
  }

  /** Rows are keyed by client and by the start of the window in milliseconds. */
  type Rows = map<(Key, int), nat>

  function RowOf(r: Request, window: int): (Key, int)
    requires 0 < window
  {
    (r.client, UnixMilli(WindowStart(r.now, window)))
  }

  function CountedRow(rows: Rows, r: Request, window: int): nat
    requires 0 < window
  {
    var k := RowOf(r, window);
    if k in rows then rows[k] + 1 else 1
  }

  function ChargeRow(rows: Rows, r: Request, window: int): Rows
    requires 0 < window
  {
    rows[RowOf(r, window) := CountedRow(rows, r, window)]
  }

  function SweepRows(rows: Rows, now: int, window: int): Rows
    requires 0 < window
  {
    map k | k in rows && k.1 >= UnixMilli(WindowStart(now, window) - 2 * window) :: rows[k]
  }

  /** A request, and whether its transaction commits and its sweep takes effect. */
  datatype Attempt = Attempt(request: Request, commits: bool, sweeps: bool)

  class SqliteRateLimiter {
    var rows: Rows

    constructor ()
      ensures rows == map[]
    {
      rows := map[];
    }

    /** A transaction that does not commit leaves the table as it was and grants nothing. */
    method Allow(t: Attempt, limit: int, window: int) returns (allowed: bool, retryAfter: int, failed: bool)
      requires 0 < window
      modifies this
      ensures failed == !t.commits
      ensures rows == NextRows(old(rows), t, window)
      ensures allowed == RowGranted(old(rows), t, limit, window)
      ensures !failed && !allowed ==> 0 < retryAfter <= window && (t.request.now + retryAfter) % window == 0
    {
      if !t.commits {
        return false, 0, true;
      }
      var now := t.request.now;
      var windowStart := WindowStart(now, window);
      var k := (t.request.client, UnixMilli(windowStart));
      var count := if k in rows then rows[k] + 1 else 1;
      rows := rows[k := count];
      if t.sweeps {
        rows := map j | j in rows && !(j.1 < UnixMilli(windowStart - 2 * window)) :: rows[j];
      }
      if count > limit {
        NextStart(now, window);
        return false, window - (now - windowStart), false;
      }
      return true, 0, false;
    }
  }

  function NextRows(rows: Rows, t: Attempt, window: int): Rows
    requires 0 < window
  {
    if !t.commits then rows
    else
      var charged := ChargeRow(rows, t.request, window);
      if t.sweeps then SweepRows(charged, t.request.now, window) else charged
  }

  predicate RowGranted(rows: Rows, t: Attempt, limit: int, window: int)
    requires 0 < window
  {
    t.commits && CountedRow(rows, t.request, window) <= limit
  }

  function RunRows(ts: seq<Attempt>, window: int, sweeping: bool): Rows
    requires 0 < window
  {
    if ts == [] then map[]
    else
      var t := ts[|ts| - 1];
      NextRows(RunRows(ts[..|ts| - 1], window, sweeping), t.(sweeps := t.sweeps && sweeping), window)
  }

  predicate Ascending(ts: seq<Attempt>) {
    forall i, j :: 0 <= i < j < |ts| ==> ts[i].request.now <= ts[j].request.now
  }

  lemma StartsAscend(t: int, u: int, window: int)
    requires 0 < window && t <= u
    ensures WindowStart(t, window) <= WindowStart(u, window)
    ensures UnixMilli(WindowStart(t, window) - 2 * window) <= UnixMilli(WindowStart(u, window))
  {
    if t / window > u / window {
      MulMono(u / window + 1, t / window, window);
    }
    MulMono(t / window, u / window, window);
  }

  lemma MulMono(x: int, y: int, w: int)
    requires 0 < w
    ensures x <= y ==> x * w <= y * w
  {
  }

  /** The multiple of `w` at or below `t`. */
  lemma StartIs(t: int, w: int, q: int)
    requires 0 < w && q * w <= t < q * w + w
    ensures WindowStart(t, w) == q * w
  {
    var d := t / w;
    assert t == d * w + t % w;
    MulMono(d + 1, q, w);
    MulMono(q + 1, d, w);
  }

  lemma NextStart(now: int, window: int)
    requires 0 < window
    ensures (WindowStart(now, window) + window) % window == 0
  {
    var q := now / window;
    assert WindowStart(now, window) + window == (q + 1) * window;
    MultipleOf(q + 1, window);
  }

  lemma MultipleOf(q: int, w: int)
    requires 0 < w
    ensures (q * w) % w == 0
  {
    var d, m := (q * w) / w, (q * w) % w;
    assert q * w == d * w + m;
    if d < q {
      MulMono(d + 1, q, w);
    } else if q < d {
      MulMono(q + 1, d, w);
    }
  }

  /** Sweeping has removed only rows of windows before any that a later request can be in. */
  predicate RowsSweptFrom(swept: Rows, full: Rows, now: int, window: int)
    requires 0 < window
  {
    && (forall k :: k in swept ==> k in full && swept[k] == full[k])
    && (forall k :: k in full && k !in swept ==> k.1 < UnixMilli(WindowStart(now, window) - 2 * window))
  }

  lemma {:induction false} RowSweepKeeps(ts: seq<Attempt>, window: int)
    requires 0 < window && Ascending(ts) && ts != []
    ensures RowsSweptFrom(RunRows(ts, window, true), RunRows(ts, window, false), ts[|ts| - 1].request.now, window)
  {
    hide UnixMilli, WindowStart;
    var before, t := ts[..|ts| - 1], ts[|ts| - 1];
    if before != [] {
      RowSweepKeeps(before, window);
      var last := before[|before| - 1].request.now;
      StartsAscend(last, t.request.now, window);
      MilliAscends(last, t.request.now, window);
    }
  }

  lemma MilliAscends(t: int, u: int, window: int)
    requires 0 < window && t <= u
    ensures UnixMilli(WindowStart(t, window) - 2 * window) <= UnixMilli(WindowStart(u, window) - 2 * window)
  {
    StartsAscend(t, u, window);
    hide WindowStart;
  }

  /** The sweep of old rows never changes a decision either. */
  lemma RowSweepUnnoticed(ts: seq<Attempt>, next: Attempt, window: int)
    requires 0 < window && Ascending(ts + [next])
    ensures CountedRow(RunRows(ts, window, true), next.request, window)
         == CountedRow(RunRows(ts, window, false), next.request, window)
  {
    hide UnixMilli, WindowStart;
    if ts != [] {
      assert forall i :: 0 <= i < |ts| ==> (ts + [next])[i] == ts[i];
      assert (ts + [next])[|ts|] == next;
      RowSweepKeeps(ts, window);
      StartsAscend(ts[|ts| - 1].request.now, next.request.now, window);
    }
  }

  /** What a client was granted, each grant with the millisecond key of its window. */
  function RowGrants(ts: seq<Attempt>, c: Key, limit: int, window: int, sweeping: bool): seq<Grant>
    requires 0 < window
  {
    if ts == [] then []
    else
      var t, before := ts[|ts| - 1], ts[..|ts| - 1];
      RowGrants(before, c, limit, window, sweeping) +
      if t.request.client == c && RowGranted(RunRows(before, window, sweeping), t, limit, window)
      then [Grant(t.request.now, RowOf(t.request, window).1)] else []
  }

  /** Each row counts at least its grants, which are at most the limit. */
  lemma {:induction false} RowsCount(ts: seq<Attempt>, c: Key, limit: int, window: int, slot: int)
    requires 0 < window
    ensures var g, rows := RowGrants(ts, c, limit, window, false), RunRows(ts, window, false);
      && CountSlot(g, slot) <= Most(limit)
      && CountSlot(g, slot) <= (if (c, slot) in rows then rows[(c, slot)] else 0)
  {
    hide UnixMilli, WindowStart, CountSlot;
    if ts == [] {
      CountSlotAbsent([], slot);
    } else {
      var before, t := ts[..|ts| - 1], ts[|ts| - 1];
      RowsCount(before, c, limit, window, slot);
      var g := RowGrants(before, c, limit, window, false);
      CountSlotSnoc(g, Grant(t.request.now, RowOf(t.request, window).1), slot);
      assert g + [] == g;
    }
  }

  /** How many requests of a client committed in the row of the given millisecond. */
  function CommittedIn(ts: seq<Attempt>, c: Key, slot: int, window: int): nat
    requires 0 < window
  {
    if ts == [] then 0
    else
      var t := ts[|ts| - 1];
      CommittedIn(ts[..|ts| - 1], c, slot, window) +
      (if t.commits && t.request.client == c && UnixMilli(WindowStart(t.request.now, window)) == slot then 1 else 0)
  }

  lemma {:induction false} RowIsCount(ts: seq<Attempt>, c: Key, slot: int, window: int)
    requires 0 < window
    ensures var rows, n := RunRows(ts, window, false), CommittedIn(ts, c, slot, window);
      if (c, slot) in rows then rows[(c, slot)] == n else n == 0
  {
    hide UnixMilli, WindowStart;
    if ts != [] {
      RowIsCount(ts[..|ts| - 1], c, slot, window);
    }
  }

  /**
   In every run with a clock that does not go back, whichever transactions and sweeps fail, a request
   is granted if and only if it commits and fewer than the limit of its client's requests committed
   before it in its row.
   */
  lemma RowGrantsExactly(ts: seq<Attempt>, t: Attempt, limit: int, window: int)
    requires 0 < window && Ascending(ts + [t])
    ensures RowGranted(RunRows(ts, window, true), t, limit, window) <==>
      t.commits && CommittedIn(ts, t.request.client, UnixMilli(WindowStart(t.request.now, window)), window) < limit
  {
    hide UnixMilli, WindowStart;
    RowSweepUnnoticed(ts, t, window);
    RowIsCount(ts, t.request.client, UnixMilli(WindowStart(t.request.now, window)), window);
  }

  /** How many requests of a client committed in the window from `start` on. */
  function CommittedWithin(ts: seq<Attempt>, c: Key, start: int, window: int): nat {
    if ts == [] then 0
    else
      var t := ts[|ts| - 1];
      CommittedWithin(ts[..|ts| - 1], c, start, window) +
      (if t.commits && t.request.client == c && start <= t.request.now < start + window then 1 else 0)
  }

  /** Aligned windows of a millisecond or more have a row each. */
  lemma RowPerWindow(t: int, q: int, window: int)
    requires 1_000_000 <= window
    ensures UnixMilli(WindowStart(t, window)) == UnixMilli(q * window) <==> q * window <= t < q * window + window
  {
    var d := t / window;
    assert t == d * window + t % window;
    assert WindowStart(t, window) == d * window;
    if d < q {
      MulMono(d + 1, q, window);
      MilliApart(d * window, q * window);
    } else if q < d {
      MulMono(q + 1, d, window);
      MilliApart(q * window, d * window);
    }
  }

  lemma MilliApart(s: int, t: int)
    requires s + 1_000_000 <= t
    ensures UnixMilli(s) < UnixMilli(t)
  {
  }

  /** Of windows of a millisecond or more, the sweep keeps the rows of the current one and of the two before it. */
  lemma SweepKeepsTwo(rows: Rows, c: Key, now: int, window: int, q: int, p: int)
    requires 1_000_000 <= window && q * window <= now < q * window + window
    requires (c, UnixMilli(p * window)) in rows
    ensures (c, UnixMilli(p * window)) in SweepRows(rows, now, window) <==> q - 2 <= p
  {
    hide WindowStart;
    StartIs(now, window, q);
    assert q * window - 2 * window == (q - 2) * window;
    if q - 2 <= p {
      MulMono(q - 2, p, window);
      MilliMono((q - 2) * window, p * window);
    } else {
      MulMono(p + 1, q - 2, window);
      assert (p + 1) * window == p * window + window;
      MilliApart(p * window, (q - 2) * window);
    }
  }

  lemma MilliMono(s: int, t: int)
    requires s <= t
    ensures UnixMilli(s) <= UnixMilli(t)
  {
  }

  lemma {:induction false} RowsAreWindows(ts: seq<Attempt>, c: Key, q: int, window: int)
    requires 1_000_000 <= window
    ensures CommittedIn(ts, c, UnixMilli(q * window), window) == CommittedWithin(ts, c, q * window, window)
  {
    hide UnixMilli, WindowStart;
    if ts != [] {
      RowsAreWindows(ts[..|ts| - 1], c, q, window);
      RowPerWindow(ts[|ts| - 1].request.now, q, window);
    }
  }

  /**
   So with windows of a millisecond or more, the grants of each window [q * window, (q + 1) * window)
   are the first of the client's committed requests in it, up to the limit.
   */
  lemma WindowGrantsExactly(ts: seq<Attempt>, t: Attempt, limit: int, window: int, q: int)
    requires 1_000_000 <= window && Ascending(ts + [t])
    requires q * window <= t.request.now < q * window + window
    ensures RowGranted(RunRows(ts, window, true), t, limit, window) <==>
      t.commits && CommittedWithin(ts, t.request.client, q * window, window) < limit
  {
    hide UnixMilli, WindowStart;
    RowGrantsExactly(ts, t, limit, window);
    StartIs(t.request.now, window, q);
    RowsAreWindows(ts, t.request.client, q, window);
  }

  /** Shorter windows share a row if they start in the same millisecond, and so share one limit. */
  lemma ShortWindowsShare(t: int, u: int, window: int, q: int, m: int)
    requires 0 < window
    requires q * window <= t < q * window + window && q * window + window <= u < q * window + 2 * window
    requires EPOCH + m * 1_000_000 <= q * window && q * window + window < EPOCH + m * 1_000_000 + 1_000_000
    ensures UnixMilli(WindowStart(t, window)) == UnixMilli(WindowStart(u, window)) == m
  {
    StartIs(t, window, q);
    assert (q + 1) * window == q * window + window;
    StartIs(u, window, q + 1);
  }

  /** How many grants a row has: all of its committed requests, up to the limit. */
  lemma {:induction false} RowGrantsCount(ts: seq<Attempt>, c: Key, limit: int, window: int, slot: int)
    requires 0 < window && Ascending(ts)
    ensures var n := CommittedIn(ts, c, slot, window);
      CountSlot(RowGrants(ts, c, limit, window, true), slot) == if n <= limit then n else Most(limit)
  {
    hide UnixMilli, WindowStart, CountSlot;
    if ts == [] {
      CountSlotAbsent([], slot);
    } else {
      var before, t := ts[..|ts| - 1], ts[|ts| - 1];
      RowGrantsCount(before, c, limit, window, slot);
      assert before + [t] == ts;
      RowGrantsExactly(before, t, limit, window);
      var g := RowGrants(before, c, limit, window, true);
      CountSlotSnoc(g, Grant(t.request.now, RowOf(t.request, window).1), slot);
      assert g + [] == g;
    }
  }

  /** Every grant is filed under the window of its time. */
  predicate Filed(g: seq<Grant>, window: int)
    requires 0 < window
  {
    forall i :: 0 <= i < |g| ==> g[i].slot == UnixMilli(WindowStart(g[i].time, window))
  }

  lemma {:induction false} GrantsAreFiled(ts: seq<Attempt>, c: Key, limit: int, window: int)
    requires 0 < window
    ensures Filed(RowGrants(ts, c, limit, window, false), window)
  {
    hide UnixMilli, WindowStart;
    if ts != [] {
      GrantsAreFiled(ts[..|ts| - 1], c, limit, window);
    }
  }

  /** An interval as long as the window meets at most two aligned windows. */
  lemma AlignedWithin(a: int, window: int, t: int)
    requires 0 < window && a <= t <= a + window
    ensures WindowStart(t, window) == WindowStart(a, window) || WindowStart(t, window) == WindowStart(a, window) + window
  {
    var q := a / window;
    StartIs(a, window, q);
    if t < q * window + window {
      StartIs(t, window, q);
    } else {
      assert (q + 1) * window == q * window + window;
      StartIs(t, window, q + 1);
    }
  }

  lemma {:induction false} RowGrantsUnswept(ts: seq<Attempt>, c: Key, limit: int, window: int)
    requires 0 < window && Ascending(ts)
    ensures RowGrants(ts, c, limit, window, true) == RowGrants(ts, c, limit, window, false)
  {
    hide UnixMilli, WindowStart;
    if ts != [] {
      var before, t := ts[..|ts| - 1], ts[|ts| - 1];
      RowGrantsUnswept(before, c, limit, window);
      assert before + [t] == ts;
      RowSweepUnnoticed(before, t, window);
    }
  }

  /** The same bound for aligned windows, whichever transactions fail and whichever sweeps take effect. */
  lemma SqliteBound(ts: seq<Attempt>, c: Key, limit: int, window: int, a: int)
    requires 0 < window && Ascending(ts)
    ensures CountWithin(RowGrants(ts, c, limit, window, true), a, window) <= 2 * Most(limit)
  {
    hide UnixMilli, WindowStart;
    RowGrantsUnswept(ts, c, limit, window);
    var g := RowGrants(ts, c, limit, window, false);
    var x, y := UnixMilli(WindowStart(a, window)), UnixMilli(WindowStart(a, window) + window);
    RowsCount(ts, c, limit, window, x);
    RowsCount(ts, c, limit, window, y);
    GrantsAreFiled(ts, c, limit, window);
    forall i | 0 <= i < |g| && a <= g[i].time <= a + window ensures g[i].slot == x || g[i].slot == y {
      AlignedWithin(a, window, g[i].time);
    }
    TwoSlotsBound(g, a, window, x, y);
  }
}
