/** The 60-second rolling window of statistics: a ring buffer proved against an unbounded history. */
module WindowedStats {
  import opened Basics

  const SIZE := 60

  datatype Bucket = Bucket(timestamp: int, hits: nat, misses: nat, evictions: nat)

  /** What happens to the window: a tick of the one-second clock, or one recorded operation. */
  datatype Event = Tick(at: int) | Record(hit: bool, eviction: bool)

  function Recorded(b: Bucket, hit: bool, eviction: bool): Bucket {
    Bucket(b.timestamp,
           if hit then b.hits + 1 else b.hits,
           if hit then b.misses else b.misses + 1,
           if eviction then b.evictions + 1 else b.evictions)
  }

  /** Every bucket there ever was, oldest first, after sixty empty ones from before the start. */
  function History(start: int, log: seq<Event>): (h: seq<Bucket>)
    ensures |h| >= SIZE
  {
    if log == [] then seq(SIZE, _ => Bucket(start, 0, 0, 0))
    else Extend(History(start, log[..|log| - 1]), log[|log| - 1])
  }

  /** A tick opens a new second; an operation is counted in the current one. */
  function Extend(h: seq<Bucket>, e: Event): seq<Bucket>
    requires h != []
  {
    match e
    case Tick(t) => h + [Bucket(t, 0, 0, 0)]
    case Record(hit, eviction) => h[|h| - 1 := Recorded(h[|h| - 1], hit, eviction)]
  }

  class WindowedStats {
    const buckets: array<Bucket>
    var head: int
    ghost const start: int
    ghost var log: seq<Event>

    /** The bucket of history place `j` stands in slot `(j + 1) % 60`, for the last sixty places. */
    ghost predicate Valid()
      reads this, buckets
    {
      buckets.Length == SIZE && head == |History(start, log)| % SIZE && Shows(History(start, log))
    }

    ghost predicate Shows(h: seq<Bucket>)
      requires buckets.Length == SIZE && |h| >= SIZE
      reads buckets
    {
      forall j {:trigger h[j]} :: |h| - SIZE <= j < |h| ==> buckets[(j + 1) % SIZE] == h[j]
    }

    constructor (now: int)
      ensures Valid() && fresh(buckets) && start == now && log == []
    {
      buckets := new Bucket[SIZE](_ => Bucket(now, 0, 0, 0));
      head, start, log := 0, now, [];
    }

    /** One tick: the oldest slot becomes the current second. */
    method Advance(at: int)
      requires Valid()
      modifies this, buckets
      ensures Valid() && log == old(log) + [Tick(at)]
    {
      hide History;
      ghost var h := History(start, log);
      SlotAfter(|h|);
      head := (head + 1) % SIZE;
      buckets[head] := Bucket(at, 0, 0, 0);
      log := log + [Tick(at)];
      Next(start, old(log), Tick(at));
      forall j | |h| + 1 - SIZE <= j < |h| ensures buckets[(j + 1) % SIZE] == h[j] {
        SlotsApart(j, |h|);
        assert buckets[(j + 1) % SIZE] == old(buckets[(j + 1) % SIZE]);
      }
    }

    method Record(hit: bool, eviction: bool)
      requires Valid()
      modifies this, buckets
      ensures Valid() && log == old(log) + [Event.Record(hit, eviction)]
    {
      ghost var h := History(start, log);
      assert buckets[head] == h[|h| - 1];
      buckets[head] := Recorded(buckets[head], hit, eviction);
      log := log + [Event.Record(hit, eviction)];
      Next(start, old(log), Event.Record(hit, eviction));
      forall j | |h| - SIZE <= j < |h| - 1 ensures (j + 1) % SIZE != head && buckets[(j + 1) % SIZE] == h[j] {
        assert old(buckets[(j + 1) % SIZE]) == h[j];
        SlotsApart(j, |h| - 1);
      }
    }

    /** The last `n` seconds, oldest first, at most sixty of them. */
    method Series(n: nat) returns (r: seq<Bucket>)
      requires Valid()
      ensures var h := History(start, log);
        r == h[|h| - (if n > 60 then 60 else n)..]
    {
      var m := if n > SIZE then SIZE else n;
      ghost var h := History(start, log);
      r := [];
      for i := 0 to m
        invariant |r| == i
        invariant forall k :: 0 <= k < i ==> r[k] == h[|h| - m + k]
      {
        var idx := (head - m + 1 + i + SIZE) % SIZE;
        SlotOf(|h|, m, i);
        assert buckets[(|h| - m + i + 1) % SIZE] == h[|h| - m + i];
        r := r + [buckets[idx]];
      }
    }
  }

  lemma Next(start: int, log: seq<Event>, e: Event)
    ensures History(start, log + [e]) == Extend(History(start, log), e)
  {
    assert (log + [e])[..|log|] == log;
  }

  /** Different places among sixty in a row have different slots. */
  lemma SlotsApart(i: int, j: int)
    requires 0 <= i < j < i + SIZE
    ensures (i + 1) % SIZE != (j + 1) % SIZE
  {
  }

  lemma SlotAfter(len: nat)
    ensures (len % SIZE + 1) % SIZE == (len + 1) % SIZE
  {
  }

  lemma SlotOf(len: nat, n: nat, i: nat)
    requires i < n <= SIZE <= len
    ensures (len % SIZE - n + 1 + i + SIZE) % SIZE == (len - n + i + 1) % SIZE
  {
  }

  // ---------- what the series counts ----------

  datatype Tally = Tally(hits: nat, misses: nat, evictions: nat)

  function Plus(a: Tally, b: Tally): Tally {
    Tally(a.hits + b.hits, a.misses + b.misses, a.evictions + b.evictions)
  }

  function Total(bs: seq<Bucket>): Tally {
    if bs == [] then Tally(0, 0, 0)
    else Plus(Total(bs[..|bs| - 1]), Of(bs[|bs| - 1]))
  }

  function Of(b: Bucket): Tally {
    Tally(b.hits, b.misses, b.evictions)
  }

  function One(hit: bool, eviction: bool): Tally {
    Tally(if hit then 1 else 0, if hit then 0 else 1, if eviction then 1 else 0)
  }

  /** The operations recorded since the tick that began the `n`-th last second, counted from the log alone. */
  function Recent(log: seq<Event>, n: nat): Tally {
    if n == 0 || log == [] then Tally(0, 0, 0)
    else
      var before := log[..|log| - 1];
      match log[|log| - 1]
      case Tick(_) => Recent(before, n - 1)
      case Record(hit, eviction) => Plus(Recent(before, n), One(hit, eviction))
  }

  lemma {:induction false} EmptyTotal(bs: seq<Bucket>, n: nat)
    requires n <= |bs| && forall i :: 0 <= i < |bs| ==> Of(bs[i]) == Tally(0, 0, 0)
    ensures Total(bs[..n]) == Tally(0, 0, 0)
  {
    if n > 0 {
      EmptyTotal(bs, n - 1);
      assert bs[..n][..n - 1] == bs[..n - 1];
    }
  }

  /** A run of buckets ends in its last one. */
  lemma TotalSnoc(bs: seq<Bucket>, b: Bucket)
    ensures Total(bs + [b]) == Plus(Total(bs), Of(b))
  {
    assert (bs + [b])[..|bs|] == bs;
  }

  /** The last `n` buckets count exactly the operations recorded in those seconds. */
  lemma {:induction false} SeriesCountsRecords(start: int, log: seq<Event>, n: nat)
    requires n <= 60
    ensures var h := History(start, log);
      Total(h[|h| - n..]) == Recent(log, n)
    decreases |log|
  {
    hide Total, Of, History, Recent, Plus;
    var h := History(start, log);
    if n == 0 {
      assert h[|h|..] == [];
      NothingTotal(log);
    } else if log == [] {
      NothingCounted(start, n);
    } else {
      var before, e := log[..|log| - 1], log[|log| - 1];
      assert log == before + [e];
      Next(start, before, e);
      RecentNext(before, e, n);
      match e
      case Tick(t) =>
        SeriesCountsRecords(start, before, n - 1);
        TickTotal(History(start, before), n, t);
      case Record(hit, eviction) =>
        SeriesCountsRecords(start, before, n);
        RecordTotal(History(start, before), n, hit, eviction);
    }
  }

  /** A tick moves the window on by one empty bucket. */
  lemma TickTotal(p: seq<Bucket>, n: nat, t: int)
    requires 0 < n <= |p|
    ensures var h := Extend(p, Tick(t));
      Total(h[|h| - n..]) == Total(p[|p| - (n - 1)..])
  {
    hide Total, Plus, Of;
    var h, kept := Extend(p, Tick(t)), p[|p| - (n - 1)..];
    assert h[|h| - n..] == kept + [Bucket(t, 0, 0, 0)];
    TotalSnoc(kept, Bucket(t, 0, 0, 0));
    OfFresh(t, Total(kept));
  }

  /** An operation adds one to the last bucket of the window. */
  lemma RecordTotal(p: seq<Bucket>, n: nat, hit: bool, eviction: bool)
    requires 0 < n <= |p|
    ensures var h := Extend(p, Record(hit, eviction));
      Total(h[|h| - n..]) == Plus(Total(p[|p| - n..]), One(hit, eviction))
  {
    hide Total, Plus, Of, One;
    var rest, b := p[|p| - n..|p| - 1], p[|p| - 1];
    LastReplaced(p, n, Recorded(b, hit, eviction));
    TotalSnoc(rest, b);
    TotalSnoc(rest, Recorded(b, hit, eviction));
    OfRecorded(b, hit, eviction, Total(rest));
  }

  lemma LastReplaced(p: seq<Bucket>, n: nat, b: Bucket)
    requires 0 < n <= |p|
    ensures p[|p| - n..] == p[|p| - n..|p| - 1] + [p[|p| - 1]]
    ensures p[|p| - 1 := b][|p| - n..] == p[|p| - n..|p| - 1] + [b]
  {
  }

  lemma NothingTotal(log: seq<Event>)
    ensures Total([]) == Tally(0, 0, 0) && Recent(log, 0) == Tally(0, 0, 0)
  {
  }

  lemma RecentNext(log: seq<Event>, e: Event, n: nat)
    requires n > 0
    ensures e.Tick? ==> Recent(log + [e], n) == Recent(log, n - 1)
    ensures e.Record? ==> Recent(log + [e], n) == Plus(Recent(log, n), One(e.hit, e.eviction))
  {
    assert (log + [e])[..|log|] == log;
  }

  lemma NothingCounted(start: int, n: nat)
    requires n <= SIZE
    ensures |History(start, [])| == SIZE && Recent([], n) == Tally(0, 0, 0)
    ensures Total(History(start, [])[SIZE - n..]) == Tally(0, 0, 0)
  {
    var bs := History(start, [])[SIZE - n..];
    EmptyTotal(bs, n);
    assert bs[..n] == bs;
  }

  lemma OfFresh(t: int, a: Tally)
    ensures Plus(a, Of(Bucket(t, 0, 0, 0))) == a
  {
  }

  lemma OfRecorded(b: Bucket, hit: bool, eviction: bool, a: Tally)
    ensures Plus(a, Of(Recorded(b, hit, eviction))) == Plus(Plus(a, Of(b)), One(hit, eviction))
  {
  }

  // ---------- when its seconds began ----------

  /** When every second of the history began: the start for those from before it, then the ticks. */
  function Times(start: int, log: seq<Event>): seq<int> {
    if log == [] then seq(SIZE, _ => start)
    else
      var before, e := Times(start, log[..|log| - 1]), log[|log| - 1];
      if e.Tick? then before + [e.at] else before
  }

  /** Every bucket carries the time of the tick that began its second. */
  lemma {:induction false} BucketsCarryTimes(start: int, log: seq<Event>)
    ensures var h, t := History(start, log), Times(start, log);
      |h| == |t| && forall i :: 0 <= i < |h| ==> h[i].timestamp == t[i]
  {
    if log != [] {
      BucketsCarryTimes(start, log[..|log| - 1]);
    }
  }
}
