/**
 The wake-up protocol between the TTL wheel's callers and its run loop, step by step: what each
 side does under the lock, the one-token trigger channel, and the timer. Steps of any number of
 callers interleave freely with those of the loop.
 */
module WheelProtocol {
  import opened Basics

  /** The delay the loop arms its timer with when nothing is scheduled: one hour. */
  const IDLE := 3_600_000_000_000

  datatype Loop =
    /** About to look at the heap. */
    | Top
    /** Has looked, at `seen`, and let go of the lock; `from` is the deadline it saw, or `seen` plus the idle delay. */
    | Looked(from: int, seen: int)
    /** Blocked on the timer, the trigger and the stop channel; the timer was set at `armed` to fire at `fireAt`. */
    | Waiting(from: int, seen: int, armed: int, fireAt: int)
    | Stopped

  /** `sending` counts the callers between letting go of the lock and their non-blocking send. */
  datatype State = State(deadlines: map<Key, int>, token: bool, sending: nat, loop: Loop)

  datatype Step =
    | Schedule(key: Key, ttl: int, now: int)
    | Send
    | Cancel(key: Key)
    | Look(now: int)
    | Arm(now: int)
    | TakeToken
    | Fire(now: int)
    | Stop

  const START := State(map[], false, 0, Top)

  predicate EarliestIs(deadlines: map<Key, int>, t: int) {
    && (exists k :: k in deadlines && deadlines[k] == t)
    && (forall k :: k in deadlines ==> t <= deadlines[k])
  }

  predicate Next(s: State, step: Step, s': State) {
    match step
    case Schedule(k, ttl, now) =>
      if ttl <= 0 then s' == s
      else s' == s.(deadlines := s.deadlines[k := now + ttl], sending := s.sending + 1)
    case Send => s.sending > 0 && s' == s.(sending := s.sending - 1, token := true)
    case Cancel(k) => s' == s.(deadlines := s.deadlines - {k})
    case Look(now) =>
      && s.loop == Top && s'.loop.Looked? && s'.loop.seen == now
      && s' == s.(loop := s'.loop)
      && if s.deadlines == map[] then s'.loop.from == now + IDLE else EarliestIs(s.deadlines, s'.loop.from)
    case Arm(now) =>
      && s.loop.Looked? && s.loop.seen <= now
      && var delay := if s.loop.from < s.loop.seen then 0 else s.loop.from - s.loop.seen;
         s' == s.(loop := Waiting(s.loop.from, s.loop.seen, now, now + delay))
    case TakeToken => s.loop.Waiting? && s.token && s' == s.(token := false, loop := Top)
    case Fire(now) =>
      && s.loop.Waiting? && s.loop.fireAt <= now
      && s' == s.(loop := Top, deadlines := map k | k in s.deadlines && s.deadlines[k] > now :: s.deadlines[k])
    case Stop => s.loop.Waiting? && s' == s.(loop := Stopped)
  }

  predicate IsRun(states: seq<State>, steps: seq<Step>) {
    && |states| == |steps| + 1
    && states[0] == START
    && forall i :: 0 <= i < |steps| ==> Next(states[i], steps[i], states[i + 1])
  }

  /** The loop's timer was set from a deadline later than one now scheduled. */
  predicate Stale(s: State) {
    && (s.loop.Looked? || s.loop.Waiting?)
    && exists k :: k in s.deadlines && s.deadlines[k] < s.loop.from
  }

  /** A wake-up is on its way: the token is in the channel, or a caller is about to send one. */
  predicate WakeupPending(s: State) {
    s.token || s.sending > 0
  }

  predicate Safe(s: State) {
    && (Stale(s) ==> WakeupPending(s))
    && (s.loop.Waiting? ==>
          && s.loop.seen <= s.loop.armed
          && s.loop.fireAt == s.loop.armed + (if s.loop.from < s.loop.seen then 0 else s.loop.from - s.loop.seen))
  }

  lemma StepSafe(s: State, step: Step, s': State)
    requires Safe(s) && Next(s, step, s')
    ensures Safe(s')
  {
  }

  /** No wake-up is ever lost, in any interleaving of callers and loop. */
  lemma {:induction false} NoLostWakeup(states: seq<State>, steps: seq<Step>, i: nat)
    requires IsRun(states, steps) && i < |states|
    ensures Stale(states[i]) ==> WakeupPending(states[i])
    ensures Safe(states[i])
    decreases i
  {
    if i > 0 {
      NoLostWakeup(states, steps, i - 1);
      StepSafe(states[i - 1], steps[i - 1], states[i]);
    }
  }

  // ---------- what is scheduled ----------

  /** What a step makes of one key's deadline: scheduled, cancelled, or fired at or past its time. */
  function DueAfter(due: Option<int>, step: Step, k: Key): Option<int> {
    match step
    case Schedule(j, ttl, now) => if j == k && ttl > 0 then Some(now + ttl) else due
    case Cancel(j) => if j == k then None else due
    case Fire(now) => if due.Some? && due.value <= now then None else due
    case _ => due
  }

  /** What the steps say about `k` alone: its latest schedule, unless it was cancelled or has fired since. */
  function Pending(steps: seq<Step>, k: Key): Option<int> {
    if steps == [] then None else DueAfter(Pending(steps[..|steps| - 1], k), steps[|steps| - 1], k)
  }

  lemma StepDue(s: State, step: Step, s': State, k: Key)
    requires Next(s, step, s')
    ensures Lookup(s'.deadlines, k) == DueAfter(Lookup(s.deadlines, k), step, k)
  {
  }

  /** In every run each key is due when its latest schedule says, until it is cancelled or fires at or past that time. */
  lemma {:induction false} DueAsScheduled(states: seq<State>, steps: seq<Step>, i: nat, k: Key)
    requires IsRun(states, steps) && i < |states|
    ensures Lookup(states[i].deadlines, k) == Pending(steps[..i], k)
    decreases i
  {
    hide Next, DueAfter;
    if i > 0 {
      DueAsScheduled(states, steps, i - 1, k);
      assert steps[..i][..i - 1] == steps[..i - 1];
      StepDue(states[i - 1], steps[i - 1], states[i], k);
    }
  }

  /** With nothing scheduled the loop sleeps for an hour. */
  lemma IdleHour(s: State, look: Step, seen: State, other: State, arm: Step, armed: State)
    requires s.deadlines == map[] && look.Look? && Next(s, look, seen)
    requires other.loop == seen.loop && arm.Arm? && Next(other, arm, armed)
    ensures armed.loop.Waiting? && armed.loop.fireAt == arm.now + 60 * 60 * 1_000_000_000
  {
  }

  // ---------- timeliness ----------

  /** The latest time at which the timer of a waiting loop fires for deadline `d`, if it was not set too late. */
  function Due(loop: Loop, d: int): int
    requires loop.Waiting?
  {
    if d < loop.seen then loop.armed else d + (loop.armed - loop.seen)
  }

  /**
   Blocked with no wake-up on its way, the timer fires no later than any scheduled deadline plus the
   time the loop took from looking to arming, or as soon as it was armed if the deadline had passed
   when it looked; and not before the earliest deadline it saw.
   */
  lemma QuietTimerIsTimely(states: seq<State>, steps: seq<Step>, i: nat, k: Key)
    requires IsRun(states, steps) && i < |states|
    requires states[i].loop.Waiting? && !WakeupPending(states[i]) && k in states[i].deadlines
    ensures states[i].loop.fireAt <= Due(states[i].loop, states[i].deadlines[k])
    ensures states[i].loop.from <= states[i].loop.fireAt
  {
    NoLostWakeup(states, steps, i);
  }

  /** A step that schedules something, and so may wake the loop. */
  predicate Wakes(step: Step) {
    step.Schedule? && step.ttl > 0
  }

  /** While nothing is scheduled a quiet loop goes on waiting on the same timer, until it fires or is stopped. */
  lemma {:induction false} QuietStays(states: seq<State>, steps: seq<Step>, i: nat, j: nat)
    requires IsRun(states, steps) && i <= j < |states|
    requires states[i].loop.Waiting? && !WakeupPending(states[i])
    requires forall n :: i <= n < j ==> !Wakes(steps[n]) && !steps[n].Fire? && !steps[n].Stop?
    ensures states[j].loop == states[i].loop && !WakeupPending(states[j])
    ensures forall k :: k in states[j].deadlines ==> k in states[i].deadlines && states[j].deadlines[k] == states[i].deadlines[k]
    decreases j
  {
    if i < j {
      QuietStays(states, steps, i, j - 1);
      assert Next(states[j - 1], steps[j - 1], states[j]);
    }
  }

  /**
   So from a quiet loop on, if nothing is scheduled until the timer goes off, then when it does,
   at most `late` after it was set to, every entry whose deadline has come is removed and no other,
   and each of those outlived its deadline by no more than `late` plus the time from looking to arming.
   */
  lemma ExpiryIsTimely(states: seq<State>, steps: seq<Step>, i: nat, j: nat, k: Key, late: nat)
    requires IsRun(states, steps) && i <= j < |steps|
    requires states[i].loop.Waiting? && !WakeupPending(states[i])
    requires forall n :: i <= n < j ==> !Wakes(steps[n]) && !steps[n].Fire? && !steps[n].Stop?
    requires steps[j].Fire? && steps[j].now <= states[i].loop.fireAt + late
    requires k in states[j].deadlines
    ensures k in states[j + 1].deadlines <==> steps[j].now < states[j].deadlines[k]
    ensures steps[j].now <= Due(states[i].loop, states[j].deadlines[k]) + late
  {
    QuietStays(states, steps, i, j);
    QuietTimerIsTimely(states, steps, i, k);
    assert Next(states[j], steps[j], states[j + 1]);
  }

  // ---------- why it takes a quiet loop ----------

  /** One more schedule of another key, and the trip of the loop through the trigger that it causes. */
  function Round(other: Key, ttl: int, now: int): seq<Step> {
    [Schedule(other, ttl, now), Send, TakeToken, Look(now), Arm(now)]
  }

  /** `k` is overdue, and so is the timer the loop waits on. */
  predicate Overdue(s: State, k: Key, now: int) {
    && s.loop.Waiting? && s.loop.fireAt <= now && !s.token && s.sending == 0
    && k in s.deadlines && s.deadlines[k] < now
  }

  /** A round can run in full with `k` and the timer due all the while: the loop takes the trigger instead. */
  lemma RoundStarves(s: State, k: Key, other: Key, now: int) returns (states: seq<State>)
    requires Overdue(s, k, now) && k != other && EarliestIs(s.deadlines, s.deadlines[k])
    ensures |states| == 6 && states[0] == s && Overdue(states[5], k, now)
    ensures forall i :: 0 <= i < 5 ==> Next(states[i], Round(other, 1, now)[i], states[i + 1])
    ensures states[5].deadlines[k] == s.deadlines[k] && EarliestIs(states[5].deadlines, s.deadlines[k])
  {
    var more := s.deadlines[other := now + 1];
    assert more[k] == s.deadlines[k];
    assert EarliestIs(more, s.deadlines[k]) by {
      assert k in more && more[k] == s.deadlines[k];
    }
    var s1 := s.(deadlines := more, sending := 1);
    var s2 := s1.(sending := 0, token := true);
    var s3 := s2.(token := false, loop := Top);
    var s4 := s3.(loop := Looked(s.deadlines[k], now));
    var s5 := s4.(loop := Waiting(s.deadlines[k], now, now, now));
    states := [s, s1, s2, s3, s4, s5];
    assert Next(s, Schedule(other, 1, now), s1) && Next(s1, Send, s2) && Next(s2, TakeToken, s3);
    assert Next(s3, Look(now), s4) && Next(s4, Arm(now), s5);
  }

  lemma Extend(states: seq<State>, steps: seq<Step>, next: seq<State>, more: seq<Step>)
    requires IsRun(states, steps) && |next| == |more| + 1 && next[0] == states[|steps|]
    requires forall i :: 0 <= i < |more| ==> Next(next[i], more[i], next[i + 1])
    ensures IsRun(states + next[1..], steps + more)
    ensures (states + next[1..])[|steps| + |more|] == next[|more|]
  {
    hide Next;
    var all := states + next[1..];
    forall i | 0 <= i <= |more| ensures all[|steps| + i] == next[i] {
    }
    forall i | 0 <= i < |steps + more| ensures Next(all[i], (steps + more)[i], all[i + 1]) {
      if i >= |steps| {
        assert all[i] == next[i - |steps|] && all[i + 1] == next[i + 1 - |steps|];
      }
    }
  }

  /** A run up to the point where the entry of `k`, due at 1, and the loop's timer are both overdue at 5. */
  lemma OverdueRun(k: Key) returns (states: seq<State>, steps: seq<Step>)
    ensures IsRun(states, steps) && Overdue(states[|steps|], k, 5)
    ensures states[|steps|].deadlines[k] == 1 && EarliestIs(states[|steps|].deadlines, 1)
  {
    var s1 := START.(deadlines := map[k := 1], sending := 1);
    var s2 := s1.(sending := 0, token := true);
    var s3 := s2.(loop := Looked(1, 5));
    var s4 := s3.(loop := Waiting(1, 5, 5, 5));
    var s5 := s4.(token := false, loop := Top);
    var s6 := s5.(loop := Looked(1, 5));
    var s7 := s6.(loop := Waiting(1, 5, 5, 5));
    assert EarliestIs(s1.deadlines, 1) by {
      assert k in s1.deadlines && s1.deadlines[k] == 1;
    }
    states := [START, s1, s2, s3, s4, s5, s6, s7];
    steps := [Schedule(k, 1, 0), Send, Look(5), Arm(5), TakeToken, Look(5), Arm(5)];
    assert Next(START, steps[0], s1) && Next(s1, steps[1], s2) && Next(s2, steps[2], s3) && Next(s3, steps[3], s4);
    assert Next(s4, steps[4], s5) && Next(s5, steps[5], s6) && Next(s6, steps[6], s7);
  }

  /**
   Without a quiet loop there is no bound at all: callers that keep scheduling another key can keep
   the loop on its trigger, so that an entry due at time 1 is still there at time 5 + `n`, for every `n`.
   */
  lemma {:induction false} TrafficStarvesExpiry(k: Key, other: Key, n: nat) returns (states: seq<State>, steps: seq<Step>)
    requires k != other
    ensures IsRun(states, steps) && Overdue(states[|steps|], k, 5 + n)
    ensures states[|steps|].deadlines[k] == 1 && EarliestIs(states[|steps|].deadlines, 1)
  {
    hide IsRun, EarliestIs;
    if n == 0 {
      states, steps := OverdueRun(k);
    } else {
      states, steps := TrafficStarvesExpiry(k, other, n - 1);
      LastOfRun(states, steps);
      var next := RoundStarves(states[|steps|], k, other, 5 + n);
      Extend(states, steps, next, Round(other, 1, 5 + n));
      states, steps := states + next[1..], steps + Round(other, 1, 5 + n);
    }
  }

  lemma LastOfRun(states: seq<State>, steps: seq<Step>)
    requires IsRun(states, steps)
    ensures |states| == |steps| + 1
  {
  }

  /** A blocked loop with a stale timer is never stuck: a send or the token itself can go ahead. */
  lemma StaleIsNotStuck(states: seq<State>, steps: seq<Step>, i: nat)
    requires IsRun(states, steps) && i < |states| && states[i].loop.Waiting? && Stale(states[i])
    ensures exists step, s' :: (step == Send || step == TakeToken) && Next(states[i], step, s')
  {
    var s := states[i];
    NoLostWakeup(states, steps, i);
    if s.token {
      assert Next(s, TakeToken, s.(token := false, loop := Top));
    } else {
      assert Next(s, Send, s.(sending := s.sending - 1, token := true));
    }
  }
}
